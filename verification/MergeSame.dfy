/** When two nodes compare equal: nodes field by field, FORKs exactly when the regions up
    to their JOINs are isomorphic. */
module MergeSame {
  import opened Wrappers
  import opened Tokens
  import opened CommandTree
  import opened MergeShape
  import opened MergeEqual
  import opened MergeFork
  import opened MergeMatch

  /** Two tokens of the same kind, text, variable name, range and repetition; the text of
      START, FORK, JOIN and END does not matter. */
  ghost predicate SameNode(h: Heap, u: nat, v: nat) {
    && u < |h| && v < |h| && h[u].data.Tok? && h[v].data.Tok?
    && var a, b := h[u].data.token, h[v].data.token;
       && a.kind == b.kind && a.allowRepeat == b.allowRepeat && a.varname == b.varname
       && (a.kind.Start? || a.kind.Fork? || a.kind.Join? || a.kind.End? || a.text == b.text)
       && (a.kind.Range? ==> a.min == b.min && a.max == b.max)
       && (u in h[u].to <==> v in h[v].to)
  }

  lemma LabelExact(h: Heap, u: nat, v: nat)
    requires u < |h| && v < |h|
    ensures LabelEqual(h, u, v) <==> SameNode(h, u, v)
  {
  }

  /** Any node but a FORK compares equal exactly to one with the same fields. */
  lemma PlainExact(h: Heap, c: Cert, u: nat, v: nat)
    requires Shape(h, c) && u < |h| && v < |h| && !IsKind(h, u, Fork)
    ensures NodesEqual(h, c, u, v) <==> SameNode(h, u, v)
  {
    hide Shape;
    LabelExact(h, u, v);
  }

  /** `m` is an isomorphism from what lies between `fa` and its JOIN to what lies between
      `fb` and its JOIN: it keeps the fields, the pairing of FORKs and JOINs, and the
      successors position by position. */
  ghost predicate Isomorphism(h: Heap, c: Cert, fa: nat, fb: nat, m: Nodes)
    requires Sized(h, c) && fa < |h|
  {
    && IsKind(h, fa, Fork) && fa in m && m[fa] == fb && Pair(h, fa) in m
    && (forall u | u in m :: u < |h| && c.rank[u] <= c.rank[fa] && SameNode(h, u, m[u]))
    && (forall u, v | u in m && v in m && m[u] == m[v] :: u == v)
    && (forall u | u in m && IsKind(h, u, Fork) :: PairKept(h, m, u))
    && (forall u | u in m && u != Pair(h, fa) :: StepsKept(h, m, u))
  }

  ghost predicate PairKept(h: Heap, m: Nodes, u: nat)
    requires u in m
  {
    && Pair(h, u) in m && Pair(h, u) < |h| && m[Pair(h, u)] == Pair(h, m[u]) && Pair(h, m[u]) < |h|
    && (u in h[Pair(h, u)].to <==> m[u] in h[Pair(h, m[u])].to)
  }

  ghost predicate StepsKept(h: Heap, m: Nodes, u: nat)
    requires u in m
  {
    && u < |h| && m[u] < |h| && |h[m[u]].to| == |h[u].to|
    && forall i | 0 <= i < |h[u].to| :: h[u].to[i] in m && h[m[u]].to[i] == m[h[u].to[i]]
  }

  // ---- isomorphic regions compare equal ----

  lemma {:induction false} IsoNode(h: Heap, c: Cert, fa: nat, fb: nat, m: Nodes, u: nat)
    requires Shape(h, c) && fa < |h| && Isomorphism(h, c, fa, fb, m) && u in m
    ensures u < |h| && m[u] < |h| && NodesEqual(h, c, u, m[u])
    decreases if u < |c.rank| then c.rank[u] else 0, 2
  {
    hide Edges, Parents, Pairs, Nested, Leaves, SubgraphEqual;
    LabelExact(h, u, m[u]);
    if IsKind(h, u, Fork) {
      ForkInside(h, c, fa, fb, m, u);
      IsoLinks(h, c, fa, fb, m, u);
      IsoSubgraph(h, c, fa, fb, m, u, u);
    }
  }

  /** A FORK of the region is not its JOIN. */
  lemma ForkInside(h: Heap, c: Cert, fa: nat, fb: nat, m: Nodes, u: nat)
    requires Shape(h, c) && fa < |h| && Isomorphism(h, c, fa, fb, m) && u in m && IsKind(h, u, Fork)
    ensures u != Pair(h, fa) && u in Inner(h, c, u)
  {
    var inner := Inner(h, c, u);
    assert inner[|inner| - 1] == u;
    PairFacts(h, c, fa);
  }

  lemma IsoLinks(h: Heap, c: Cert, fa: nat, fb: nat, m: Nodes, u: nat)
    requires Shape(h, c) && fa < |h| && Isomorphism(h, c, fa, fb, m) && u in m && IsKind(h, u, Fork) && u != Pair(h, fa)
    ensures u < |h| && m[u] < |h| && Pair(h, u) < |h| && Pair(h, m[u]) < |h| && LinksAgree(h, u, m[u])
  {
    hide Shape;
    assert PairKept(h, m, u) && StepsKept(h, m, u);
    if Pair(h, u) in h[u].to {
      var i :| 0 <= i < |h[u].to| && h[u].to[i] == Pair(h, u);
      assert h[m[u]].to[i] == Pair(h, m[u]);
    }
    if Pair(h, m[u]) in h[m[u]].to {
      var i :| 0 <= i < |h[m[u]].to| && h[m[u]].to[i] == Pair(h, m[u]);
      assert m[h[u].to[i]] == m[Pair(h, u)];
    }
  }

  /** From a node at which FORK `g` is open, the comparison down to the JOIN of `g`. */
  lemma {:induction false} IsoSubgraph(h: Heap, c: Cert, fa: nat, fb: nat, m: Nodes, g: nat, u: nat)
    requires Shape(h, c) && fa < |h| && Isomorphism(h, c, fa, fb, m) && g in m && IsKind(h, g, Fork)
    requires u in m && u < |h| && m[u] < |h| && g in Inner(h, c, u)
    ensures SubgraphEqual(h, c, u, m[u], Pair(h, g))
    decreases c.rank[u], 1
  {
    hide Edges, Parents, Pairs, Nested, Leaves;
    NotLast(h, c, fa, fb, m, g, u);
    assert StepsKept(h, m, u);
    forall i | 0 <= i < |h[u].to|
      ensures ChildEqual(h, c, u, m[u], Pair(h, g), i)
    {
      var w := h[u].to[i];
      if w == LoopStop(h, u) {
        IsoLoop(h, c, fa, fb, m, u, i);
      } else {
        StepDown(h, c, g, u, i);
        IsoNode(h, c, fa, fb, m, w);
        if w != Pair(h, g) {
          IsoSubgraph(h, c, fa, fb, m, g, w);
        }
      }
    }
  }

  lemma NotLast(h: Heap, c: Cert, fa: nat, fb: nat, m: Nodes, g: nat, u: nat)
    requires Shape(h, c) && fa < |h| && Isomorphism(h, c, fa, fb, m) && g in m && u in m && u < |h| && g in Inner(h, c, u)
    ensures u != Pair(h, fa)
  {
    PairFacts(h, c, fa);
    assert forall k | 0 <= k < |c.ctx[fa]| :: c.rank[fa] < c.rank[c.ctx[fa][k]];
  }

  lemma StepDown(h: Heap, c: Cert, g: nat, u: nat, i: nat)
    requires Shape(h, c) && u < |h| && g in Inner(h, c, u) && i < |h[u].to| && h[u].to[i] != LoopStop(h, u)
    ensures h[u].to[i] < |h| && c.rank[h[u].to[i]] < c.rank[u]
    ensures h[u].to[i] == Pair(h, g) || g in Inner(h, c, h[u].to[i])
  {
    EdgeDown(h, c, u, i);
    hide Shape;
    var w := h[u].to[i];
    if IsKind(h, w, Join) {
      PairFacts(h, c, w);
      assert g in c.ctx[w] || g == Pair(h, w);
    } else {
      assert g in c.ctx[w];
    }
  }

  lemma EdgeDown(h: Heap, c: Cert, u: nat, i: nat)
    requires Shape(h, c) && u < |h| && i < |h[u].to| && h[u].to[i] != LoopStop(h, u)
    ensures Sized(h, c) && h[u].to[i] < |h| && Down(h, c, u, i, h[u].to[i])
  {
    hide Parents, Pairs, Nested, Leaves;
  }

  lemma IsoLoop(h: Heap, c: Cert, fa: nat, fb: nat, m: Nodes, u: nat, i: nat)
    requires Shape(h, c) && fa < |h| && Isomorphism(h, c, fa, fb, m) && u in m && u < |h| && m[u] < |h|
    requires StepsKept(h, m, u) && i < |h[u].to| && h[u].to[i] == LoopStop(h, u)
    ensures h[m[u]].to[i] == LoopStop(h, m[u])
  {
    if IsKind(h, u, Join) {
      PairFacts(h, c, u);
      var f := Pair(h, u);
      assert PairKept(h, m, f) && IsKind(h, m[u], Join) && SameNode(h, f, m[f]);
      PairFacts(h, c, m[f]);
    } else {
      assert SameNode(h, u, m[u]);
    }
  }

  // ---- and FORKs that compare equal have isomorphic regions ----

  lemma TwinsIso(h: Heap, c: Cert, fa: nat, fb: nat)
    requires Twins(h, c, fa, fb)
    ensures fa < |h| && Sized(h, c) && Isomorphism(h, c, fa, fb, RegionBack(h, c, fa, fb))
  {
    hide Region, Image, Twins;
    TwinsFacts(h, c, fa, fb);
    var m := RegionBack(h, c, fa, fb);
    ForkWays(h, c, fa, fb);
    RegionInverse(h, c, fa, fb);
    forall u | u in m
      ensures u < |h| && c.rank[u] <= c.rank[fa] && SameNode(h, u, m[u])
      ensures IsKind(h, u, Fork) ==> PairKept(h, m, u)
      ensures u != Pair(h, fa) ==> StepsKept(h, m, u)
    {
      TwinKept(h, c, fa, fb, u);
    }
  }

  lemma TwinsFacts(h: Heap, c: Cert, fa: nat, fb: nat)
    requires Twins(h, c, fa, fb)
    ensures fa < |h| && fb < |h| && Sized(h, c) && IsKind(h, fa, Fork) && Region(h, c, fa, fa) && Region(h, c, fa, Pair(h, fa))
  {
    PairFacts(h, c, fa);
  }

  lemma TwinKept(h: Heap, c: Cert, fa: nat, fb: nat, u: nat)
    requires Twins(h, c, fa, fb) && Sized(h, c) && u < |h| && fa < |h| && u in RegionBack(h, c, fa, fb)
    ensures var m := RegionBack(h, c, fa, fb);
            && c.rank[u] <= c.rank[fa] && SameNode(h, u, m[u])
            && (IsKind(h, u, Fork) ==> PairKept(h, m, u)) && (u != Pair(h, fa) ==> StepsKept(h, m, u))
  {
    hide Image;
    var m := RegionBack(h, c, fa, fb);
    var v := Preimage(h, c, fa, fb, u);
    ImageRelated(h, c, fa, fb, v);
    LabelExact(h, u, v);
    RegionBelow(h, c, fa, u);
    if IsKind(h, u, Fork) {
      TwinPair(h, c, fa, fb, u);
    }
    if u != Pair(h, fa) {
      TwinSteps(h, c, fa, fb, u);
    }
  }

  lemma RegionBelow(h: Heap, c: Cert, f: nat, u: nat)
    requires Outermost(h, c, f) && Region(h, c, f, u)
    ensures c.rank[u] <= c.rank[f]
  {
    PairFacts(h, c, f);
  }

  lemma TwinPair(h: Heap, c: Cert, fa: nat, fb: nat, u: nat)
    requires Twins(h, c, fa, fb) && u < |h| && Region(h, c, fa, u) && IsKind(h, u, Fork)
    ensures PairKept(h, RegionBack(h, c, fa, fb), u)
  {
    var v := Preimage(h, c, fa, fb, u);
    ImageRelated(h, c, fa, fb, v);
    assert IsKind(h, v, Fork) && LinksAgree(h, u, v);
    PairFacts(h, c, u);
    PairFacts(h, c, v);
    PairFacts(h, c, fb);
    assert Region(h, c, fb, Pair(h, v)) && Pair(h, v) != fb;
    assert Image(h, c, fa, fb, Pair(h, v)) == Pair(h, u);
    ImageRegion(h, c, fa, fb, Pair(h, v));
    ImageInjective(h, c, fa, fb, Pair(h, v), Preimage(h, c, fa, fb, Pair(h, u)));
  }

  lemma TwinSteps(h: Heap, c: Cert, fa: nat, fb: nat, u: nat)
    requires Twins(h, c, fa, fb) && u < |h| && Region(h, c, fa, u) && u != Pair(h, fa)
    ensures StepsKept(h, RegionBack(h, c, fa, fb), u)
  {
    hide Image, Region, Twins;
    var v := Preimage(h, c, fa, fb, u);
    ForkWays(h, c, fa, fb);
    TwinSize(h, c, fa, fb, v, u);
    forall i | 0 <= i < |h[u].to|
      ensures h[u].to[i] < |h| && Region(h, c, fa, h[u].to[i]) && Preimage(h, c, fa, fb, h[u].to[i]) == h[v].to[i]
    {
      EdgesMatch(h, c, fa, fb, v, i);
      ImageRegion(h, c, fa, fb, h[v].to[i]);
      TwinIn(h, c, fa, h[u].to[i]);
      ImageInjective(h, c, fa, fb, h[v].to[i], Preimage(h, c, fa, fb, h[u].to[i]));
    }
  }

  lemma TwinIn(h: Heap, c: Cert, f: nat, u: nat)
    requires |c.ctx| == |h| && Region(h, c, f, u)
    ensures u < |h|
  {
  }

  lemma TwinSize(h: Heap, c: Cert, fa: nat, fb: nat, v: nat, u: nat)
    requires Twins(h, c, fa, fb) && Region(h, c, fb, v) && Image(h, c, fa, fb, v) == u && u != Pair(h, fa)
    ensures u < |h| && v < |h| && v != Pair(h, fb) && |c.ctx| == |h| && |h[u].to| == |h[v].to|
  {
    hide Image;
    ImageRelated(h, c, fa, fb, v);
  }

  /** Two outermost FORKs compare equal exactly when their regions are isomorphic. */
  lemma ForkExact(h: Heap, c: Cert, fa: nat, fb: nat)
    requires Outermost(h, c, fa) && Outermost(h, c, fb)
    ensures fa < |h| && fb < |h| && (NodesEqual(h, c, fa, fb) <==> exists m :: Isomorphism(h, c, fa, fb, m))
  {
    hide NodesEqual, Isomorphism;
    if NodesEqual(h, c, fa, fb) {
      TwinsIso(h, c, fa, fb);
    }
    if m :| Isomorphism(h, c, fa, fb, m) {
      IsoStart(h, c, fa, fb, m);
      IsoNode(h, c, fa, fb, m, fa);
    }
  }

  lemma IsoStart(h: Heap, c: Cert, fa: nat, fb: nat, m: Nodes)
    requires Sized(h, c) && fa < |h| && Isomorphism(h, c, fa, fb, m)
    ensures fa in m && m[fa] == fb
  {
  }
}
