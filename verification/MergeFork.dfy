/** Two FORKs that compare equal have the same region: the nodes between the FORK
    and its JOIN correspond one to one, with the same labels and edges. */
module MergeFork {
  import opened Wrappers
  import opened Tokens
  import opened CommandTree
  import opened MergeShape
  import opened MergeEqual

  /** `v` is the outermost FORK `f`, its JOIN or a node between the two. */
  ghost predicate Region(h: Heap, c: Cert, f: nat, v: nat)
    requires |c.ctx| == |h|
  {
    v < |h| && (v == f || v == Pair(h, f) || (|c.ctx[v]| > 0 && c.ctx[v][0] == f))
  }

  ghost predicate Outermost(h: Heap, c: Cert, f: nat) {
    Shape(h, c) && IsKind(h, f, Fork) && c.ctx[f] == []
  }

  lemma RegionUp(h: Heap, c: Cert, f: nat, v: nat)
    requires Outermost(h, c, f) && Region(h, c, f, v) && v != f
    ensures c.par[v] < |h| && Region(h, c, f, c.par[v]) && c.par[v] != Pair(h, f) && c.rank[v] < c.rank[c.par[v]]
    ensures IsKind(h, v, Join) ==> Region(h, c, f, Pair(h, v)) && c.rank[v] < c.rank[Pair(h, v)]
  {
    var p := c.par[v];
    PairFacts(h, c, f);
    assert HasParent(h, c, v) && !IsKind(h, v, Start);
    if IsKind(h, v, Join) {
      PairFacts(h, c, v);
    }
    assert h[p].to[c.pos[v]] == v;
    assert Down(h, c, p, c.pos[v], v);
    assert Inner(h, c, p)[0] == f;
  }

  /** The node of `fa`'s region that corresponds to `v` in `fb`'s: reached by the
      same positions, a JOIN by its FORK. */
  ghost function Image(h: Heap, c: Cert, fa: nat, fb: nat, v: nat): nat
    requires Outermost(h, c, fb) && Region(h, c, fb, v)
    decreases c.top - c.rank[v]
  {
    if v == fb then fa
    else
      RegionUp(h, c, fb, v);
      if IsKind(h, v, Join) then Pair(h, Image(h, c, fa, fb, Pair(h, v)))
      else
        var u := Image(h, c, fa, fb, c.par[v]);
        if u < |h| && c.pos[v] < |h[u].to| then h[u].to[c.pos[v]] else 0
  }

  ghost predicate Twins(h: Heap, c: Cert, fa: nat, fb: nat) {
    Outermost(h, c, fa) && Outermost(h, c, fb) && NodesEqual(h, c, fa, fb)
  }

  /** A list of FORKs and the images of another list of FORKs. */
  ghost predicate Mirrors(h: Heap, c: Cert, fa: nat, fb: nat, a: seq<nat>, b: seq<nat>)
    requires Outermost(h, c, fb)
  {
    |a| == |b| && forall k | 0 <= k < |b| :: Region(h, c, fb, b[k]) && a[k] == Image(h, c, fa, fb, b[k])
  }

  /** What holds between a node `v` and its image `u`. */
  ghost predicate Related(h: Heap, c: Cert, fa: nat, fb: nat, u: nat, v: nat)
    requires Twins(h, c, fa, fb)
  {
    && u < |h| && v < |h| && NodesEqual(h, c, u, v)
    && Mirrors(h, c, fa, fb, c.ctx[u], c.ctx[v])
    && (v == Pair(h, fb) <==> u == Pair(h, fa))
    && (v != Pair(h, fb) ==> SubgraphEqual(h, c, u, v, Pair(h, fa)))
  }

  lemma InnerMirrors(h: Heap, c: Cert, fa: nat, fb: nat, v: nat)
    requires Twins(h, c, fa, fb) && Region(h, c, fb, v) && Related(h, c, fa, fb, Image(h, c, fa, fb, v), v)
    ensures Mirrors(h, c, fa, fb, Inner(h, c, Image(h, c, fa, fb, v)), Inner(h, c, v))
  {
    var u := Image(h, c, fa, fb, v);
    assert IsKind(h, u, Fork) <==> IsKind(h, v, Fork);
  }

  /** One step down from a related pair. */
  lemma ChildRelated(h: Heap, c: Cert, fa: nat, fb: nat, p: nat, i: nat)
    requires Twins(h, c, fa, fb) && Region(h, c, fb, p) && p != Pair(h, fb) && i < |h[p].to| && h[p].to[i] != LoopStop(h, p)
    requires Related(h, c, fa, fb, Image(h, c, fa, fb, p), p)
    ensures var u := Image(h, c, fa, fb, p);
            && |h[u].to| == |h[p].to| && h[u].to[i] < |h| && h[p].to[i] < |h| && h[u].to[i] != LoopStop(h, u)
            && NodesEqual(h, c, h[u].to[i], h[p].to[i])
            && (h[u].to[i] == Pair(h, fa) || SubgraphEqual(h, c, h[u].to[i], h[p].to[i], Pair(h, fa)))
            && Down(h, c, u, i, h[u].to[i]) && Down(h, c, p, i, h[p].to[i])
  {
    var u := Image(h, c, fa, fb, p);
    assert ChildEqual(h, c, u, p, Pair(h, fa), i);
  }

  /** A JOIN reached from a related pair is the image of the JOIN reached. */
  lemma JoinRelated(h: Heap, c: Cert, fa: nat, fb: nat, p: nat, i: nat)
    requires Twins(h, c, fa, fb) && Region(h, c, fb, p) && p != Pair(h, fb) && i < |h[p].to| && h[p].to[i] != LoopStop(h, p)
    requires Related(h, c, fa, fb, Image(h, c, fa, fb, p), p) && IsKind(h, h[p].to[i], Join)
    ensures var u, v := Image(h, c, fa, fb, p), h[p].to[i];
            && i < |h[u].to| && Region(h, c, fb, v) && h[u].to[i] == Image(h, c, fa, fb, v) && h[u].to[i] < |h|
            && Mirrors(h, c, fa, fb, c.ctx[h[u].to[i]], c.ctx[v])
            && NodesEqual(h, c, h[u].to[i], v)
  {
    var u, v := Image(h, c, fa, fb, p), h[p].to[i];
    ChildRelated(h, c, fa, fb, p, i);
    InnerMirrors(h, c, fa, fb, p);
    JoinRegion(h, c, fb, p, i);
    var w := h[u].to[i];
    JoinMirrors(h, c, fa, fb, u, p, w, v);
    RegionUp(h, c, fb, v);
  }

  lemma JoinRegion(h: Heap, c: Cert, f: nat, p: nat, i: nat)
    requires Outermost(h, c, f) && Region(h, c, f, p) && p != Pair(h, f) && i < |h[p].to| && h[p].to[i] != LoopStop(h, p)
    requires IsKind(h, h[p].to[i], Join)
    ensures Region(h, c, f, h[p].to[i]) && Region(h, c, f, Pair(h, h[p].to[i])) && h[p].to[i] != f
  {
    var v := h[p].to[i];
    PairFacts(h, c, v);
    assert Down(h, c, p, i, v);
    var inner := Inner(h, c, p);
    assert |inner| > 0 && inner[0] == f;
    if |c.ctx[v]| > 0 {
      assert c.ctx[v][0] == f;
    }
  }

  lemma JoinMirrors(h: Heap, c: Cert, fa: nat, fb: nat, u: nat, p: nat, w: nat, v: nat)
    requires Outermost(h, c, fb) && u < |h| && p < |h| && IsKind(h, w, Join) && IsKind(h, v, Join)
    requires Mirrors(h, c, fa, fb, Inner(h, c, u), Inner(h, c, p)) && Region(h, c, fb, Pair(h, v))
    requires Inner(h, c, u) == c.ctx[w] + [Pair(h, w)] && Inner(h, c, p) == c.ctx[v] + [Pair(h, v)]
    ensures Mirrors(h, c, fa, fb, c.ctx[w], c.ctx[v]) && w == Pair(h, Image(h, c, fa, fb, Pair(h, v)))
  {
    var k := |c.ctx[v]|;
    assert Inner(h, c, u)[k] == Pair(h, w) && Inner(h, c, p)[k] == Pair(h, v);
    forall k | 0 <= k < |c.ctx[v]|
      ensures Region(h, c, fb, c.ctx[v][k]) && c.ctx[w][k] == Image(h, c, fa, fb, c.ctx[v][k])
    {
      assert Inner(h, c, u)[k] == c.ctx[w][k] && Inner(h, c, p)[k] == c.ctx[v][k];
    }
  }

  /** Every node of the region is related to its image. */
  lemma {:induction false} ImageRelated(h: Heap, c: Cert, fa: nat, fb: nat, v: nat)
    requires Twins(h, c, fa, fb) && Region(h, c, fb, v)
    ensures Related(h, c, fa, fb, Image(h, c, fa, fb, v), v)
    decreases c.top - c.rank[v]
  {
    if v == fb {
      assert fa != Pair(h, fa) && fb != Pair(h, fb);
    } else {
      RegionUp(h, c, fb, v);
      ImageRelated(h, c, fa, fb, c.par[v]);
      assert HasParent(h, c, v) && !IsKind(h, v, Start);
      assert h[c.par[v]].to[c.pos[v]] == v && v != LoopStop(h, c.par[v]);
      if IsKind(h, v, Join) {
        ImageRelated(h, c, fa, fb, Pair(h, v));
        JoinImage(h, c, fa, fb, v);
      } else {
        PlainImage(h, c, fa, fb, v);
      }
    }
  }

  lemma PlainImage(h: Heap, c: Cert, fa: nat, fb: nat, v: nat)
    requires Twins(h, c, fa, fb) && Region(h, c, fb, v) && v != fb && !IsKind(h, v, Join)
    requires c.par[v] < |h| && Region(h, c, fb, c.par[v]) && c.par[v] != Pair(h, fb)
    requires Related(h, c, fa, fb, Image(h, c, fa, fb, c.par[v]), c.par[v])
    requires c.pos[v] < |h[c.par[v]].to| && h[c.par[v]].to[c.pos[v]] == v && v != LoopStop(h, c.par[v])
    ensures Related(h, c, fa, fb, Image(h, c, fa, fb, v), v)
  {
    var p := c.par[v];
    ChildRelated(h, c, fa, fb, p, c.pos[v]);
    InnerMirrors(h, c, fa, fb, p);
    var u := Image(h, c, fa, fb, v);
    assert u == h[Image(h, c, fa, fb, p)].to[c.pos[v]];
    assert !IsKind(h, u, Join);
    assert IsKind(h, Pair(h, fa), Join) && IsKind(h, Pair(h, fb), Join);
  }

  lemma JoinImage(h: Heap, c: Cert, fa: nat, fb: nat, v: nat)
    requires Twins(h, c, fa, fb) && Region(h, c, fb, v) && v != fb && IsKind(h, v, Join)
    requires c.par[v] < |h| && Region(h, c, fb, c.par[v]) && c.par[v] != Pair(h, fb)
    requires Related(h, c, fa, fb, Image(h, c, fa, fb, c.par[v]), c.par[v])
    requires c.pos[v] < |h[c.par[v]].to| && h[c.par[v]].to[c.pos[v]] == v && v != LoopStop(h, c.par[v])
    requires Region(h, c, fb, Pair(h, v)) && Related(h, c, fa, fb, Image(h, c, fa, fb, Pair(h, v)), Pair(h, v))
    ensures Related(h, c, fa, fb, Image(h, c, fa, fb, v), v)
  {
    var p, i := c.par[v], c.pos[v];
    ChildRelated(h, c, fa, fb, p, i);
    JoinRelated(h, c, fa, fb, p, i);
    var u := Image(h, c, fa, fb, v);
    assert u == h[Image(h, c, fa, fb, p)].to[i];
    LastJoin(h, c, fa, fb, v);
  }

  /** Only the outermost JOIN has the outermost JOIN as its image. */
  lemma LastJoin(h: Heap, c: Cert, fa: nat, fb: nat, v: nat)
    requires Twins(h, c, fa, fb) && Region(h, c, fb, v) && v != fb && IsKind(h, v, Join)
    requires Region(h, c, fb, Pair(h, v)) && Related(h, c, fa, fb, Image(h, c, fa, fb, Pair(h, v)), Pair(h, v))
    ensures v == Pair(h, fb) <==> Image(h, c, fa, fb, v) == Pair(h, fa)
  {
    RegionUp(h, c, fb, v);
    var f := Pair(h, v);
    var g := Image(h, c, fa, fb, f);
    assert Image(h, c, fa, fb, v) == Pair(h, g);
    assert IsKind(h, g, Fork) && IsKind(h, f, Fork);
    if Pair(h, g) == Pair(h, fa) {
      assert g == Pair(h, Pair(h, g)) == fa;
      assert |c.ctx[f]| == 0;
    }
  }

  // ---- the correspondence is one to one and keeps the edges ----

  lemma ChildRegion(h: Heap, c: Cert, f: nat, v: nat, i: nat)
    requires Outermost(h, c, f) && Region(h, c, f, v) && v != Pair(h, f) && i < |h[v].to|
    ensures h[v].to[i] < |h| && Region(h, c, f, h[v].to[i])
  {
    var w := h[v].to[i];
    if w == LoopStop(h, v) {
      if IsKind(h, v, Join) {
        RegionUp(h, c, f, v);
      }
    } else if IsKind(h, w, Join) {
      JoinRegion(h, c, f, v, i);
    } else {
      assert Down(h, c, v, i, w);
      assert Inner(h, c, v)[0] == f;
    }
  }

  /** Successors correspond position by position. */
  lemma EdgesMatch(h: Heap, c: Cert, fa: nat, fb: nat, v: nat, i: nat)
    requires Twins(h, c, fa, fb) && Region(h, c, fb, v) && v != Pair(h, fb) && i < |h[v].to|
    ensures var u := Image(h, c, fa, fb, v);
            && u < |h| && |h[u].to| == |h[v].to| && h[v].to[i] < |h| && Region(h, c, fb, h[v].to[i])
            && h[u].to[i] == Image(h, c, fa, fb, h[v].to[i])
  {
    ImageRelated(h, c, fa, fb, v);
    ChildRegion(h, c, fb, v, i);
    var u, w := Image(h, c, fa, fb, v), h[v].to[i];
    if w == LoopStop(h, v) {
      LoopsMatch(h, c, fa, fb, v, i);
    } else if IsKind(h, w, Join) {
      JoinRelated(h, c, fa, fb, v, i);
    } else {
      assert Down(h, c, v, i, w);
      PlainStep(h, c, fa, fb, w);
    }
  }

  lemma PlainStep(h: Heap, c: Cert, fa: nat, fb: nat, w: nat)
    requires Twins(h, c, fa, fb) && Region(h, c, fb, w) && w != fb && !IsKind(h, w, Join)
    requires c.par[w] < |h| && Region(h, c, fb, c.par[w]) && Related(h, c, fa, fb, Image(h, c, fa, fb, c.par[w]), c.par[w])
    requires c.par[w] != Pair(h, fb)
    ensures var u := Image(h, c, fa, fb, c.par[w]); c.pos[w] < |h[u].to| && h[u].to[c.pos[w]] == Image(h, c, fa, fb, w)
  {
    assert HasParent(h, c, w) && !IsKind(h, w, Start);
    assert h[c.par[w]].to[c.pos[w]] == w;
    assert |h[Image(h, c, fa, fb, c.par[w])].to| == |h[c.par[w]].to|;
  }

  lemma LoopsMatch(h: Heap, c: Cert, fa: nat, fb: nat, v: nat, i: nat)
    requires Twins(h, c, fa, fb) && Region(h, c, fb, v) && v != Pair(h, fb) && i < |h[v].to| && h[v].to[i] == LoopStop(h, v)
    requires Related(h, c, fa, fb, Image(h, c, fa, fb, v), v) && Region(h, c, fb, h[v].to[i])
    ensures var u := Image(h, c, fa, fb, v); i < |h[u].to| && h[u].to[i] == Image(h, c, fa, fb, h[v].to[i])
  {
    var u := Image(h, c, fa, fb, v);
    LoopImage(h, c, fa, fb, v);
    LoopPlace(h, c, u, v, Pair(h, fa), i);
  }

  lemma LoopImage(h: Heap, c: Cert, fa: nat, fb: nat, v: nat)
    requires Twins(h, c, fa, fb) && Region(h, c, fb, v) && v != Pair(h, fb) && LoopStop(h, v) in h[v].to
    requires Related(h, c, fa, fb, Image(h, c, fa, fb, v), v) && Region(h, c, fb, LoopStop(h, v))
    ensures var u := Image(h, c, fa, fb, v);
            LoopStop(h, u) == Image(h, c, fa, fb, LoopStop(h, v)) && LoopStop(h, u) in h[u].to
  {
    var u, w := Image(h, c, fa, fb, v), LoopStop(h, v);
    hide SubgraphEqual;
    if IsKind(h, v, Join) {
      RegionUp(h, c, fb, v);
      PairFacts(h, c, v);
      ImageRelated(h, c, fa, fb, w);
      var x := Image(h, c, fa, fb, w);
      assert IsKind(h, x, Fork) && u == Pair(h, x);
      PairFacts(h, c, x);
      assert LinksAgree(h, x, w);
    } else {
      assert LabelEqual(h, u, v);
    }
  }

  /** Loop edges of compared nodes are in the same place. */
  lemma LoopPlace(h: Heap, c: Cert, u: nat, v: nat, aJoin: nat, i: nat)
    requires Shape(h, c) && u < |h| && v < |h| && SubgraphEqual(h, c, u, v, aJoin)
    requires i < |h[v].to| && h[v].to[i] == LoopStop(h, v) && LoopStop(h, u) in h[u].to
    ensures i < |h[u].to| && h[u].to[i] == LoopStop(h, u)
  {
    var k: nat :| k < |h[u].to| && h[u].to[k] == LoopStop(h, u);
    LoopAlike(h, c, u, v, aJoin, k);
    NoParallel(h, c, v, i, k);
    hide SubgraphEqual;
  }

  lemma LoopAlike(h: Heap, c: Cert, u: nat, v: nat, aJoin: nat, k: nat)
    requires Shape(h, c) && u < |h| && v < |h| && SubgraphEqual(h, c, u, v, aJoin) && k < |h[u].to|
    requires h[u].to[k] == LoopStop(h, u)
    ensures |h[v].to| == |h[u].to| && h[v].to[k] == LoopStop(h, v)
  {
    assert ChildEqual(h, c, u, v, aJoin, k);
  }

  lemma NoParallel(h: Heap, c: Cert, v: nat, i: nat, k: nat)
    requires Shape(h, c) && v < |h| && i < |h[v].to| && k < |h[v].to| && h[v].to[i] == h[v].to[k]
    ensures i == k
  {
  }

  lemma ImageRegion(h: Heap, c: Cert, fa: nat, fb: nat, v: nat)
    requires Twins(h, c, fa, fb) && Region(h, c, fb, v)
    ensures Region(h, c, fa, Image(h, c, fa, fb, v))
  {
    ImageRelated(h, c, fa, fb, v);
    if |c.ctx[v]| > 0 {
      assert c.ctx[Image(h, c, fa, fb, v)][0] == Image(h, c, fa, fb, c.ctx[v][0]);
    }
  }

  lemma {:induction false} ImageInjective(h: Heap, c: Cert, fa: nat, fb: nat, v: nat, w: nat)
    requires Twins(h, c, fa, fb) && Region(h, c, fb, v) && Region(h, c, fb, w)
    requires Image(h, c, fa, fb, v) == Image(h, c, fa, fb, w)
    ensures v == w
    decreases c.top - c.rank[v]
  {
    ImageRelated(h, c, fa, fb, v);
    ImageRelated(h, c, fa, fb, w);
    var u := Image(h, c, fa, fb, v);
    if v == fb || w == fb {
      assert |c.ctx[v]| == |c.ctx[w]| == 0;
    } else {
      RegionUp(h, c, fb, v);
      RegionUp(h, c, fb, w);
      if IsKind(h, v, Join) {
        SamePair(h, c, fa, fb, v, w);
        ImageInjective(h, c, fa, fb, Pair(h, v), Pair(h, w));
        PairFacts(h, c, v);
        PairFacts(h, c, w);
      } else {
        SameParent(h, c, fa, fb, v, w);
        ImageInjective(h, c, fa, fb, c.par[v], c.par[w]);
        assert HasParent(h, c, v) && HasParent(h, c, w);
      }
    }
  }

  lemma SamePair(h: Heap, c: Cert, fa: nat, fb: nat, v: nat, w: nat)
    requires Twins(h, c, fa, fb) && Region(h, c, fb, v) && Region(h, c, fb, w) && v != fb && w != fb
    requires IsKind(h, v, Join) && IsKind(h, w, Join) && Image(h, c, fa, fb, v) == Image(h, c, fa, fb, w)
    ensures Region(h, c, fb, Pair(h, v)) && Region(h, c, fb, Pair(h, w))
    ensures Image(h, c, fa, fb, Pair(h, v)) == Image(h, c, fa, fb, Pair(h, w))
  {
    hide Image, Related, Twins, Region;
    PairImage(h, c, fa, fb, v);
    PairImage(h, c, fa, fb, w);
  }

  /** The partner of a JOIN's FORK is the FORK of its partner. */
  lemma PairImage(h: Heap, c: Cert, fa: nat, fb: nat, v: nat)
    requires Twins(h, c, fa, fb) && Region(h, c, fb, v) && v != fb && IsKind(h, v, Join)
    ensures Region(h, c, fb, Pair(h, v)) && Pair(h, Image(h, c, fa, fb, v)) == Image(h, c, fa, fb, Pair(h, v))
  {
    RegionUp(h, c, fb, v);
    PairFacts(h, c, v);
    ImageRelated(h, c, fa, fb, Pair(h, v));
    var x := Image(h, c, fa, fb, Pair(h, v));
    assert IsKind(h, x, Fork);
    PairFacts(h, c, x);
    assert Image(h, c, fa, fb, v) == Pair(h, x);
  }

  lemma SameParent(h: Heap, c: Cert, fa: nat, fb: nat, v: nat, w: nat)
    requires Twins(h, c, fa, fb) && Region(h, c, fb, v) && Region(h, c, fb, w) && v != fb && w != fb
    requires !IsKind(h, v, Join) && !IsKind(h, w, Join) && Image(h, c, fa, fb, v) == Image(h, c, fa, fb, w)
    ensures c.par[v] < |h| && Region(h, c, fb, c.par[v]) && c.par[w] < |h| && Region(h, c, fb, c.par[w])
    ensures Image(h, c, fa, fb, c.par[v]) == Image(h, c, fa, fb, c.par[w]) && c.pos[v] == c.pos[w]
  {
    ImageParent(h, c, fa, fb, v);
    ImageParent(h, c, fa, fb, w);
  }

  lemma ImageParent(h: Heap, c: Cert, fa: nat, fb: nat, v: nat)
    requires Twins(h, c, fa, fb) && Region(h, c, fb, v) && v != fb && !IsKind(h, v, Join)
    ensures c.par[v] < |h| && Region(h, c, fb, c.par[v])
    ensures var u := Image(h, c, fa, fb, v);
            u < |h| && c.par[u] == Image(h, c, fa, fb, c.par[v]) && c.pos[u] == c.pos[v]
  {
    RegionUp(h, c, fb, v);
    var p := c.par[v];
    ImageRelated(h, c, fa, fb, p);
    ImageRelated(h, c, fa, fb, v);
    assert HasParent(h, c, v) && !IsKind(h, v, Start);
    assert h[p].to[c.pos[v]] == v && v != LoopStop(h, p);
    ChildRelated(h, c, fa, fb, p, c.pos[v]);
    assert !IsKind(h, Image(h, c, fa, fb, v), Join);
  }

  lemma {:induction false} ImageOnto(h: Heap, c: Cert, fa: nat, fb: nat, u: nat) returns (v: nat)
    requires Twins(h, c, fa, fb) && Region(h, c, fa, u)
    ensures Region(h, c, fb, v) && Image(h, c, fa, fb, v) == u
    decreases c.top - c.rank[u]
  {
    if u == fa {
      v := fb;
    } else {
      RegionUp(h, c, fa, u);
      if IsKind(h, u, Join) {
        var w := ImageOnto(h, c, fa, fb, Pair(h, u));
        ImageRelated(h, c, fa, fb, w);
        v := Pair(h, w);
        assert IsKind(h, w, Fork) && c.ctx[v] == c.ctx[w];
        assert v != fb;
      } else {
        var p := c.par[u];
        var q := ImageOnto(h, c, fa, fb, p);
        ImageRelated(h, c, fa, fb, q);
        assert HasParent(h, c, u) && !IsKind(h, u, Start);
        assert h[p].to[c.pos[u]] == u;
        EdgesMatch(h, c, fa, fb, q, c.pos[u]);
        v := h[q].to[c.pos[u]];
      }
    }
  }
}
