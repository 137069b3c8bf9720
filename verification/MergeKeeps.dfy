/** Merging keeps the shape of the graphs, so that it can go on. */
module MergeKeeps {
  import opened Wrappers
  import opened Tokens
  import opened CommandTree
  import opened MergeShape
  import opened MergeEqual
  import opened MergeFork
  import opened MergeMatch
  import opened MergePaths

  /** The certificate of the merged heap: what is below the match belongs to the old
      graph, and the old graph is ranked above all of it. */
  ghost function Merged(h: Heap, c: Cert, f: Nodes, a: nat, n: nat, so: nat, sn: nat): Cert
    requires Sized(h, c) && a < |h| && n < |h|
  {
    Cert(
      c.ctx,
      seq(|h|, u requires 0 <= u < |h| => if c.root[u] == so then c.rank[u] + c.top + 1 else c.rank[u]),
      c.par[n := a], c.pos[n := |h[a].to|],
      seq(|h|, u requires 0 <= u < |h| => if c.root[u] == sn && u !in f then so else c.root[u]),
      2 * c.top + 1)
  }

  ghost predicate Moved(h: Heap, c: Cert, f: Nodes, sn: nat, u: nat)
    requires Sized(h, c) && u < |h|
  {
    c.root[u] == sn && u !in f
  }

  /** Edges other than the one moved join nodes that both move or both stay. */
  lemma MovesTogether(h: Heap, c: Cert, f: Nodes, b: nat, n: nat, sn: nat, u: nat, v: nat)
    requires Shape(h, c) && UpClosed(h, f) && Forward(h, f, b) && OnlyNext(h, b, n)
    requires Way(h, u, v) && !(u == b && v == n)
    ensures v < |h| && (Moved(h, c, f, sn, u) <==> Moved(h, c, f, sn, v))
  {
    SameRoot(h, c, u, v);
    assert v in f ==> u in f;
    assert u in f && u != b ==> v in f;
  }

  lemma DownKept(h: Heap, c: Cert, h': Heap, f: Nodes, a: nat, b: nat, n: nat, so: nat, sn: nat, u: nat, i: nat, v: nat)
    requires Shape(h, c) && a < |h| && n < |h| && |h'| == |h| && SameLabels(h, h')
    requires u < |h| && i < |h[u].to| && h[u].to[i] == v && v != LoopStop(h, u) && (v == n ==> u == b) && v != n
    ensures Sized(h', Merged(h, c, f, a, n, so, sn)) && Down(h', Merged(h, c, f, a, n, so, sn), u, i, v)
  {
    assert Down(h, c, u, i, v) && c.root[u] == c.root[v];
  }

  lemma SameKinds(h: Heap, h': Heap)
    requires |h'| == |h| && SameLabels(h, h')
    ensures forall u, k {:trigger IsKind(h', u, k)} :: IsKind(h', u, k) <==> IsKind(h, u, k)
    ensures forall u {:trigger Pair(h', u)} :: Pair(h', u) == Pair(h, u)
    ensures forall u {:trigger LoopStop(h', u)} | 0 <= u < |h| :: LoopStop(h', u) == LoopStop(h, u)
    ensures forall u {:trigger Type(h', u)} :: Type(h', u) == Type(h, u)
  {
  }

  /** One edge of the merged heap. */
  ghost predicate EdgeGood(h: Heap, c: Cert, u: nat, i: nat)
    requires Sized(h, c) && u < |h| && i < |h[u].to|
  {
    var v := h[u].to[i];
    && v < |h| && c.root[v] == c.root[u] && !IsKind(h, v, Start)
    && (v != LoopStop(h, u) ==> Down(h, c, u, i, v))
  }

  lemma EdgeKept(h: Heap, c: Cert, h': Heap, f: Nodes, g: Nodes, a: nat, b: nat, n: nat, so: nat, sn: nat, u: nat, i: nat)
    requires Joined(h, c, h', f, g, a, b, n, so, sn) && u < |h| && i < |h'[u].to|
    ensures n < |h| && a < |h| && Sized(h', Merged(h, c, f, a, n, so, sn))
    ensures EdgeGood(h', Merged(h, c, f, a, n, so, sn), u, i)
  {
    BelowMatch(h, c, h', f, g, a, b, n, so, sn);
    assert Spine(h, c, a) && Spine(h, c, b) && Way(h, b, n);
    hide UpClosed, Forward, Inverse, Labelled, Ranked, Whole, OnlyNext;
    SpineEdge(h, c, b, n);
    if u == a && i == |h[a].to| {
      NewEdgeDown(h, c, h', f, a, n, so, sn);
    } else if u == b {
      LoopEdgeKept(h, c, h', f, a, b, n, so, sn, i);
    } else {
      OldEdgeKept(h, c, h', f, a, b, n, so, sn, u, i);
    }
  }

  lemma OldEdgeKept(h: Heap, c: Cert, h': Heap, f: Nodes, a: nat, b: nat, n: nat, so: nat, sn: nat, u: nat, i: nat)
    requires Shape(h, c) && a < |h| && n < |h| && |h'| == |h| && SameLabels(h, h') && u < |h| && u != b
    requires i < |h[u].to| && i < |h'[u].to| && h'[u].to[i] == h[u].to[i]
    requires UpClosed(h, f) && Forward(h, f, b) && OnlyNext(h, b, n) && c.par[n] == b && !IsKind(h, n, Join)
    ensures Sized(h', Merged(h, c, f, a, n, so, sn)) && EdgeGood(h', Merged(h, c, f, a, n, so, sn), u, i)
  {
    var v := h[u].to[i];
    SameKinds(h, h');
    assert Way(h, u, v);
    MovesTogether(h, c, f, b, n, sn, u, v);
    SameRoot(h, c, u, v);
    hide UpClosed, Forward, OnlyNext;
    if v != LoopStop(h, u) {
      assert Down(h, c, u, i, v);
      DownKept(h, c, h', f, a, b, n, so, sn, u, i, v);
    }
  }

  lemma LoopEdgeKept(h: Heap, c: Cert, h': Heap, f: Nodes, a: nat, b: nat, n: nat, so: nat, sn: nat, i: nat)
    requires Shape(h, c) && n < |h| && Attached(h, h', a, b, n) && i < |h'[b].to|
    requires UpClosed(h, f) && Forward(h, f, b) && OnlyNext(h, b, n)
    ensures Sized(h', Merged(h, c, f, a, n, so, sn)) && EdgeGood(h', Merged(h, c, f, a, n, so, sn), b, i)
  {
    var v := h'[b].to[i];
    SameKinds(h, h');
    assert v in h'[b].to;
    assert Way(h, b, v) && v != n;
    MovesTogether(h, c, f, b, n, sn, b, v);
    SameRoot(h, c, b, v);
    assert v == LoopStop(h, b);
    var k :| 0 <= k < |h[b].to| && h[b].to[k] == v;
  }

  lemma NewEdgeDown(h: Heap, c: Cert, h': Heap, f: Nodes, a: nat, n: nat, so: nat, sn: nat)
    requires Shape(h, c) && |h'| == |h| && SameLabels(h, h') && n < |h| && c.root[n] == sn && n !in f && so != sn
    requires Spine(h, c, a) && c.root[a] == so && c.ctx[n] == [] && !IsKind(h, n, Join) && !IsKind(h, n, Start)
    requires |h'[a].to| == |h[a].to| + 1 && h'[a].to[|h[a].to|] == n
    ensures Sized(h', Merged(h, c, f, a, n, so, sn)) && EdgeGood(h', Merged(h, c, f, a, n, so, sn), a, |h[a].to|)
  {
    SameKinds(h, h');
  }

  lemma EdgesKept(h: Heap, c: Cert, h': Heap, f: Nodes, g: Nodes, a: nat, b: nat, n: nat, so: nat, sn: nat)
    requires Joined(h, c, h', f, g, a, b, n, so, sn)
    ensures n < |h| && a < |h| && Sized(h', Merged(h, c, f, a, n, so, sn)) && Edges(h', Merged(h, c, f, a, n, so, sn))
  {
    hide Joined, Merged, EdgeGood, Sized, Shape;
    BelowMatch(h, c, h', f, g, a, b, n, so, sn);
    JoinedParts(h, c, h', f, g, a, b, n, so, sn);
    MergedSized(h, c, h', f, a, n, so, sn);
    var c' := Merged(h, c, f, a, n, so, sn);
    forall u, i | 0 <= u < |h'| && 0 <= i < |h'[u].to|
      ensures EdgeGood(h', c', u, i)
    {
      EdgeKept(h, c, h', f, g, a, b, n, so, sn, u, i);
    }
    NoParallelKept(h, c, h', a, b, n);
    EdgesFrom(h', c');
  }

  lemma JoinedParts(h: Heap, c: Cert, h': Heap, f: Nodes, g: Nodes, a: nat, b: nat, n: nat, so: nat, sn: nat)
    requires Joined(h, c, h', f, g, a, b, n, so, sn)
    ensures Shape(h, c) && Sized(h, c) && Attached(h, h', a, b, n) && OnlyNext(h, b, n) && Whole(h, c, f) && sn in f
    ensures Spine(h, c, a) && Spine(h, c, b) && h[a].data.Tok? && h[b].data.Tok? && so != sn
    ensures !IsKind(h, a, End) && !IsKind(h, b, End)
  {
  }

  lemma MergedSized(h: Heap, c: Cert, h': Heap, f: Nodes, a: nat, n: nat, so: nat, sn: nat)
    requires Sized(h, c) && |h'| == |h| && a < |h| && n < |h|
    ensures Sized(h', Merged(h, c, f, a, n, so, sn))
  {
  }

  lemma EdgesFrom(h: Heap, c: Cert)
    requires Sized(h, c)
    requires forall u, i {:trigger EdgeGood(h, c, u, i)} | 0 <= u < |h| && 0 <= i < |h[u].to| :: EdgeGood(h, c, u, i)
    requires forall u, i, j {:trigger h[u].to[i], h[u].to[j]} | 0 <= u < |h| && 0 <= i < j < |h[u].to| :: h[u].to[i] != h[u].to[j]
    ensures Edges(h, c)
  {
    forall u, i | 0 <= u < |h| && 0 <= i < |h[u].to|
      ensures var v := h[u].to[i];
              && v < |h| && c.root[v] == c.root[u] && !IsKind(h, v, Start)
              && (v != LoopStop(h, u) ==> Down(h, c, u, i, v))
    {
      assert EdgeGood(h, c, u, i);
    }
  }

  lemma NoParallelKept(h: Heap, c: Cert, h': Heap, a: nat, b: nat, n: nat)
    requires Shape(h, c) && Attached(h, h', a, b, n) && n !in h[a].to
    ensures forall u, i, j {:trigger h'[u].to[i], h'[u].to[j]} | 0 <= u < |h'| && 0 <= i < j < |h'[u].to| ::
              h'[u].to[i] != h'[u].to[j]
  {
    forall u, i, j | 0 <= u < |h'| && 0 <= i < j < |h'[u].to|
      ensures h'[u].to[i] != h'[u].to[j]
    {
      if u == a {
        assert h'[a].to[i] == h[a].to[i];
      }
    }
  }

  lemma ParentsKept(h: Heap, c: Cert, h': Heap, f: Nodes, g: Nodes, a: nat, b: nat, n: nat, so: nat, sn: nat)
    requires Joined(h, c, h', f, g, a, b, n, so, sn)
    ensures n < |h| && a < |h| && Sized(h', Merged(h, c, f, a, n, so, sn)) && Parents(h', Merged(h, c, f, a, n, so, sn))
  {
    hide Joined, Merged, Shape, HasParent, Sized, Spine;
    BelowMatch(h, c, h', f, g, a, b, n, so, sn);
    JoinedParts(h, c, h', f, g, a, b, n, so, sn);
    MergedSized(h, c, h', f, a, n, so, sn);
    SpineEdge(h, c, b, n);
    var c' := Merged(h, c, f, a, n, so, sn);
    forall v: nat | v < |h|
      ensures HasParent(h', c', v)
    {
      ParentKept(h, c, h', f, a, b, n, so, sn, v);
    }
  }

  lemma ParentKept(h: Heap, c: Cert, h': Heap, f: Nodes, a: nat, b: nat, n: nat, so: nat, sn: nat, v: nat)
    requires Shape(h, c) && Attached(h, h', a, b, n) && OnlyNext(h, b, n) && v < |h| && n < |h| && sn in f
    requires c.root[n] == sn && c.root[a] == so && so != sn && !IsKind(h, n, Start)
    ensures Sized(h', Merged(h, c, f, a, n, so, sn)) && HasParent(h', Merged(h, c, f, a, n, so, sn), v)
  {
    SameKinds(h, h');
    assert HasParent(h, c, v);
    if v == n {
      if IsKind(h, a, Join) {
        PairFacts(h, c, a);
      }
    } else if !IsKind(h, v, Start) {
      assert Way(h, c.par[v], v);
    }
  }

  lemma PairsKept(h: Heap, c: Cert, h': Heap, f: Nodes, a: nat, n: nat, so: nat, sn: nat)
    requires Shape(h, c) && |h'| == |h| && SameLabels(h, h') && a < |h| && n < |h| && Whole(h, c, f)
    ensures Sized(h', Merged(h, c, f, a, n, so, sn)) && Pairs(h', Merged(h, c, f, a, n, so, sn))
  {
    var c' := Merged(h, c, f, a, n, so, sn);
    SameKinds(h, h');
    forall u: nat | u < |h| && IsKind(h', u, Fork)
      ensures var j := Pair(h', u);
              && Type(h', j).Join? && Pair(h', j) == u
              && c'.ctx[j] == c'.ctx[u] && c'.rank[j] < c'.rank[u] && c'.root[j] == c'.root[u]
    {
      PairFacts(h, c, u);
      assert u in f <==> Pair(h, u) in f;
    }
    forall u: nat | u < |h| && IsKind(h', u, Join)
      ensures Type(h', Pair(h', u)).Fork? && Pair(h', Pair(h', u)) == u && LoopStop(h', u) == Pair(h', u)
    {
      PairFacts(h, c, u);
    }
  }

  lemma NestedKept(h: Heap, c: Cert, h': Heap, f: Nodes, a: nat, n: nat, so: nat, sn: nat)
    requires Shape(h, c) && |h'| == |h| && SameLabels(h, h') && a < |h| && n < |h| && Whole(h, c, f)
    ensures Sized(h', Merged(h, c, f, a, n, so, sn)) && Nested(h', Merged(h, c, f, a, n, so, sn))
  {
    var c' := Merged(h, c, f, a, n, so, sn);
    SameKinds(h, h');
    forall u, k | 0 <= u < |h| && 0 <= k < |c.ctx[u]|
      ensures var x := c.ctx[u][k];
              && IsKind(h', x, Fork) && c'.ctx[x] == c'.ctx[u][..k] && c'.rank[u] < c'.rank[x] && c'.root[x] == c'.root[u]
              && Pair(h', x) < |h'| && c'.rank[Pair(h', x)] < c'.rank[u]
    {
      var x := c.ctx[u][k];
      PairFacts(h, c, x);
      assert u in f <==> c.ctx[u][0] in f;
      if k > 0 {
        assert c.ctx[x][0] == c.ctx[u][0];
      }
    }
  }

  /** The merged heap has the shape again. */
  lemma ShapeKept(h: Heap, c: Cert, h': Heap, f: Nodes, g: Nodes, a: nat, b: nat, n: nat, so: nat, sn: nat)
    requires Joined(h, c, h', f, g, a, b, n, so, sn)
    ensures n < |h| && a < |h| && Sized(h, c) && Shape(h', Merged(h, c, f, a, n, so, sn))
  {
    hide Joined, Edges, Parents, Pairs, Nested, Leaves, Merged;
    JoinedParts(h, c, h', f, g, a, b, n, so, sn);
    EdgesKept(h, c, h', f, g, a, b, n, so, sn);
    ParentsKept(h, c, h', f, g, a, b, n, so, sn);
    PairsKept(h, c, h', f, a, n, so, sn);
    NestedKept(h, c, h', f, a, n, so, sn);
    LeavesKept(h, c, h', f, a, b, n, so, sn);
  }

  lemma LeavesKept(h: Heap, c: Cert, h': Heap, f: Nodes, a: nat, b: nat, n: nat, so: nat, sn: nat)
    requires Shape(h, c) && Attached(h, h', a, b, n) && n < |h| && h[a].data.Tok? && h[b].data.Tok?
    requires !IsKind(h, a, End) && !IsKind(h, b, End) && n in h[b].to
    ensures Sized(h', Merged(h, c, f, a, n, so, sn)) && Leaves(h', Merged(h, c, f, a, n, so, sn))
  {
    SameKinds(h, h');
    var j :| 0 <= j < |h[b].to| && h[b].to[j] == n;
    forall u, i | 0 <= u < |h'| && 0 <= i < |h'[u].to| && h'[u].to[i] < |h'|
      ensures h'[h'[u].to[i]].data.Cmd? <==> IsKind(h', u, End)
    {
      if u == b {
        assert h'[b].to[i] in h'[b].to;
        var k :| 0 <= k < |h[b].to| && h[b].to[k] == h'[b].to[i];
      } else if u != a || i < |h[a].to| {
        assert h'[u].to[i] == h[u].to[i];
      }
    }
  }

  // ---- what matching needs beyond the shape ----

  predicate Silent(h: Heap, u: nat) {
    u < |h| && h[u].data.Tok? && IsSpecial(h[u].data.token.kind) && !h[u].data.token.kind.End?
  }

  /** `rk` goes down along edges between nodes that take no word. */
  ghost predicate Quiet(h: Heap, rk: seq<nat>) {
    && |rk| == |h|
    && forall u, i {:trigger h[u].to[i]} | 0 <= u < |h| && 0 <= i < |h[u].to| && Silent(h, u) && Silent(h, h[u].to[i]) ::
         rk[h[u].to[i]] < rk[u]
  }

  /** No cycle passes only through nodes that take no word. */
  ghost predicate Tame(h: Heap) {
    exists rk :: Quiet(h, rk)
  }

  ghost function Top(rk: seq<nat>): (t: nat)
    ensures forall u | 0 <= u < |rk| :: rk[u] <= t
  {
    if rk == [] then 0
    else
      var t := Top(rk[..|rk| - 1]);
      assert forall u | 0 <= u < |rk| - 1 :: rk[..|rk| - 1][u] == rk[u];
      if t < rk[|rk| - 1] then rk[|rk| - 1] else t
  }

  /** Merging makes no such cycle. */
  lemma TameKept(h: Heap, c: Cert, h': Heap, f: Nodes, g: Nodes, a: nat, b: nat, n: nat, so: nat, sn: nat)
    requires Joined(h, c, h', f, g, a, b, n, so, sn) && Tame(h)
    ensures Tame(h')
  {
    hide Joined, Quiet;
    BelowMatch(h, c, h', f, g, a, b, n, so, sn);
    JoinedParts(h, c, h', f, g, a, b, n, so, sn);
    var rk :| Quiet(h, rk);
    QuietKept(h, c, h', a, b, n, so, sn, rk);
  }

  lemma QuietKept(h: Heap, c: Cert, h': Heap, a: nat, b: nat, n: nat, so: nat, sn: nat, rk: seq<nat>)
    requires Shape(h, c) && Attached(h, h', a, b, n) && n < |h| && c.root[n] == sn && c.root[a] == so && so != sn && Quiet(h, rk)
    ensures Tame(h')
  {
    var m := Top(rk);
    var rk' := seq(|h|, u requires 0 <= u < |h| => if c.root[u] == so then rk[u] + m + 1 else rk[u]);
    hide Shape, Attached;
    AttachedSame(h, h', a, b, n);
    forall u, i | 0 <= u < |h'| && 0 <= i < |h'[u].to| && Silent(h', u) && Silent(h', h'[u].to[i])
      ensures rk'[h'[u].to[i]] < rk'[u]
    {
      var v := h'[u].to[i];
      AttachedWay(h, h', a, b, n, u, i);
      if Way(h, u, v) {
        SameRoot(h, c, u, v);
        var k :| 0 <= k < |h[u].to| && h[u].to[k] == v;
      }
    }
    assert Quiet(h', rk');
  }

  lemma AttachedSame(h: Heap, h': Heap, a: nat, b: nat, n: nat)
    requires Attached(h, h', a, b, n)
    ensures |h'| == |h| && a < |h| && forall u | 0 <= u < |h| :: h'[u].data == h[u].data
  {
  }

  lemma AttachedWay(h: Heap, h': Heap, a: nat, b: nat, n: nat, u: nat, i: nat)
    requires Attached(h, h', a, b, n) && u < |h'| && i < |h'[u].to|
    ensures Way(h, u, h'[u].to[i]) || (u == a && h'[u].to[i] == n)
  {
    assert h'[u].to[i] in h'[u].to;
  }

  /** No edge joins what the new graph keeps to anything else. */
  ghost predicate Severed(h: Heap, f: Nodes) {
    forall u, v {:trigger Way(h, u, v)} | Way(h, u, v) :: u in f <==> v in f
  }

  lemma SeveredNow(h: Heap, c: Cert, h': Heap, f: Nodes, g: Nodes, a: nat, b: nat, n: nat, so: nat, sn: nat)
    requires Joined(h, c, h', f, g, a, b, n, so, sn)
    ensures Severed(h', f)
  {
    BelowMatch(h, c, h', f, g, a, b, n, so, sn);
    NotImages(h, c, f, g, so, sn);
    forall u: nat, v: nat | Way(h', u, v)
      ensures u in f <==> v in f
    {
      AttachedWays(h, h', a, b, n, u, v);
      if !(u == a && v == n) {
        SameRoot(h, c, u, v);
        MovesTogether(h, c, f, b, n, sn, u, v);
      }
    }
  }
}
