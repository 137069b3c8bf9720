/** What merging hands over from the new graph, and the node lists it updates. */
module MergeReach {
  import opened Wrappers
  import opened Tokens
  import opened CommandTree
  import opened MergeShape
  import opened MergeEqual
  import opened MergeFork
  import opened MergeMatch
  import opened MergePaths
  import opened MergeKeeps

  /** A node without the parts of its token that merging updates in place. */
  function Core(n: Node): Node {
    if n.data.Tok? then n.(data := Tok(n.data.token.(attr := Normal, refcnt := 0))) else n
  }

  function Cores(h: Heap): (r: Heap)
    ensures |r| == |h| && forall u | 0 <= u < |h| :: r[u] == Core(h[u])
  {
    seq(|h|, u requires 0 <= u < |h| => Core(h[u]))
  }

  /** The comparison does not look at those parts. */
  lemma LinksSame(h: Heap)
    ensures forall u, k {:trigger IsKind(Cores(h), u, k)} :: IsKind(Cores(h), u, k) <==> IsKind(h, u, k)
    ensures forall u {:trigger Pair(Cores(h), u)} :: Pair(Cores(h), u) == Pair(h, u)
    ensures forall u {:trigger LoopStop(Cores(h), u)} | 0 <= u < |h| :: LoopStop(Cores(h), u) == LoopStop(h, u)
  {
  }

  /** Edges that are not loops lead down in rank. */
  ghost predicate Falling(h: Heap, c: Cert) {
    && |c.rank| == |h|
    && forall u, i {:trigger h[u].to[i]} | 0 <= u < |h| && 0 <= i < |h[u].to| ::
         h[u].to[i] < |h| && (h[u].to[i] != LoopStop(h, u) ==> c.rank[h[u].to[i]] < c.rank[u])
  }

  /** The nodes reached from `u` along edges that are neither loops nor lead to
      `stop`. */
  ghost function Reach(h: Heap, c: Cert, u: nat, stop: nat): set<nat>
    requires Falling(h, c) && u < |h|
    decreases c.rank[u]
  {
    {u} + ReachFrom(h, c, u, stop, 0)
  }

  ghost function ReachFrom(h: Heap, c: Cert, u: nat, stop: nat, i: nat): set<nat>
    requires Falling(h, c) && u < |h| && i <= |h[u].to|
    decreases c.rank[u], |h[u].to| - i
  {
    if i == |h[u].to| then {}
    else (if Followed(h, u, stop, i) then Reach(h, c, h[u].to[i], stop) else {}) + ReachFrom(h, c, u, stop, i + 1)
  }

  predicate Followed(h: Heap, u: nat, stop: nat, i: nat)
    requires u < |h| && i < |h[u].to|
  {
    h[u].to[i] != LoopStop(h, u) && h[u].to[i] != stop
  }

  function Trim(s: seq<Option<nat>>): (r: seq<Option<nat>>)
    ensures r <= s && (forall k | |r| <= k < |s| :: s[k].None?) && (|r| > 0 ==> r[|r| - 1].Some?)
  {
    if |s| > 0 && s[|s| - 1].None? then Trim(s[..|s| - 1]) else s
  }

  /** Empties a slot; empty slots at the end are given up. */
  function Unset(s: seq<Option<nat>>, i: nat): seq<Option<nat>>
    requires i < |s|
  {
    if i + 1 == |s| then Trim(s[..i]) else s[i := None]
  }

  ghost function Slots(s: seq<Option<nat>>): set<nat> {
    set k | 0 <= k < |s| && s[k].Some? :: s[k].value
  }

  ghost predicate Once(s: seq<Option<nat>>) {
    forall i, j | 0 <= i < j < |s| && s[i].Some? :: s[i] != s[j]
  }

  lemma UnsetExact(s: seq<Option<nat>>, i: nat)
    requires i < |s| && s[i].Some? && Once(s)
    ensures Slots(Unset(s, i)) == Slots(s) - {s[i].value} && Once(Unset(s, i))
  {
    var r := Unset(s, i);
    forall x | x in Slots(s) && x != s[i].value
      ensures x in Slots(r)
    {
      var k :| 0 <= k < |s| && s[k] == Some(x);
      assert k < |r| && r[k] == Some(x);
    }
    forall x | x in Slots(r)
      ensures x in Slots(s) && x != s[i].value
    {
      var k :| 0 <= k < |r| && r[k] == Some(x);
      assert k < |s| && s[k] == Some(x) && k != i;
    }
  }

  // ---- what is handed over ----

  /** The nodes of the new graph that the match does not map. */
  ghost function Unmatched(h: Heap, c: Cert, f: Nodes, sn: nat): set<nat> {
    set u | 0 <= u < |h| && u < |c.root| && c.root[u] == sn && u !in f
  }

  /** `h'` is `h` without the edge from `b` to `n`. */
  ghost predicate Cut(h: Heap, h': Heap, b: nat, n: nat) {
    && |h'| == |h| && b < |h| && (forall u | 0 <= u < |h| && u != b :: h'[u] == h[u])
    && h'[b].data == h[b].data && (forall v :: v in h'[b].to <==> v in h[b].to && v != n)
  }

  lemma CutFalling(h: Heap, c: Cert, h': Heap, b: nat, n: nat)
    requires Shape(h, c) && Cut(h, h', b, n)
    ensures Falling(h', c)
  {
    assert |h'| == |h| && |c.rank| == |h|;
    hide Shape, Cut;
    forall u, i | 0 <= u < |h'| && 0 <= i < |h'[u].to|
      ensures h'[u].to[i] < |h'| && (h'[u].to[i] != LoopStop(h', u) ==> c.rank[h'[u].to[i]] < c.rank[u])
    {
      CutWay(h, h', b, n, u, h'[u].to[i]);
      WayFalls(h, c, u, h'[u].to[i]);
    }
  }

  lemma CutWay(h: Heap, h': Heap, b: nat, n: nat, u: nat, v: nat)
    requires Cut(h, h', b, n) && u < |h| && v in h'[u].to
    ensures Way(h, u, v) && LoopStop(h', u) == LoopStop(h, u)
  {
  }

  lemma WayFalls(h: Heap, c: Cert, u: nat, v: nat)
    requires Shape(h, c) && Way(h, u, v)
    ensures v < |h| && (v != LoopStop(h, u) ==> c.rank[v] < c.rank[u])
  {
    var i :| 0 <= i < |h[u].to| && h[u].to[i] == v;
    assert v != LoopStop(h, u) ==> Down(h, c, u, i, v);
  }

  lemma {:induction false} ReachChild(h: Heap, c: Cert, u: nat, stop: nat, i: nat, k: nat)
    requires Falling(h, c) && u < |h| && i <= k < |h[u].to| && Followed(h, u, stop, k)
    ensures Reach(h, c, h[u].to[k], stop) <= ReachFrom(h, c, u, stop, i)
    decreases k - i
  {
    if i < k {
      ReachChild(h, c, u, stop, i + 1, k);
    }
  }

  lemma {:induction false} ReachStep(h: Heap, c: Cert, s: nat, stop: nat, u: nat, k: nat)
    requires Falling(h, c) && s < |h| && u in Reach(h, c, s, stop) && u < |h| && k < |h[u].to| && Followed(h, u, stop, k)
    ensures h[u].to[k] in Reach(h, c, s, stop)
    decreases c.rank[s], |h[s].to| + 1
  {
    if u == s {
      ReachChild(h, c, s, stop, 0, k);
    } else {
      ReachStepFrom(h, c, s, stop, 0, u, k);
    }
  }

  lemma {:induction false} ReachStepFrom(h: Heap, c: Cert, s: nat, stop: nat, i: nat, u: nat, k: nat)
    requires Falling(h, c) && s < |h| && i <= |h[s].to| && u in ReachFrom(h, c, s, stop, i)
    requires u < |h| && k < |h[u].to| && Followed(h, u, stop, k)
    ensures h[u].to[k] in ReachFrom(h, c, s, stop, i)
    decreases c.rank[s], |h[s].to| - i
  {
    if Followed(h, s, stop, i) && u in Reach(h, c, h[s].to[i], stop) {
      ReachStep(h, c, h[s].to[i], stop, u, k);
    } else {
      ReachStepFrom(h, c, s, stop, i + 1, u, k);
    }
  }

  ghost predicate Closed(h: Heap, stop: nat, m: set<nat>) {
    forall u, i {:trigger Followed(h, u, stop, i)} | u in m && 0 <= u < |h| && 0 <= i < |h[u].to| && Followed(h, u, stop, i) ::
      h[u].to[i] in m
  }

  /** What cannot be left along edges contains all that is reached. */
  lemma {:induction false} ReachStays(h: Heap, c: Cert, s: nat, stop: nat, m: set<nat>)
    requires Falling(h, c) && s < |h| && s in m && Closed(h, stop, m)
    ensures Reach(h, c, s, stop) <= m
    decreases c.rank[s], |h[s].to| + 1
  {
    ReachStaysFrom(h, c, s, stop, 0, m);
  }

  lemma {:induction false} ReachStaysFrom(h: Heap, c: Cert, s: nat, stop: nat, i: nat, m: set<nat>)
    requires Falling(h, c) && s < |h| && s in m && i <= |h[s].to| && Closed(h, stop, m)
    ensures ReachFrom(h, c, s, stop, i) <= m
    decreases c.rank[s], |h[s].to| - i
  {
    if i < |h[s].to| {
      if Followed(h, s, stop, i) {
        ReachStays(h, c, h[s].to[i], stop, m);
      }
      ReachStaysFrom(h, c, s, stop, i + 1, m);
    }
  }

  /** Every unmatched node is reached from `n`: go up to its predecessors until the
      match begins, which is only at `n`. */
  lemma {:induction false} UnmatchedReached(h: Heap, c: Cert, h': Heap, f: Nodes, b: nat, n: nat, sn: nat, u: nat)
    requires Shape(h, c) && UpClosed(h, f) && Forward(h, f, b) && OnlyNext(h, b, n) && b in f && sn in f
    requires Cut(h, h', b, n) && Falling(h', c) && n < |h| && u in Unmatched(h, c, f, sn)
    ensures u in Reach(h', c, n, |h|)
    decreases c.top - c.rank[u]
  {
    assert Sized(h, c);
    hide Shape, UpClosed, Forward, OnlyNext, Falling, Cut;
    if u != n {
      UnmatchedParent(h, c, f, b, n, sn, u);
      var p, i := c.par[u], c.pos[u];
      UnmatchedReached(h, c, h', f, b, n, sn, p);
      CutStep(h, c, h', b, n, p, i);
    }
  }

  lemma CutStep(h: Heap, c: Cert, h': Heap, b: nat, n: nat, p: nat, i: nat)
    requires Cut(h, h', b, n) && Falling(h', c) && n < |h| && p < |h| && p != b && i < |h[p].to| && h[p].to[i] < |h|
    requires h[p].to[i] != LoopStop(h, p) && p in Reach(h', c, n, |h|)
    ensures h[p].to[i] in Reach(h', c, n, |h|)
  {
    ReachStep(h', c, n, |h|, p, i);
  }

  lemma UnmatchedParent(h: Heap, c: Cert, f: Nodes, b: nat, n: nat, sn: nat, u: nat)
    requires Shape(h, c) && UpClosed(h, f) && Forward(h, f, b) && OnlyNext(h, b, n) && b in f && sn in f
    requires u in Unmatched(h, c, f, sn) && u != n
    ensures var p, i := c.par[u], c.pos[u];
            && p in Unmatched(h, c, f, sn) && p != b && i < |h[p].to| && h[p].to[i] == u && u != LoopStop(h, p)
            && c.rank[u] < c.rank[p]
  {
    assert HasParent(h, c, u) && !IsKind(h, u, Start);
    var p, i := c.par[u], c.pos[u];
    assert h[p].to[i] == u && Way(h, p, u);
    assert Down(h, c, p, i, u);
    MovesTogether(h, c, f, b, n, sn, p, u);
    hide UpClosed, Forward, OnlyNext;
  }

  /** The subtree handed over is exactly what the match does not map. */
  lemma ReachUnmatched(h: Heap, c: Cert, h': Heap, f: Nodes, b: nat, n: nat, sn: nat)
    requires Shape(h, c) && UpClosed(h, f) && Forward(h, f, b) && OnlyNext(h, b, n) && b in f && sn in f && n !in f
    requires Cut(h, h', b, n) && n < |h| && c.root[n] == sn
    ensures Falling(h', c) && Reach(h', c, n, |h|) == Unmatched(h, c, f, sn)
  {
    CutFalling(h, c, h', b, n);
    assert |h'| == |h|;
    hide Shape, UpClosed, Forward, OnlyNext, Cut;
    var m := Unmatched(h, c, f, sn);
    forall u | u in m
      ensures u in Reach(h', c, n, |h|)
    {
      UnmatchedReached(h, c, h', f, b, n, sn, u);
    }
    forall u, i | u in m && 0 <= u < |h'| && 0 <= i < |h'[u].to|
      ensures h'[u].to[i] in m
    {
      UnmatchedStays(h, c, h', f, b, n, sn, u, h'[u].to[i]);
    }
    ReachStays(h', c, n, |h|, m);
  }

  lemma UnmatchedStays(h: Heap, c: Cert, h': Heap, f: Nodes, b: nat, n: nat, sn: nat, u: nat, v: nat)
    requires Shape(h, c) && UpClosed(h, f) && Forward(h, f, b) && OnlyNext(h, b, n) && b in f
    requires Cut(h, h', b, n) && u in Unmatched(h, c, f, sn) && v in h'[u].to
    ensures v in Unmatched(h, c, f, sn)
  {
    CutWay(h, h', b, n, u, v);
    MovesTogether(h, c, f, b, n, sn, u, v);
    SameRoot(h, c, u, v);
    hide Shape, UpClosed, Forward, OnlyNext, Cut;
  }

  lemma ShapeFalling(h: Heap, c: Cert)
    requires Shape(h, c)
    ensures Falling(h, c)
  {
    forall u, i | 0 <= u < |h| && 0 <= i < |h[u].to|
      ensures h[u].to[i] < |h| && (h[u].to[i] != LoopStop(h, u) ==> c.rank[h[u].to[i]] < c.rank[u])
    {
      WayFalls(h, c, u, h[u].to[i]);
    }
  }

  /** From a FORK without passing its JOIN, its region is reached but for the JOIN. */
  lemma ReachRegion(h: Heap, c: Cert, f: nat)
    requires Outermost(h, c, f)
    ensures Falling(h, c) && Reach(h, c, f, Pair(h, f)) == set u | 0 <= u < |h| && Region(h, c, f, u) && u != Pair(h, f)
  {
    ShapeFalling(h, c);
    PairFacts(h, c, f);
    var m := set u | 0 <= u < |h| && Region(h, c, f, u) && u != Pair(h, f);
    forall u, i | u in m && 0 <= u < |h| && 0 <= i < |h[u].to| && Followed(h, u, Pair(h, f), i)
      ensures h[u].to[i] in m
    {
      ChildRegion(h, c, f, u, i);
    }
    ReachStays(h, c, f, Pair(h, f), m);
    forall u | u in m
      ensures u in Reach(h, c, f, Pair(h, f))
    {
      RegionReached(h, c, f, u);
    }
  }

  lemma {:induction false} RegionReached(h: Heap, c: Cert, f: nat, u: nat)
    requires Outermost(h, c, f) && Falling(h, c) && Region(h, c, f, u) && u != Pair(h, f)
    ensures u in Reach(h, c, f, Pair(h, f))
    decreases c.top - c.rank[u]
  {
    if u != f {
      RegionUp(h, c, f, u);
      assert HasParent(h, c, u) && !IsKind(h, u, Start);
      RegionReached(h, c, f, c.par[u]);
      ReachStep(h, c, f, Pair(h, f), c.par[u], c.pos[u]);
    }
  }
}
