/** The part of a new graph that an old graph already has: a one-to-one map that is
    closed towards the start nodes, extended node by node as the merge goes down. */
module MergeMatch {
  import opened Wrappers
  import opened Tokens
  import opened CommandTree
  import opened MergeShape
  import opened MergeEqual
  import opened MergeFork

  type Nodes = map<nat, nat>

  function Single(v: nat, u: nat): Nodes {
    map[v := u]
  }

  /** There is an edge from `p` to `v`. */
  ghost predicate Way(h: Heap, p: nat, v: nat) {
    p < |h| && v in h[p].to
  }

  /** Every way into a mapped node is mapped to a way into its image. */
  ghost predicate UpClosed(h: Heap, f: Nodes) {
    forall v, p {:trigger v in f, Way(h, p, v)} | v in f && Way(h, p, v) :: p in f && Way(h, f[p], f[v])
  }

  ghost predicate Inverse(f: Nodes, g: Nodes) {
    (forall v | v in f :: f[v] in g && g[f[v]] == v) && (forall u | u in g :: g[u] in f && f[g[u]] == u)
  }

  /** The pairs in `e` add nothing but themselves to the ways in. */
  ghost predicate Entered(h: Heap, f: Nodes, e: Nodes) {
    forall v, p {:trigger v in e, Way(h, p, v)} | v in e && Way(h, p, v) ::
      (p in e && Way(h, e[p], e[v])) || (p in f && p !in e && Way(h, f[p], e[v]))
  }

  lemma ExtendUp(h: Heap, f: Nodes, e: Nodes)
    requires UpClosed(h, f) && Entered(h, f, e) && f.Keys !! e.Keys
    ensures UpClosed(h, f + e)
  {
  }

  lemma ExtendInverse(f: Nodes, g: Nodes, e: Nodes, d: Nodes)
    requires Inverse(f, g) && Inverse(e, d) && f.Keys !! e.Keys && g.Keys !! d.Keys
    ensures Inverse(f + e, g + d)
  {
  }

  /** The ways into a node outside any FORK: from its parent, from itself, or back
      from its JOIN. */
  lemma WaysIn(h: Heap, c: Cert, v: nat, p: nat)
    requires Shape(h, c) && v < |h| && p < |h| && v in h[p].to && !IsKind(h, v, Join)
    ensures p == c.par[v] || p == v || (IsKind(h, v, Fork) && p == Pair(h, v))
  {
    var i :| 0 <= i < |h[p].to| && h[p].to[i] == v;
    if v != LoopStop(h, p) {
      assert Down(h, c, p, i, v);
    }
  }

  /** The ways into a region lead to its FORK only. */
  lemma RegionPred(h: Heap, c: Cert, f: nat, v: nat, p: nat, i: nat)
    requires Outermost(h, c, f) && Region(h, c, f, v) && v != f && p < |h| && i < |h[p].to| && h[p].to[i] == v
    ensures Region(h, c, f, p) && p != Pair(h, f)
  {
    PairFacts(h, c, f);
    if v == LoopStop(h, p) {
      if IsKind(h, p, Join) {
        PairFacts(h, c, p);
      } else {
        assert v == p;
      }
    } else {
      assert Down(h, c, p, i, v);
      assert Inner(h, c, p)[0] == f;
    }
  }

  // ---- the two maps of a pair of equal FORKs ----

  lemma HasPreimage(h: Heap, c: Cert, fa: nat, fb: nat, u: nat)
    requires Twins(h, c, fa, fb) && Region(h, c, fa, u)
    ensures exists v :: 0 <= v < |h| && Region(h, c, fb, v) && Image(h, c, fa, fb, v) == u
  {
    var v := ImageOnto(h, c, fa, fb, u);
  }

  ghost function Preimage(h: Heap, c: Cert, fa: nat, fb: nat, u: nat): (v: nat)
    requires Twins(h, c, fa, fb) && Region(h, c, fa, u)
    ensures Region(h, c, fb, v) && Image(h, c, fa, fb, v) == u
  {
    HasPreimage(h, c, fa, fb, u);
    var v: nat :| v < |h| && Region(h, c, fb, v) && Image(h, c, fa, fb, v) == u;
    v
  }

  ghost function RegionMap(h: Heap, c: Cert, fa: nat, fb: nat): Nodes
    requires Twins(h, c, fa, fb)
  {
    map v: nat | v < |h| && Region(h, c, fb, v) :: Image(h, c, fa, fb, v)
  }

  ghost function RegionBack(h: Heap, c: Cert, fa: nat, fb: nat): Nodes
    requires Twins(h, c, fa, fb)
  {
    map u: nat | u < |h| && Region(h, c, fa, u) :: Preimage(h, c, fa, fb, u)
  }

  lemma RegionInverse(h: Heap, c: Cert, fa: nat, fb: nat)
    requires Twins(h, c, fa, fb)
    ensures Inverse(RegionMap(h, c, fa, fb), RegionBack(h, c, fa, fb))
  {
    forall v: nat | v < |h| && Region(h, c, fb, v)
      ensures Region(h, c, fa, Image(h, c, fa, fb, v)) && Preimage(h, c, fa, fb, Image(h, c, fa, fb, v)) == v
    {
      ImageRegion(h, c, fa, fb, v);
      ImageInjective(h, c, fa, fb, v, Preimage(h, c, fa, fb, Image(h, c, fa, fb, v)));
    }
  }

  /** Ways within a region correspond. */
  lemma RegionWays(h: Heap, c: Cert, fa: nat, fb: nat, v: nat, p: nat)
    requires Twins(h, c, fa, fb) && Region(h, c, fb, v) && v != fb && p < |h| && v in h[p].to
    ensures Region(h, c, fb, p) && Image(h, c, fa, fb, p) < |h| && Image(h, c, fa, fb, v) in h[Image(h, c, fa, fb, p)].to
  {
    var i: nat :| i < |h[p].to| && h[p].to[i] == v;
    RegionPred(h, c, fb, v, p, i);
    EdgesMatch(h, c, fa, fb, p, i);
  }

  lemma RegionWaysBack(h: Heap, c: Cert, fa: nat, fb: nat, u: nat, p: nat)
    requires Twins(h, c, fa, fb) && Region(h, c, fa, u) && u != fa && p < |h| && u in h[p].to
    ensures Region(h, c, fa, p) && Preimage(h, c, fa, fb, u) in h[Preimage(h, c, fa, fb, p)].to
  {
    var i: nat :| i < |h[p].to| && h[p].to[i] == u;
    RegionPred(h, c, fa, u, p, i);
    var q := Preimage(h, c, fa, fb, p);
    ImageRelated(h, c, fa, fb, q);
    EdgesMatch(h, c, fa, fb, q, i);
    ImageInjective(h, c, fa, fb, h[q].to[i], Preimage(h, c, fa, fb, u));
  }

  /** Ways back to the FORK itself correspond. */
  lemma ForkWays(h: Heap, c: Cert, fa: nat, fb: nat)
    requires Twins(h, c, fa, fb)
    ensures Image(h, c, fa, fb, fb) == fa && Region(h, c, fb, Pair(h, fb)) && Image(h, c, fa, fb, Pair(h, fb)) == Pair(h, fa)
    ensures Region(h, c, fa, Pair(h, fa)) && Preimage(h, c, fa, fb, fa) == fb
    ensures Preimage(h, c, fa, fb, Pair(h, fa)) == Pair(h, fb)
    ensures fb in h[fb].to <==> fa in h[fa].to
    ensures fb in h[Pair(h, fb)].to <==> fa in h[Pair(h, fa)].to
  {
    ImageInjective(h, c, fa, fb, fb, Preimage(h, c, fa, fb, fa));
    ImageInjective(h, c, fa, fb, Pair(h, fb), Preimage(h, c, fa, fb, Pair(h, fa)));
  }

  lemma ForkEntered(h: Heap, c: Cert, f: Nodes, fa: nat, fb: nat, a: nat, b: nat)
    requires Twins(h, c, fa, fb) && b in f && f[b] == a && a < |h| && b < |h|
    requires c.par[fb] == b && !Region(h, c, fb, b) && fa in h[a].to
    ensures Entered(h, f, RegionMap(h, c, fa, fb))
  {
    var e := RegionMap(h, c, fa, fb);
    forall v, p | v in e && Way(h, p, v)
      ensures (p in e && Way(h, e[p], e[v])) || (p in f && p !in e && Way(h, f[p], e[v]))
    {
      if v == fb {
        ForkWayIn(h, c, fa, fb, p);
      } else {
        RegionWays(h, c, fa, fb, v, p);
      }
    }
  }

  lemma ForkWayIn(h: Heap, c: Cert, fa: nat, fb: nat, p: nat)
    requires Twins(h, c, fa, fb) && p < |h| && fb in h[p].to
    ensures Image(h, c, fa, fb, fb) == fa
    ensures p != c.par[fb] ==> Region(h, c, fb, p) && Image(h, c, fa, fb, p) < |h| && fa in h[Image(h, c, fa, fb, p)].to
  {
    WaysIn(h, c, fb, p);
    ForkWays(h, c, fa, fb);
  }

  lemma ForkEnteredBack(h: Heap, c: Cert, g: Nodes, fa: nat, fb: nat, a: nat, b: nat)
    requires Twins(h, c, fa, fb) && a in g && g[a] == b && a < |h| && b < |h|
    requires c.par[fa] == a && !Region(h, c, fa, a) && fb in h[b].to
    ensures Entered(h, g, RegionBack(h, c, fa, fb))
  {
    var d := RegionBack(h, c, fa, fb);
    forall u, p | u in d && Way(h, p, u)
      ensures (p in d && Way(h, d[p], d[u])) || (p in g && p !in d && Way(h, g[p], d[u]))
    {
      if u == fa {
        WaysIn(h, c, u, p);
        ForkWays(h, c, fa, fb);
      } else {
        RegionWaysBack(h, c, fa, fb, u, p);
      }
    }
  }

  lemma PlainEntered(h: Heap, c: Cert, f: Nodes, x: nat, w: nat, a: nat, b: nat)
    requires Shape(h, c) && x < |h| && w < |h| && a < |h| && b in f && f[b] == a && b != w
    requires !IsKind(h, w, Join) && !IsKind(h, w, Fork) && c.par[w] == b && x in h[a].to
    requires w in h[w].to <==> x in h[x].to
    ensures Entered(h, f, Single(w, x))
  {
    var e: Nodes := Single(w, x);
    assert Way(h, a, x) && (w in h[w].to ==> Way(h, x, x));
    forall v, p | v in e && Way(h, p, v)
      ensures (p in e && Way(h, e[p], e[v])) || (p in f && p !in e && Way(h, f[p], e[v]))
    {
      WaysIn(h, c, w, p);
    }
  }

  // ---- the match as the merge goes down ----

  /** A node of the main line: outside every FORK, and not a FORK. */
  ghost predicate Spine(h: Heap, c: Cert, u: nat) {
    u < |h| && u < |c.ctx| && c.ctx[u] == [] && !IsKind(h, u, Fork)
  }

  ghost predicate Labelled(h: Heap, c: Cert, f: Nodes, so: nat, sn: nat)
    requires Sized(h, c)
  {
    forall v | v in f ::
      && v < |h| && f[v] < |h| && c.root[v] == sn && c.root[f[v]] == so
      && h[v].data.Tok? && h[f[v]].data.Tok? && SameLabel(h[f[v]].data.token, h[v].data.token)
  }

  ghost predicate Ranked(h: Heap, c: Cert, f: Nodes, a: nat, b: nat)
    requires Sized(h, c) && a < |h| && b < |h|
  {
    forall v | v in f && v < |h| && f[v] < |h| :: c.rank[v] >= c.rank[b] && c.rank[f[v]] >= c.rank[a]
  }

  /** All successors of mapped nodes are mapped, but for those of `b`. */
  ghost predicate Forward(h: Heap, f: Nodes, b: nat) {
    && (forall v, w {:trigger v in f, Way(h, v, w)} | v in f && v != b && Way(h, v, w) :: w in f)
    && b < |h| && LoopStop(h, b) in f
  }

  /** FORK, JOIN and what lies between are mapped all or none. */
  ghost predicate Whole(h: Heap, c: Cert, f: Nodes)
    requires Sized(h, c)
  {
    && (forall v {:trigger c.ctx[v]} | 0 <= v < |h| && |c.ctx[v]| > 0 :: v in f <==> c.ctx[v][0] in f)
    && (forall v {:trigger IsKind(h, v, Fork)} | 0 <= v < |h| && IsKind(h, v, Fork) && c.ctx[v] == [] ::
          v in f <==> Pair(h, v) in f)
  }

  lemma WholeGrow(h: Heap, c: Cert, f: Nodes, e: Nodes)
    requires Sized(h, c) && Whole(h, c, f) && Whole(h, c, e)
    ensures Whole(h, c, f + e)
  {
  }

  /** `f` maps the new graph from its start `sn` down to `b` onto the old graph from
      its start `so` down to `a`; `g` is its inverse. */
  ghost predicate Matched(h: Heap, c: Cert, f: Nodes, g: Nodes, a: nat, b: nat, so: nat, sn: nat) {
    && Shape(h, c) && Inverse(f, g) && UpClosed(h, f) && UpClosed(h, g)
    && Labelled(h, c, f, so, sn) && sn in f && f[sn] == so && b in f && f[b] == a
    && Spine(h, c, a) && Spine(h, c, b) && Ranked(h, c, f, a, b) && Forward(h, f, b)
    && Whole(h, c, f)
  }

  /** The two nodes compare equal. */
  ghost predicate Same(h: Heap, c: Cert, x: nat, w: nat) {
    Shape(h, c) && x < |h| && w < |h| && NodesEqual(h, c, x, w)
  }

  /** `w` is the one successor of `b`, loops aside. */
  ghost predicate OnlyNext(h: Heap, b: nat, w: nat) {
    Way(h, b, w) && w != LoopStop(h, b) && forall v | Way(h, b, v) :: v == w || v == LoopStop(h, b)
  }

  /** An edge of the main line that is not a loop. */
  lemma SpineEdge(h: Heap, c: Cert, u: nat, v: nat)
    requires Shape(h, c) && Spine(h, c, u) && v in h[u].to && v != LoopStop(h, u)
    ensures v < |h| && c.rank[v] < c.rank[u] && c.ctx[v] == [] && c.par[v] == u && c.root[v] == c.root[u]
    ensures !IsKind(h, v, Join) && !IsKind(h, v, Start)
  {
    var i :| 0 <= i < |h[u].to| && h[u].to[i] == v;
    assert Down(h, c, u, i, v);
  }

  /** What is to be known of the pairs added below (`a`, `b`), reaching down to
      (`x`, `y`); `w` is the successor of `b` they start with. */
  ghost predicate Grows(h: Heap, c: Cert, f: Nodes, g: Nodes, e: Nodes, d: Nodes, x: nat, y: nat, w: nat, so: nat, sn: nat)
    requires Sized(h, c)
  {
    && Inverse(e, d) && Entered(h, f, e) && Entered(h, g, d) && Labelled(h, c, e, so, sn)
    && f.Keys !! e.Keys && g.Keys !! d.Keys
    && y in e && e[y] == x && w in e && Spine(h, c, x) && Spine(h, c, y) && Ranked(h, c, e, x, y) && Forward(h, e, y)
    && Whole(h, c, e)
  }

  lemma MatchedGrow(h: Heap, c: Cert, f: Nodes, g: Nodes, e: Nodes, d: Nodes,
                    a: nat, b: nat, x: nat, y: nat, w: nat, so: nat, sn: nat)
    requires Matched(h, c, f, g, a, b, so, sn) && OnlyNext(h, b, w)
    requires Grows(h, c, f, g, e, d, x, y, w, so, sn) && c.rank[x] <= c.rank[a] && c.rank[y] <= c.rank[b]
    ensures Matched(h, c, f + e, g + d, x, y, so, sn)
  {
    assert Sized(h, c) && a < |h| && b < |h| && x < |h| && y < |h|;
    hide Shape, UpClosed, Inverse, Entered, Forward, OnlyNext, Labelled, Ranked, Spine, Whole;
    WholeGrow(h, c, f, e);
    ExtendUp(h, f, e);
    ExtendUp(h, g, d);
    ExtendInverse(f, g, e, d);
    ForwardGrow(h, f, e, b, y, w);
    LabelledGrow(h, c, f, e, so, sn);
    RankedGrow(h, c, f, e, a, b, x, y);
  }

  lemma LabelledGrow(h: Heap, c: Cert, f: Nodes, e: Nodes, so: nat, sn: nat)
    requires Sized(h, c) && Labelled(h, c, f, so, sn) && Labelled(h, c, e, so, sn)
    ensures Labelled(h, c, f + e, so, sn)
  {
  }

  lemma RankedGrow(h: Heap, c: Cert, f: Nodes, e: Nodes, a: nat, b: nat, x: nat, y: nat)
    requires Sized(h, c) && a < |h| && b < |h| && x < |h| && y < |h| && c.rank[x] <= c.rank[a] && c.rank[y] <= c.rank[b]
    requires Ranked(h, c, f, a, b) && Ranked(h, c, e, x, y)
    ensures Ranked(h, c, f + e, x, y)
  {
  }

  lemma ForwardGrow(h: Heap, f: Nodes, e: Nodes, b: nat, y: nat, w: nat)
    requires Forward(h, f, b) && Forward(h, e, y) && OnlyNext(h, b, w) && w in e && f.Keys !! e.Keys && y in e
    ensures Forward(h, f + e, y)
  {
  }

  /** Nodes ranked below (`a`, `b`) are not mapped yet. */
  lemma NotYet(h: Heap, c: Cert, f: Nodes, g: Nodes, a: nat, b: nat, so: nat, sn: nat, e: set<nat>, d: set<nat>)
    requires Matched(h, c, f, g, a, b, so, sn)
    requires forall v | v in e :: v < |h| && c.rank[v] < c.rank[b]
    requires forall u | u in d :: u < |h| && c.rank[u] < c.rank[a]
    ensures f.Keys !! e && g.Keys !! d
  {
    hide Shape, UpClosed, Forward;
  }

  lemma MatchedPlain(h: Heap, c: Cert, f: Nodes, g: Nodes, a: nat, b: nat, so: nat, sn: nat, x: nat, w: nat)
    requires a < |h| && x != LoopStop(h, a) && !IsKind(h, w, Fork) && Way(h, a, x) && OnlyNext(h, b, w) && Same(h, c, x, w)
    requires Matched(h, c, f, g, a, b, so, sn)
    ensures Matched(h, c, f + Single(w, x), g + Single(x, w), x, w, so, sn)
  {
    hide UpClosed, Forward, OnlyNext, Inverse, Ranked, Labelled, Whole, Matched, Same, Edges, Parents, Pairs, Nested, Leaves;
    var e, d := Single(w, x), Single(x, w);
    MatchedFacts(h, c, f, g, a, b, so, sn);
    SameFacts(h, c, x, w, b);
    SpineEdge(h, c, a, x);
    SpineEdge(h, c, b, w);
    PlainEntered(h, c, f, x, w, a, b);
    PlainEntered(h, c, g, w, x, b, a);
    NotYet(h, c, f, g, a, b, so, sn, {w}, {x});
    PlainWhole(h, c, w, x);
    PlainGrows(h, c, f, g, x, w, so, sn);
    MatchedGrow(h, c, f, g, e, d, a, b, x, w, w, so, sn);
  }

  lemma MatchedFacts(h: Heap, c: Cert, f: Nodes, g: Nodes, a: nat, b: nat, so: nat, sn: nat)
    requires Matched(h, c, f, g, a, b, so, sn)
    ensures Shape(h, c) && Spine(h, c, a) && Spine(h, c, b) && b in f && f[b] == a && a in g && g[a] == b
    ensures c.root[b] == sn && c.root[a] == so
  {
  }

  lemma SameFacts(h: Heap, c: Cert, x: nat, w: nat, b: nat)
    requires Same(h, c, x, w) && OnlyNext(h, b, w)
    ensures x < |h| && w < |h| && LabelEqual(h, x, w) && (forall k :: IsKind(h, x, k) <==> IsKind(h, w, k))
    ensures Way(h, b, w) && w != LoopStop(h, b)
  {
  }

  lemma PlainGrows(h: Heap, c: Cert, f: Nodes, g: Nodes, x: nat, w: nat, so: nat, sn: nat)
    requires x < |h| && w < |h| && Sized(h, c) && LabelEqual(h, x, w) && Spine(h, c, x) && Spine(h, c, w) && !IsKind(h, w, Join)
    requires c.root[x] == so && c.root[w] == sn && f.Keys !! {w} && g.Keys !! {x}
    requires Entered(h, f, Single(w, x)) && Entered(h, g, Single(x, w)) && Whole(h, c, Single(w, x))
    ensures Grows(h, c, f, g, Single(w, x), Single(x, w), x, w, w, so, sn)
  {
    PlainForward(h, c, w, x);
    hide Entered, Forward, Whole;
  }

  lemma PlainWhole(h: Heap, c: Cert, w: nat, x: nat)
    requires Shape(h, c) && w < |h| && !IsKind(h, w, Fork) && !IsKind(h, w, Join) && c.ctx[w] == []
    ensures Whole(h, c, Single(w, x))
  {
    forall v: nat | v < |h| && |c.ctx[v]| > 0
      ensures c.ctx[v][0] != w && v != w
    {
      assert IsKind(h, c.ctx[v][0], Fork);
    }
    forall v: nat | v < |h| && IsKind(h, v, Fork)
      ensures Pair(h, v) != w && v != w
    {
      PairFacts(h, c, v);
    }
  }

  lemma RegionWhole(h: Heap, c: Cert, x: nat, w: nat)
    requires Twins(h, c, x, w)
    ensures Whole(h, c, RegionMap(h, c, x, w))
  {
    forall v: nat | v < |h| && |c.ctx[v]| > 0
      ensures Region(h, c, w, v) <==> Region(h, c, w, c.ctx[v][0])
    {
      var f := c.ctx[v][0];
      assert IsKind(h, f, Fork) && c.ctx[f] == [];
      PairFacts(h, c, w);
    }
    forall v: nat | v < |h| && IsKind(h, v, Fork) && c.ctx[v] == []
      ensures Pair(h, v) < |h| && (Region(h, c, w, v) <==> Region(h, c, w, Pair(h, v)))
    {
      PairFacts(h, c, v);
      PairFacts(h, c, w);
    }
  }

  /** The region of a FORK lies below it in rank and belongs to its graph. */
  lemma RegionBelow(h: Heap, c: Cert, f: nat, v: nat)
    requires Outermost(h, c, f) && Region(h, c, f, v)
    ensures c.rank[Pair(h, f)] <= c.rank[v] <= c.rank[f] && c.root[v] == c.root[f]
  {
    PairFacts(h, c, f);
    if v != f && v != Pair(h, f) {
      assert c.ctx[v][0] == f;
    }
  }

  lemma MatchedFork(h: Heap, c: Cert, f: Nodes, g: Nodes, a: nat, b: nat, so: nat, sn: nat, x: nat, w: nat)
    requires a < |h| && x != LoopStop(h, a) && IsKind(h, w, Fork) && Way(h, a, x) && OnlyNext(h, b, w) && Same(h, c, x, w)
    requires Matched(h, c, f, g, a, b, so, sn)
    ensures Twins(h, c, x, w)
    ensures Matched(h, c, f + RegionMap(h, c, x, w), g + RegionBack(h, c, x, w), Pair(h, x), Pair(h, w), so, sn)
  {
    hide UpClosed, Forward, OnlyNext, Inverse, Ranked, Labelled, Whole, Matched, Edges, Parents, Pairs, Nested, Leaves;
    MatchedFacts(h, c, f, g, a, b, so, sn);
    SameFacts(h, c, x, w, b);
    SpineEdge(h, c, a, x);
    SpineEdge(h, c, b, w);
    assert IsKind(h, x, Fork);
    PairFacts(h, c, x);
    PairFacts(h, c, w);
    RegionsFresh(h, c, f, g, a, b, so, sn, x, w);
    ForkEntered(h, c, f, x, w, a, b);
    ForkEnteredBack(h, c, g, x, w, a, b);
    ForkGrows(h, c, f, g, x, w, so, sn);
    MatchedGrow(h, c, f, g, RegionMap(h, c, x, w), RegionBack(h, c, x, w), a, b, Pair(h, x), Pair(h, w), w, so, sn);
  }

  lemma RegionsFresh(h: Heap, c: Cert, f: Nodes, g: Nodes, a: nat, b: nat, so: nat, sn: nat, x: nat, w: nat)
    requires Matched(h, c, f, g, a, b, so, sn) && Twins(h, c, x, w) && c.rank[x] < c.rank[a] && c.rank[w] < c.rank[b]
    ensures f.Keys !! RegionMap(h, c, x, w).Keys && g.Keys !! RegionBack(h, c, x, w).Keys
    ensures !Region(h, c, w, b) && !Region(h, c, x, a)
  {
    forall v: nat | v < |h| && Region(h, c, w, v)
      ensures c.rank[v] < c.rank[b]
    {
      RegionBelow(h, c, w, v);
    }
    forall u: nat | u < |h| && Region(h, c, x, u)
      ensures c.rank[u] < c.rank[a]
    {
      RegionBelow(h, c, x, u);
    }
    NotYet(h, c, f, g, a, b, so, sn, RegionMap(h, c, x, w).Keys, RegionBack(h, c, x, w).Keys);
  }

  lemma ForkGrows(h: Heap, c: Cert, f: Nodes, g: Nodes, x: nat, w: nat, so: nat, sn: nat)
    requires Twins(h, c, x, w) && c.root[x] == so && c.root[w] == sn
    requires f.Keys !! RegionMap(h, c, x, w).Keys && g.Keys !! RegionBack(h, c, x, w).Keys
    requires Entered(h, f, RegionMap(h, c, x, w)) && Entered(h, g, RegionBack(h, c, x, w))
    ensures Grows(h, c, f, g, RegionMap(h, c, x, w), RegionBack(h, c, x, w), Pair(h, x), Pair(h, w), w, so, sn)
  {
    PairFacts(h, c, x);
    PairFacts(h, c, w);
    RegionInverse(h, c, x, w);
    RegionLabelled(h, c, x, w);
    RegionForward(h, c, x, w);
    ForkWays(h, c, x, w);
    RegionWhole(h, c, x, w);
    hide Entered, Inverse, Forward, Labelled, Ranked, Image, Whole;
  }

  lemma RegionLabelled(h: Heap, c: Cert, x: nat, w: nat)
    requires Twins(h, c, x, w)
    ensures Labelled(h, c, RegionMap(h, c, x, w), c.root[x], c.root[w])
    ensures Pair(h, x) < |h| && Pair(h, w) < |h| && Ranked(h, c, RegionMap(h, c, x, w), Pair(h, x), Pair(h, w))
  {
    PairFacts(h, c, x);
    PairFacts(h, c, w);
    forall v: nat | v < |h| && Region(h, c, w, v)
      ensures var u := Image(h, c, x, w, v);
              && u < |h| && LabelEqual(h, u, v) && c.root[v] == c.root[w] && c.root[u] == c.root[x]
              && c.rank[v] >= c.rank[Pair(h, w)] && c.rank[u] >= c.rank[Pair(h, x)]
    {
      ImageRelated(h, c, x, w, v);
      ImageRegion(h, c, x, w, v);
      RegionBelow(h, c, w, v);
      RegionBelow(h, c, x, Image(h, c, x, w, v));
    }
  }

  lemma RegionForward(h: Heap, c: Cert, x: nat, w: nat)
    requires Twins(h, c, x, w)
    ensures Forward(h, RegionMap(h, c, x, w), Pair(h, w))
  {
    var e := RegionMap(h, c, x, w);
    PairFacts(h, c, w);
    forall v, u | v in e && v != Pair(h, w) && Way(h, v, u)
      ensures u in e
    {
      var i: nat :| i < |h[v].to| && h[v].to[i] == u;
      ChildRegion(h, c, w, v, i);
    }
  }

  lemma PlainForward(h: Heap, c: Cert, w: nat, x: nat)
    requires w < |h| && !IsKind(h, w, Join)
    ensures Forward(h, Single(w, x), w)
  {
  }
}
