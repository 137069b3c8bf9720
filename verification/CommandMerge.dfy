/** Merging the graph of a new command into the graph of a command node. */
module CommandMerge {
  import opened Wrappers
  import opened Lists
  import opened Tokens
  import opened CommandTree
  import opened MergeShape
  import opened MergeEqual
  import opened MergeFork
  import opened MergeMatch
  import opened MergePaths
  import opened MergeKeeps
  import opened MergeReach
  import opened MergeUpdate

  /** The nodes owned by the two graphs are distinct. */
  ghost predicate Apart(owned: seq<nat>, spare: seq<Option<nat>>) {
    Once(spare) && Distinct(owned) && forall u | u in owned :: u !in Slots(spare)
  }

  /** The nodes of `m` that the new graph owned belong to the old graph now, once
      each; all else is where it was. */
  ghost predicate HandedOver(owned: seq<nat>, spare: seq<Option<nat>>, owned': seq<nat>, spare': seq<Option<nat>>, m: set<nat>) {
    && Apart(owned', spare') && owned <= owned' && Slots(spare') == Slots(spare) - m
    && forall u :: u in owned' <==> u in owned || (u in m && u in Slots(spare))
  }

  /** Where the match ends: `f` and its inverse `g` map down to `b` and `a`, and `n`
      is attached. */
  datatype Spot = Spot(f: Nodes, g: Nodes, a: nat, b: nat, n: nat)

  ghost predicate Extends(f: Nodes, f': Nodes) {
    forall v | v in f :: v in f' && f'[v] == f[v]
  }

  /** Position `i` among the successors of `a` holds a node equal to `w`. */
  ghost predicate IsMatch(h: Heap, c: Cert, a: nat, w: nat, i: nat)
    requires Shape(h, c) && a < |h| && w < |h| && i < |h[a].to|
  {
    h[a].to[i] != LoopStop(h, a) && h[a].to[i] < |h| && NodesEqual(h, c, h[a].to[i], w)
  }

  /** `x` is the first successor of `a` equal to `w`. */
  ghost predicate Chosen(h: Heap, c: Cert, a: nat, x: nat, w: nat)
    requires Shape(h, c) && a < |h| && w < |h|
  {
    exists i | 0 <= i < |h[a].to| :: h[a].to[i] == x && IsMatch(h, c, a, w, i) && forall k | 0 <= k < i :: !IsMatch(h, c, a, w, k)
  }

  /** Of the nodes outside FORKs that `f'` adds to `f`, each is mapped to the first
      equal successor of what its predecessor is mapped to. */
  ghost predicate Greedy(h: Heap, c: Cert, f: Nodes, f': Nodes) {
    Shape(h, c) && forall v | v in f' && v !in f && Entry(h, c, v) :: FirstTaken(h, c, f', v)
  }

  /** A node of the main line or the FORK of a region on it. */
  ghost predicate Entry(h: Heap, c: Cert, v: nat) {
    v < |h| && v < |c.ctx| && c.ctx[v] == [] && !IsKind(h, v, Join)
  }

  ghost predicate FirstTaken(h: Heap, c: Cert, f: Nodes, v: nat)
    requires Shape(h, c) && v < |h| && v in f
  {
    c.par[v] in f && f[c.par[v]] < |h| && Chosen(h, c, f[c.par[v]], f[v], v)
  }

  /** No successor of `a` equals `n`.  An END is never looked for: each command has
      its own. */
  ghost predicate Furthest(h: Heap, c: Cert, a: nat, n: nat) {
    && Shape(h, c) && a < |h| && n < |h|
    && (!IsKind(h, n, End) ==> forall k | 0 <= k < |h[a].to| :: !IsMatch(h, c, a, n, k))
  }

  /** A merge from `s` to `s'` that had matched `f` before and went on to `r`, as far
      as it could. */
  ghost predicate Placed(s: Heap, owned: seq<nat>, spare: seq<Option<nat>>, s': Heap, owned': seq<nat>, spare': seq<Option<nat>>,
                         c: Cert, f: Nodes, g: Nodes, r: Spot, so: nat, sn: nat) {
    && Joined(s, c, s', r.f, r.g, r.a, r.b, r.n, so, sn) && Extends(f, r.f) && Extends(g, r.g)
    && HandedOver(owned, spare, owned', spare', Unmatched(s, c, r.f, sn))
    && Greedy(s, c, f, r.f) && Furthest(s, c, r.a, r.n)
  }

  /** Outside FORKs, every node of the graph of a single command but END has one
      successor. */
  ghost predicate Lone(h: Heap, c: Cert, s: nat) {
    forall u | 0 <= u < |h| && u < |c.root| && c.root[u] == s && Spine(h, c, u) && h[u].data.Tok? && !IsKind(h, u, End) ::
      exists w :: OnlyNext(h, u, w)
  }

  /** The command node's graph and the graph being merged into it: all nodes, and
      the list of nodes that each of the two graphs owns. */
  class Merger {
    var nodes: Heap
    var owned: seq<nat>
    var spare: seq<Option<nat>>

    ghost predicate Lists()
      reads this
    {
      Apart(owned, spare)
    }

    /** Hands one node over, if the new graph still owns it. */
    method Reparent(node: nat)
      requires Lists()
      modifies this`owned, this`spare
      ensures HandedOver(old(owned), old(spare), owned, spare, {node})
    {
      var i := 0;
      while i < |spare|
        invariant i <= |spare| && spare == old(spare) && owned == old(owned)
        invariant forall k | 0 <= k < i :: spare[k] != Some(node)
      {
        if spare[i] == Some(node) {
          assert node in Slots(spare) && node !in owned;
          UnsetExact(spare, i);
          spare := Unset(spare, i);
          owned := owned + [node];
          return;
        }
        i := i + 1;
      }
    }

    ghost function K(): Heap
      reads this`nodes
    {
      Cores(nodes)
    }

    /** Hands over a whole subtree.  A node reached twice is handed over once. */
    method ReparentTree(ghost c: Cert, node: nat)
      requires Falling(K(), c) && node < |nodes| && Lists()
      modifies this`owned, this`spare
      ensures HandedOver(old(owned), old(spare), owned, spare, Reach(K(), c, node, |nodes|))
      decreases c.rank[node]
    {
      Reparent(node);
      LinksSame(nodes);
      ghost var done := {node};
      var i := 0;
      while i < |nodes[node].to|
        invariant i <= |nodes[node].to|
        invariant done + ReachFrom(K(), c, node, |nodes|, i) == Reach(K(), c, node, |nodes|)
        invariant HandedOver(old(owned), old(spare), owned, spare, done)
      {
        var next := nodes[node].to[i];
        assert K()[node].to[i] == next;
        if next != LoopStop(nodes, node) {
          ReparentTree(c, next);
          done := done + Reach(K(), c, next, |nodes|);
        }
        i := i + 1;
      }
    }

    // ---- merging ----

    /** Another command uses node `a`. */
    method CountUp(a: nat)
      requires a < |nodes| && nodes[a].data.Tok?
      modifies this`nodes
      ensures K() == old(K()) && CountedUp(old(nodes), nodes, a)
    {
      var t := nodes[a].data.token;
      nodes := nodes[a := nodes[a].(data := Tok(t.(refcnt := t.refcnt + 1)))];
      assert K() == old(K());
    }

    method SetAttr(u: nat, attr: Attr)
      requires u < |nodes|
      modifies this`nodes
      ensures K() == old(K()) && Painted(old(nodes), nodes, {u}, attr)
    {
      if nodes[u].data.Tok? {
        nodes := nodes[u := nodes[u].(data := Tok(nodes[u].data.token.(attr := attr)))];
      }
      assert K() == old(K());
    }

    /** Gives the FORK `gn`, or a node after it, and all before `join` an attribute. */
    method ForkBumpAttr(ghost c: Cert, gn: nat, join: nat, attr: Attr)
      requires Falling(K(), c) && gn < |nodes|
      modifies this`nodes
      ensures K() == old(K()) && Painted(old(nodes), nodes, Reach(K(), c, gn, join), attr)
      decreases c.rank[gn]
    {
      ghost var h := K();
      SetAttr(gn, attr);
      ghost var done := {gn};
      var i := 0;
      while i < |nodes[gn].to|
        invariant K() == h && i <= |h[gn].to|
        invariant done + ReachFrom(h, c, gn, join, i) == Reach(h, c, gn, join)
        invariant Painted(old(nodes), nodes, done, attr)
      {
        LinksSame(nodes);
        assert h[gn].to == nodes[gn].to;
        var next := nodes[gn].to[i];
        if next != LoopStop(nodes, gn) && next != join {
          ghost var k := nodes;
          ForkBumpAttr(c, next, join, attr);
          CoresTok(old(nodes), k);
          PaintedUnion(old(nodes), k, nodes, done, Reach(h, c, next, join), attr);
          done := done + Reach(h, c, next, join);
        }
        i := i + 1;
      }
    }

    /** Makes `x` as visible as `w`, if it is less so. */
    method LowerAttr(x: nat, w: nat)
      requires x < |nodes| && w < |nodes| && nodes[x].data.Tok? && nodes[w].data.Tok?
      modifies this`nodes
      ensures K() == old(K()) && Eased(old(nodes), nodes, x, w)
    {
      if AttrLevel(nodes[w].data.token.attr) < AttrLevel(nodes[x].data.token.attr) {
        SetAttr(x, nodes[w].data.token.attr);
      }
    }

    /** The FORK `x` now also serves the command that FORK `w` belongs to. */
    method ShareFork(ghost c: Cert, x: nat, w: nat)
      requires Twins(K(), c, x, w) && c.root[x] != c.root[w]
      modifies this`nodes
      ensures K() == old(K()) && Shared(old(nodes), nodes, c, RegionBack(old(K()), c, x, w))
    {
      ghost var s, h := K(), nodes;
      ForkFacts(s, h, c, x, w);
      hide Twins, Outermost;
      if AttrLevel(nodes[w].data.token.attr) < AttrLevel(nodes[x].data.token.attr) {
        ForkBumpAttr(c, x, Pair(nodes, x), nodes[w].data.token.attr);
      }
      ghost var k := nodes;
      CoresTok(h, k);
      LowerAttr(Pair(nodes, x), Pair(nodes, w));
      ForkShared(h, k, nodes, c, s, x, w);
    }

    /** The position of the first successor of `a` to continue with, or the end if
        there is none.  An END node is never continued with: each command has its
        own. */
    method FindMatch(ghost c: Cert, a: nat, cnew: nat) returns (i: nat)
      requires Shape(K(), c) && a < |nodes| && cnew < |nodes|
      ensures i <= |nodes[a].to| && (i < |nodes[a].to| ==> IsMatch(K(), c, a, cnew, i) && !IsKind(K(), cnew, End))
      ensures !IsKind(K(), cnew, End) ==> forall k | 0 <= k < i :: !IsMatch(K(), c, a, cnew, k)
    {
      i := FirstMatch(Cores(nodes), c, a, cnew);
    }

    /** Merges the successor `w` of `b` below `a`. */
    method MergeChild(ghost c: Cert, ghost f: Nodes, ghost g: Nodes, a: nat, b: nat, w: nat, ghost so: nat, ghost sn: nat)
      returns (ghost r: Spot)
      requires Poised(K(), c, f, g, a, b, w, so, sn) && Lists() && Lone(K(), c, sn)
      modifies this
      ensures Placed(old(K()), old(owned), old(spare), K(), owned, spare, c, f, g, r, so, sn)
      ensures Updated(old(nodes), nodes, c, None, g, r.g)
      decreases c.rank[b], 1
    {
      hide Poised, Lone, Shape, Joined, Unmatched, HandedOver, Updated, Equal, IsMatch, Greedy, Furthest;
      ChildFacts(K(), c, f, g, a, b, w, so, sn);
      var i := FindMatch(c, a, w);
      if i == |nodes[a].to| {
        ghost var h := nodes;
        GreedyNot(K(), c, f, a, w);
        Attach(c, f, g, a, b, w, so, sn);
        r := Spot(f, g, a, b, w);
        UpdatedNot(h, nodes, c, g);
      } else {
        var x := nodes[a].to[i];
        MatchEqual(K(), c, a, w, i);
        LinksSame(nodes);
        if IsKind(nodes, w, Fork) {
          assert IsKind(K(), w, Fork);
          r := GoOnFork(c, f, g, a, b, x, w, so, sn);
        } else {
          assert !IsKind(K(), w, Fork);
          r := GoOnPlain(c, f, g, a, b, x, w, so, sn);
        }
      }
    }

    /** Goes on below a node that both graphs have. */
    method GoOnPlain(ghost c: Cert, ghost f: Nodes, ghost g: Nodes, ghost a: nat, ghost b: nat, x: nat, w: nat,
                     ghost so: nat, ghost sn: nat) returns (ghost r: Spot)
      requires Poised(K(), c, f, g, a, b, w, so, sn) && Lists() && Lone(K(), c, sn) && Equal(K(), c, a, x, w)
      requires !IsKind(K(), w, Fork)
      modifies this
      ensures Placed(old(K()), old(owned), old(spare), K(), owned, spare, c, f, g, r, so, sn)
      ensures Updated(old(nodes), nodes, c, None, g, r.g)
      decreases c.rank[b], 0
    {
      hide Poised, Lone, Equal, Matched, Updated, Placed, Extends, Joined, Eased, Continues;
      ghost var s, h := K(), nodes;
      PlainFacts(s, c, f, g, a, b, x, w, so, sn);
      PlainContinues(s, c, f, g, a, b, x, w, so, sn);
      LowerAttr(x, w);
      ghost var k := nodes;
      r := MergeNodes(c, f + Single(w, x), g + Single(x, w), x, w, so, sn);
      PlacedMore(s, old(owned), old(spare), K(), owned, spare, c, f, g, Single(w, x), Single(x, w), r, so, sn, a, b, x, w);
      PlainDone(h, k, nodes, s, K(), c, f, g, x, w, r, so, sn);
    }

    /** Goes on below a FORK that both graphs have. */
    method GoOnFork(ghost c: Cert, ghost f: Nodes, ghost g: Nodes, ghost a: nat, ghost b: nat, x: nat, w: nat,
                    ghost so: nat, ghost sn: nat) returns (ghost r: Spot)
      requires Poised(K(), c, f, g, a, b, w, so, sn) && Lists() && Lone(K(), c, sn) && Equal(K(), c, a, x, w)
      requires IsKind(K(), w, Fork)
      modifies this
      ensures Placed(old(K()), old(owned), old(spare), K(), owned, spare, c, f, g, r, so, sn)
      ensures Updated(old(nodes), nodes, c, None, g, r.g)
      decreases c.rank[b], 0
    {
      hide Poised, Lone, Equal, Matched, Updated, Placed, Extends, Twins, RegionMap, RegionBack, Shared, Joined, Continues;
      ghost var s, h := K(), nodes;
      ForkStep(s, c, f, g, a, b, x, w, so, sn);
      ghost var e, d := RegionMap(s, c, x, w), RegionBack(s, c, x, w);
      ForkContinues(s, c, f, g, a, b, x, w, so, sn);
      ShareFork(c, x, w);
      ghost var k := nodes;
      LinksSame(nodes);
      r := MergeNodes(c, f + e, g + d, Pair(nodes, x), Pair(nodes, w), so, sn);
      PlacedMore(s, old(owned), old(spare), K(), owned, spare, c, f, g, e, d, r, so, sn, a, b, x, w);
      ForkDone(h, k, nodes, s, K(), c, f, g, x, w, r, so, sn);
    }

    /** Merges what follows `b` below `a`, which has been matched with it. */
    method MergeNodes(ghost c: Cert, ghost f: Nodes, ghost g: Nodes, a: nat, b: nat, ghost so: nat, ghost sn: nat)
      returns (ghost r: Spot)
      requires Matched(K(), c, f, g, a, b, so, sn) && so != sn && Lists() && Lone(K(), c, sn) && !IsKind(K(), b, End)
      modifies this
      ensures Placed(old(K()), old(owned), old(spare), K(), owned, spare, c, f, g, r, so, sn)
      ensures Updated(old(nodes), nodes, c, Some(a), g, r.g)
      decreases c.rank[b], 2
    {
      hide Matched, Lone, Poised, Updated, Placed, CountedUp;
      ghost var s, h := K(), nodes;
      ghost var n := NextFacts(s, c, f, g, a, b, so, sn);
      CountUp(a);
      ghost var k := nodes;
      r := MergeList(c, f, g, a, b, n, so, sn);
      HereDone(h, k, nodes, c, a, g, r.g);
    }

    /** Looks for the successor of `b` and merges it. */
    method MergeList(ghost c: Cert, ghost f: Nodes, ghost g: Nodes, a: nat, b: nat, ghost n: nat, ghost so: nat, ghost sn: nat)
      returns (ghost r: Spot)
      requires Poised(K(), c, f, g, a, b, n, so, sn) && Lists() && Lone(K(), c, sn) && b < |nodes| && n in K()[b].to
      requires n != LoopStop(K(), b)
      requires forall v | Way(K(), b, v) :: v == n || v == LoopStop(K(), b)
      modifies this
      ensures Placed(old(K()), old(owned), old(spare), K(), owned, spare, c, f, g, r, so, sn)
      ensures Updated(old(nodes), nodes, c, None, g, r.g)
      decreases c.rank[b], 2, 0
    {
      hide Lone, Poised, Updated, Placed;
      ghost var s, k := K(), nodes;
      ghost var done := false;
      r := Spot(f, g, a, b, n);
      var j := 0;
      while j < |nodes[b].to|
        invariant |nodes| == |k| && b < |nodes|
        invariant !done ==> nodes == k && owned == old(owned) && spare == old(spare) && j <= |nodes[b].to|
        invariant !done ==> forall i | 0 <= i < j :: nodes[b].to[i] != n
        invariant done ==>
                    Placed(s, old(owned), old(spare), K(), owned, spare, c, f, g, r, so, sn) && Updated(k, nodes, c, None, g, r.g)
        invariant done ==> forall i | j <= i < |nodes[b].to| :: nodes[b].to[i] == LoopStop(nodes, b)
        decreases |nodes[b].to| - j
      {
        var cnew := nodes[b].to[j];
        LinksSame(nodes);
        assert !done ==> LoopStop(s, b) == LoopStop(nodes, b);
        if cnew != LoopStop(nodes, b) {
          assert Way(s, b, cnew) && LoopStop(s, b) == LoopStop(nodes, b);
          r := MergeChild(c, f, g, a, b, cnew, so, sn);
          done := true;
          RestLoops(k, nodes, c, f, g, a, b, n, j, old(owned), old(spare), owned, spare, r, so, sn);
        }
        j := j + 1;
      }
      assert s[b].to == k[b].to;
    }

    /** Removes the edge from `b` to `n`, the last successor taking its place. */
    method RemoveEdge(b: nat, n: nat)
      requires b < |nodes| && n in nodes[b].to && Distinct(nodes[b].to)
      modifies this`nodes
      ensures |nodes| == |old(nodes)| && Cut(old(K()), K(), b, n) && Distinct(K()[b].to) && SameLabels(old(nodes), nodes)
    {
      var i := |nodes[b].to|;
      while i > 0
        invariant 0 <= i <= |nodes[b].to| && nodes == old(nodes)
        invariant forall k | i <= k < |nodes[b].to| :: nodes[b].to[k] != n
      {
        i := i - 1;
        if nodes[b].to[i] == n {
          RemovalExact(nodes[b].to, i);
          nodes := nodes[b := nodes[b].(to := SwapRemove(nodes[b].to, i))];
          return;
        }
      }
    }

    /** Takes `n`, the successor of `b`, out of the new graph with all that follows. */
    method Detach(ghost c: Cert, ghost f: Nodes, ghost g: Nodes, a: nat, b: nat, n: nat, ghost so: nat, ghost sn: nat)
      requires Poised(K(), c, f, g, a, b, n, so, sn) && Lists()
      modifies this
      ensures |nodes| == |old(nodes)| && Cut(old(K()), K(), b, n) && Distinct(K()[b].to) && SameLabels(old(nodes), nodes)
      ensures HandedOver(old(owned), old(spare), owned, spare, Unmatched(old(K()), c, f, sn))
    {
      hide Poised, Cut, HandedOver, Unmatched, Apart, Falling, Reach;
      ghost var h := K();
      AttachFacts(h, c, f, g, a, b, n, so, sn);
      RemoveEdge(b, n);
      NewBelow(h, c, K(), f, g, a, b, n, so, sn);
      ReparentTree(c, n);
    }

    /** Attaches `n`, the successor of `b`, below `a`, with all that follows it. */
    method Attach(ghost c: Cert, ghost f: Nodes, ghost g: Nodes, a: nat, b: nat, n: nat, ghost so: nat, ghost sn: nat)
      requires Poised(K(), c, f, g, a, b, n, so, sn) && Lists()
      modifies this
      ensures |nodes| == |old(nodes)| && Joined(old(K()), c, K(), f, g, a, b, n, so, sn) && SameLabels(old(nodes), nodes)
      ensures HandedOver(old(owned), old(spare), owned, spare, Unmatched(old(K()), c, f, sn))
    {
      hide Poised, Cut, HandedOver, Joined, Unmatched, Apart;
      ghost var h := K();
      AttachFacts(h, c, f, g, a, b, n, so, sn);
      Detach(c, f, g, a, b, n, so, sn);
      ghost var k := K();
      AddEdge(a, n);
      IsJoined(h, c, k, K(), f, g, a, b, n, so, sn);
    }

    method AddEdge(a: nat, n: nat)
      requires a < |nodes|
      modifies this`nodes
      ensures |nodes| == |old(nodes)| && SameLabels(old(nodes), nodes)
      ensures K() == old(K())[a := old(K())[a].(to := old(K())[a].to + [n])]
    {
      nodes := nodes[a := nodes[a].(to := nodes[a].to + [n])];
      assert K() == old(K())[a := old(K())[a].(to := old(K())[a].to + [n])];
    }
  }

  method FirstMatch(h: Heap, ghost c: Cert, a: nat, cnew: nat) returns (i: nat)
    requires Shape(h, c) && a < |h| && cnew < |h|
    ensures i <= |h[a].to| && (i < |h[a].to| ==> IsMatch(h, c, a, cnew, i) && !IsKind(h, cnew, End))
    ensures !IsKind(h, cnew, End) ==> forall k | 0 <= k < i :: !IsMatch(h, c, a, cnew, k)
  {
    assert forall k | 0 <= k < |h[a].to| :: h[a].to[k] < |h|;
    hide Shape, NodesEqual;
    i := 0;
    while i < |h[a].to|
      invariant i <= |h[a].to| && forall k | 0 <= k < i :: !IsMatch(h, c, a, cnew, k)
    {
      var cold := h[a].to[i];
      if cold != LoopStop(h, a) {
        var same := CmdNodesEqual(h, c, cold, cnew);
        if same {
          EqualKinds(h, c, cold, cnew);
          if IsKind(h, cold, End) {
            i := |h[a].to|;
          }
          return;
        }
      }
      i := i + 1;
    }
  }

  lemma RemovalExact(s: seq<nat>, i: nat)
    requires i < |s| && Distinct(s)
    ensures Distinct(SwapRemove(s, i)) && forall v :: v in SwapRemove(s, i) <==> v in s && v != s[i]
  {
    var r := SwapRemove(s, i);
    forall v | v in s && v != s[i]
      ensures v in r
    {
      var k :| 0 <= k < |s| && s[k] == v;
      assert r[if k == |s| - 1 then i else k] == v;
    }
    forall v | v in r
      ensures v in s && v != s[i]
    {
      var k :| 0 <= k < |r| && r[k] == v;
      assert v == s[if k == i then |s| - 1 else k];
    }
  }

  lemma EqualKinds(h: Heap, c: Cert, x: nat, w: nat)
    requires Shape(h, c) && x < |h| && w < |h| && NodesEqual(h, c, x, w)
    ensures h[x].data.Tok? && h[w].data.Tok? && forall k :: IsKind(h, x, k) <==> IsKind(h, w, k)
  {
  }

  lemma AttachFacts(h: Heap, c: Cert, f: Nodes, g: Nodes, a: nat, b: nat, n: nat, so: nat, sn: nat)
    requires Poised(h, c, f, g, a, b, n, so, sn)
    ensures a < |h| && b < |h| && a != b && n < |h| && n in h[b].to && Distinct(h[b].to)
  {
    SpineEdge(h, c, b, n);
    assert c.root[a] == so && c.root[b] == sn;
  }

  lemma IsJoined(h: Heap, c: Cert, k: Heap, h': Heap, f: Nodes, g: Nodes, a: nat, b: nat, n: nat, so: nat, sn: nat)
    requires Poised(h, c, f, g, a, b, n, so, sn) && a < |h| && b < |h| && a != b
    requires Cut(h, k, b, n) && Distinct(k[b].to) && h' == k[a := k[a].(to := k[a].to + [n])]
    ensures Joined(h, c, h', f, g, a, b, n, so, sn)
  {
    hide Poised;
  }

  lemma NewBelow(h: Heap, c: Cert, h': Heap, f: Nodes, g: Nodes, a: nat, b: nat, n: nat, so: nat, sn: nat)
    requires Poised(h, c, f, g, a, b, n, so, sn) && Cut(h, h', b, n)
    ensures n < |h| && Sized(h, c) && Falling(h', c) && Reach(h', c, n, |h|) == Unmatched(h, c, f, sn)
  {
    SpineEdge(h, c, b, n);
    assert n !in f && c.root[b] == sn;
    hide Inverse, Labelled, Whole;
    ReachUnmatched(h, c, h', f, b, n, sn);
  }

  lemma CoresTok(h: Heap, k: Heap)
    requires Cores(h) == Cores(k)
    ensures |h| == |k| && forall u | 0 <= u < |h| :: (h[u].data.Tok? <==> k[u].data.Tok?) && h[u].to == k[u].to
  {
    forall u | 0 <= u < |h|
      ensures (h[u].data.Tok? <==> k[u].data.Tok?) && h[u].to == k[u].to
    {
      assert Cores(h)[u] == Core(h[u]) && Cores(k)[u] == Core(k[u]);
    }
  }

  lemma ForkFacts(s: Heap, h: Heap, c: Cert, x: nat, w: nat)
    requires s == Cores(h) && Twins(s, c, x, w) && c.root[x] != c.root[w]
    ensures |h| == |s| == |c.ctx| && x < |h| && w < |h| && h[x].data.Tok? && h[w].data.Tok? && Falling(s, c)
    ensures Pair(s, x) < |h| && Pair(s, w) < |h| && h[Pair(s, x)].data.Tok? && h[Pair(s, w)].data.Tok?
    ensures Reach(s, c, x, Pair(s, x)) == Reachable(s, c, x)
    ensures forall u | 0 <= u < |h| && Region(s, c, x, u) :: h[u].data.Tok?
    ensures forall u | 0 <= u < |h| && Region(s, c, w, u) :: !Region(s, c, x, u)
    ensures forall k {:trigger Cores(k)} | Cores(k) == s :: Pair(k, x) == Pair(s, x) && Pair(k, w) == Pair(s, w)
  {
    PairFacts(s, c, x);
    PairFacts(s, c, w);
    ReachRegion(s, c, x);
    forall u: nat | u < |h| && Region(s, c, x, u)
      ensures h[u].data.Tok?
    {
      ImageRelated(s, c, x, w, Preimage(s, c, x, w, u));
    }
    forall u: nat | u < |h| && Region(s, c, w, u)
      ensures !Region(s, c, x, u)
    {
      RegionBelow(s, c, w, u);
      if Region(s, c, x, u) {
        RegionBelow(s, c, x, u);
      }
    }
    forall k | Cores(k) == s
      ensures Pair(k, x) == Pair(s, x) && Pair(k, w) == Pair(s, w)
    {
      LinksSame(k);
    }
  }

  lemma ChildFacts(h: Heap, c: Cert, f: Nodes, g: Nodes, a: nat, b: nat, n: nat, so: nat, sn: nat)
    requires Poised(h, c, f, g, a, b, n, so, sn)
    ensures Shape(h, c) && a < |h| && b < |h| && n < |h|
  {
    SpineEdge(h, c, b, n);
  }

  lemma UpdatedNot(h: Heap, h': Heap, c: Cert, g: Nodes)
    requires |h'| == |h| && SameLabels(h, h')
    ensures Updated(h, h', c, None, g, g)
  {
  }

  ghost predicate Equal(h: Heap, c: Cert, a: nat, x: nat, w: nat) {
    && Shape(h, c) && Way(h, a, x) && x < |h| && w < |h| && x != LoopStop(h, a) && NodesEqual(h, c, x, w) && !IsKind(h, w, End)
    && Chosen(h, c, a, x, w)
  }

  lemma GreedyNot(h: Heap, c: Cert, f: Nodes, a: nat, n: nat)
    requires Shape(h, c) && a < |h| && n < |h|
    requires !IsKind(h, n, End) ==> forall k | 0 <= k < |h[a].to| :: !IsMatch(h, c, a, n, k)
    ensures Greedy(h, c, f, f) && Furthest(h, c, a, n)
  {
  }

  /** The pairs `e` that continue the match `f` at `b`: of them only `w`, mapped to
      `x`, is entered from outside. */
  ghost predicate Continues(h: Heap, c: Cert, f: Nodes, e: Nodes, a: nat, b: nat, x: nat, w: nat) {
    && Shape(h, c) && a < |h| && w < |h| && f.Keys !! e.Keys && b in f && f[b] == a && w in e && e[w] == x && c.par[w] == b
    && Chosen(h, c, a, x, w) && forall v | v in e && Entry(h, c, v) :: v == w
  }

  lemma GreedyMore(h: Heap, c: Cert, f: Nodes, e: Nodes, f': Nodes, a: nat, b: nat, x: nat, w: nat)
    requires Continues(h, c, f, e, a, b, x, w) && Greedy(h, c, f + e, f') && Extends(f + e, f')
    ensures Greedy(h, c, f, f')
  {
    hide Shape, Chosen;
    forall v | v in f' && v !in f && Entry(h, c, v)
      ensures FirstTaken(h, c, f', v)
    {
      if v in e {
        assert v == w && b in f + e && w in f + e;
      }
    }
  }

  lemma MatchEqual(h: Heap, c: Cert, a: nat, w: nat, i: nat)
    requires Shape(h, c) && a < |h| && w < |h| && i < |h[a].to| && IsMatch(h, c, a, w, i) && !IsKind(h, w, End)
    requires forall k | 0 <= k < i :: !IsMatch(h, c, a, w, k)
    ensures Equal(h, c, a, h[a].to[i], w)
  {
    hide Shape;
    assert Way(h, a, h[a].to[i]);
  }

  /** The match is extended by one node and can go on below it. */
  ghost predicate Onward(s: Heap, c: Cert, f: Nodes, g: Nodes, b: nat, x: nat, w: nat, so: nat, sn: nat) {
    && Sized(s, c) && b < |s| && x < |s| && w < |s| && s[x].data.Tok? && s[w].data.Tok? && so != sn && w !in f && x !in g
    && Matched(s, c, f + Single(w, x), g + Single(x, w), x, w, so, sn)
    && c.rank[w] < c.rank[b] && !IsKind(s, w, End)
  }

  lemma PlainContinues(s: Heap, c: Cert, f: Nodes, g: Nodes, a: nat, b: nat, x: nat, w: nat, so: nat, sn: nat)
    requires Equal(s, c, a, x, w) && Poised(s, c, f, g, a, b, w, so, sn) && w !in f
    ensures Continues(s, c, f, Single(w, x), a, b, x, w)
  {
    hide NodesEqual, Chosen;
    SpineEdge(s, c, b, w);
  }

  lemma ForkContinues(s: Heap, c: Cert, f: Nodes, g: Nodes, a: nat, b: nat, x: nat, w: nat, so: nat, sn: nat)
    requires Equal(s, c, a, x, w) && Poised(s, c, f, g, a, b, w, so, sn) && Twins(s, c, x, w)
    requires f.Keys !! RegionMap(s, c, x, w).Keys
    ensures Continues(s, c, f, RegionMap(s, c, x, w), a, b, x, w)
  {
    hide NodesEqual, Chosen;
    SpineEdge(s, c, b, w);
    PairFacts(s, c, w);
  }

  lemma PlainFacts(s: Heap, c: Cert, f: Nodes, g: Nodes, a: nat, b: nat, x: nat, w: nat, so: nat, sn: nat)
    requires Equal(s, c, a, x, w) && !IsKind(s, w, Fork) && Poised(s, c, f, g, a, b, w, so, sn)
    ensures Onward(s, c, f, g, b, x, w, so, sn)
  {
    hide NodesEqual, Chosen, Edges, Parents, Pairs, Nested, Leaves, Inverse, UpClosed, Labelled, Ranked, Forward, Whole;
    EqualKinds(s, c, x, w);
    assert a < |s|;
    MatchedPlain(s, c, f, g, a, b, so, sn, x, w);
    SpineEdge(s, c, a, x);
    SpineEdge(s, c, b, w);
    NotYet(s, c, f, g, a, b, so, sn, {w}, {x});
  }

  lemma ForkStep(s: Heap, c: Cert, f: Nodes, g: Nodes, a: nat, b: nat, x: nat, w: nat, so: nat, sn: nat)
    requires Equal(s, c, a, x, w) && IsKind(s, w, Fork) && Poised(s, c, f, g, a, b, w, so, sn)
    ensures b < |s| && Sized(s, c) && Twins(s, c, x, w) && c.root[x] == so && c.root[w] == sn && so != sn
    ensures Pair(s, w) < |s| && c.rank[Pair(s, w)] < c.rank[b] && !IsKind(s, Pair(s, w), End)
    ensures f.Keys !! RegionMap(s, c, x, w).Keys && g.Keys !! RegionBack(s, c, x, w).Keys
    ensures Matched(s, c, f + RegionMap(s, c, x, w), g + RegionBack(s, c, x, w), Pair(s, x), Pair(s, w), so, sn)
  {
    MatchedFork(s, c, f, g, a, b, so, sn, x, w);
    SpineEdge(s, c, a, x);
    SpineEdge(s, c, b, w);
    RegionsFresh(s, c, f, g, a, b, so, sn, x, w);
    PairFacts(s, c, w);
    assert c.root[a] == so && c.root[b] == sn;
  }

  lemma NextFacts(h: Heap, c: Cert, f: Nodes, g: Nodes, a: nat, b: nat, so: nat, sn: nat) returns (n: nat)
    requires Matched(h, c, f, g, a, b, so, sn) && so != sn && Lone(h, c, sn) && !IsKind(h, b, End)
    ensures Poised(h, c, f, g, a, b, n, so, sn) && a < |h| && b < |h| && h[a].data.Tok? && n in h[b].to && a in g
    ensures n != LoopStop(h, b)
    ensures forall v | Way(h, b, v) :: v == n || v == LoopStop(h, b)
  {
    assert c.root[b] == sn && h[b].data.Tok?;
    n :| OnlyNext(h, b, n);
  }

  /** Counting `a` and then merging below it. */
  lemma HereDone(h: Heap, k: Heap, h': Heap, c: Cert, a: nat, g: Nodes, g': Nodes)
    requires Updated(k, h', c, None, g, g') && Cores(k) == Cores(h) && a in g && CountedUp(h, k, a)
    ensures Updated(h, h', c, Some(a), g, g')
  {
    SameForks(h, k);
    UpdatedHere(h, k, h', c, a, g, g');
  }

  lemma PlacedMore(s: Heap, owned: seq<nat>, spare: seq<Option<nat>>, s': Heap, owned': seq<nat>, spare': seq<Option<nat>>,
                   c: Cert, f: Nodes, g: Nodes, e: Nodes, d: Nodes, r: Spot, so: nat, sn: nat, a: nat, b: nat, x: nat, w: nat)
    requires Placed(s, owned, spare, s', owned', spare', c, f + e, g + d, r, so, sn) && f.Keys !! e.Keys && g.Keys !! d.Keys
    requires Continues(s, c, f, e, a, b, x, w)
    ensures Placed(s, owned, spare, s', owned', spare', c, f, g, r, so, sn)
    ensures Joined(s, c, s', r.f, r.g, r.a, r.b, r.n, so, sn) && Extends(g + d, r.g)
  {
    hide Joined, HandedOver, Unmatched, Greedy, Furthest, Continues;
    GreedyMore(s, c, f, e, r.f, a, b, x, w);
    forall v | v in f
      ensures v in r.f && r.f[v] == f[v]
    {
      assert v in f + e;
    }
    forall u | u in g
      ensures u in r.g && r.g[u] == g[u]
    {
      assert u in g + d;
    }
  }

  /** Once the successor is merged, only loops are left to look at. */
  lemma RestLoops(k: Heap, h': Heap, c: Cert, f: Nodes, g: Nodes, a: nat, b: nat, n: nat, j: nat,
                  owned: seq<nat>, spare: seq<Option<nat>>, owned': seq<nat>, spare': seq<Option<nat>>, r: Spot, so: nat, sn: nat)
    requires Placed(Cores(k), owned, spare, Cores(h'), owned', spare', c, f, g, r, so, sn)
    requires Poised(Cores(k), c, f, g, a, b, n, so, sn) && b < |k| && j < |k[b].to| && k[b].to[j] == n
    ensures |h'| == |k| && |h'[b].to| <= |k[b].to|
    ensures forall i | j + 1 <= i < |h'[b].to| :: h'[b].to[i] == LoopStop(h', b)
  {
    hide Joined, Poised, HandedOver, Unmatched, Extends, Greedy, Furthest;
    var s, s' := Cores(k), Cores(h');
    JoinedFacts(s, c, s', r.f, r.g, r.a, r.b, r.n, so, sn);
    PoisedFacts(s, c, f, g, a, b, n, so, sn);
    LinksSame(h');
    SameKinds(s, s');
    if r.b == b {
      assert Way(s, b, r.n) && r.n == n;
      OneLeft(s, s', b, n, r.a);
    }
    forall i | j + 1 <= i < |h'[b].to|
      ensures h'[b].to[i] == LoopStop(h', b)
    {
      var v := s'[b].to[i];
      if r.b == b {
        assert v in s'[b].to;
      } else {
        assert s'[b] == s[b] && s[b].to[i] == v && v != s[b].to[j];
      }
      assert Way(s, b, v) && v != n;
      assert LoopStop(s', b) == LoopStop(h', b);
    }
  }

  lemma OneLeft(s: Heap, s': Heap, b: nat, n: nat, a: nat)
    requires Attached(s, s', a, b, n) && n in s[b].to && forall v | Way(s, b, v) :: v == n || v == LoopStop(s, b)
    ensures |s'[b].to| <= |s[b].to|
  {
    var t := s'[b].to;
    assert |t| > 1 ==> t[0] != t[1];
    forall i | 0 <= i < |s'[b].to|
      ensures s'[b].to[i] == LoopStop(s, b)
    {
      assert s'[b].to[i] in s'[b].to;
      assert Way(s, b, s'[b].to[i]);
    }
  }

  lemma JoinedFacts(h: Heap, c: Cert, h': Heap, f: Nodes, g: Nodes, a: nat, b: nat, n: nat, so: nat, sn: nat)
    requires Joined(h, c, h', f, g, a, b, n, so, sn)
    ensures Attached(h, h', a, b, n) && OnlyNext(h, b, n) && Sized(h, c) && c.root[a] == so
  {
  }

  lemma PoisedFacts(h: Heap, c: Cert, f: Nodes, g: Nodes, a: nat, b: nat, n: nat, so: nat, sn: nat)
    requires Poised(h, c, f, g, a, b, n, so, sn)
    ensures Sized(h, c) && b < |h| && c.root[b] == sn && so != sn && OnlyNext(h, b, n) && Distinct(h[b].to)
  {
  }

  /** Lowering one attribute and then merging below its node. */
  lemma PlainDone(h: Heap, k: Heap, h': Heap, s: Heap, s': Heap, c: Cert, f: Nodes, g: Nodes, x: nat, w: nat, r: Spot,
                  so: nat, sn: nat)
    requires s == Cores(h) == Cores(k) && x !in g && Matched(s, c, f + Single(w, x), g + Single(x, w), x, w, so, sn)
    requires Joined(s, c, s', r.f, r.g, r.a, r.b, r.n, so, sn) && Extends(g + Single(x, w), r.g)
    requires Updated(k, h', c, Some(x), g + Single(x, w), r.g)
    requires Eased(h, k, x, w)
    ensures Updated(h, h', c, None, g, r.g)
  {
    hide Joined, Matched, Spine, Updated, Decided, Shared, Eased, Extends;
    SameForks(h, k);
    MatchedEnds(s, c, f + Single(w, x), g + Single(x, w), x, w, so, sn);
    DecidedPlain(s, c, x, w, r, s', so, sn);
    PlainShared(h, k, c, s, x, w);
    ExtendsFacts(g + Single(x, w), r.g);
    UpdatedFurther(h, k, h', c, g, Single(x, w), r.g, x);
  }

  lemma MatchedEnds(h: Heap, c: Cert, f: Nodes, g: Nodes, a: nat, b: nat, so: nat, sn: nat)
    requires Matched(h, c, f, g, a, b, so, sn)
    ensures Sized(h, c) && Spine(h, c, a) && Spine(h, c, b) && c.root[a] == so && c.root[b] == sn
  {
  }

  lemma ExtendsFacts(f: Nodes, f': Nodes)
    requires Extends(f, f')
    ensures forall v | v in f :: v in f' && f'[v] == f[v]
  {
  }

  lemma PlainShared(h: Heap, k: Heap, c: Cert, s: Heap, x: nat, w: nat)
    requires s == Cores(h) && Spine(s, c, x) && Spine(s, c, w) && Eased(h, k, x, w)
    ensures Shared(h, k, c, Single(x, w)) && MainLine(h, c, x)
  {
    LinksSame(h);
    assert IsKind(s, x, Fork) <==> IsKind(h, x, Fork);
  }

  lemma SameForks(h: Heap, k: Heap)
    requires Cores(h) == Cores(k)
    ensures |h| == |k| && forall u | 0 <= u < |h| :: IsKind(k, u, Fork) <==> IsKind(h, u, Fork)
  {
    LinksSame(h);
    LinksSame(k);
    forall u: nat | u < |h|
      ensures IsKind(k, u, Fork) <==> IsKind(h, u, Fork)
    {
      assert IsKind(Cores(h), u, Fork) <==> IsKind(h, u, Fork);
      assert IsKind(Cores(k), u, Fork) <==> IsKind(k, u, Fork);
    }
  }

  /** A new node's governor is a new node. */
  lemma GovernorRoot(h: Heap, c: Cert, u: nat)
    requires Shape(h, c) && u < |h|
    ensures Governor(c, u) < |h| && c.root[Governor(c, u)] == c.root[u]
  {
    if |c.ctx[u]| > 0 {
      assert IsKind(h, c.ctx[u][0], Fork);
    }
  }

  lemma GovernedApart(h: Heap, c: Cert, d: Nodes, r: Spot, h': Heap, so: nat, sn: nat)
    requires Joined(h, c, h', r.f, r.g, r.a, r.b, r.n, so, sn)
    requires forall u | u in d :: u < |h| && c.root[u] == so
    ensures forall u | u in r.g :: u < |h| && Governor(c, r.g[u]) !in d
  {
    forall u | u in r.g
      ensures u < |h| && Governor(c, r.g[u]) !in d
    {
      assert r.g[u] in r.f && r.f[r.g[u]] == u;
      GovernorRoot(h, c, r.g[u]);
    }
  }

  lemma DecidedPlain(h: Heap, c: Cert, x: nat, w: nat, r: Spot, h': Heap, so: nat, sn: nat)
    requires Joined(h, c, h', r.f, r.g, r.a, r.b, r.n, so, sn) && Spine(h, c, x) && c.root[x] == so
    ensures Decided(c, Single(x, w), r.g)
  {
    var d: Nodes := Single(x, w);
    GovernedApart(h, c, d, r, h', so, sn);
    forall u | u in r.g && u != x
      ensures Governor(c, u) != x
    {
      if |c.ctx[u]| > 0 {
        assert IsKind(h, c.ctx[u][0], Fork);
      }
    }
  }

  lemma DecidedFork(h: Heap, c: Cert, x: nat, w: nat, r: Spot, h': Heap, so: nat, sn: nat)
    requires Joined(h, c, h', r.f, r.g, r.a, r.b, r.n, so, sn) && Twins(h, c, x, w) && c.root[x] == so
    ensures Decided(c, RegionBack(h, c, x, w), r.g)
  {
    hide Joined, Twins, Shape, Governor;
    var d := RegionBack(h, c, x, w);
    TwinsShape(h, c, x, w);
    forall u | u in d
      ensures u < |h| && c.root[u] == so
    {
      RegionBelow(h, c, x, u);
    }
    GovernedApart(h, c, d, r, h', so, sn);
    forall u | u in r.g && u !in d
      ensures Governor(c, u) !in d
    {
      OtherGovernor(h, c, x, u);
    }
  }

  lemma TwinsShape(h: Heap, c: Cert, x: nat, w: nat)
    requires Twins(h, c, x, w)
    ensures Outermost(h, c, x) && Sized(h, c)
  {
  }

  /** What lies outside the region of a FORK is not decided in it. */
  lemma OtherGovernor(h: Heap, c: Cert, f: nat, u: nat)
    requires Outermost(h, c, f) && u < |h| && !Region(h, c, f, u)
    ensures Governor(c, u) < |h| && !Region(h, c, f, Governor(c, u))
  {
    PairFacts(h, c, f);
    if |c.ctx[u]| > 0 {
      assert IsKind(h, c.ctx[u][0], Fork) && c.ctx[c.ctx[u][0]] == c.ctx[u][..0];
    }
  }

  /** Sharing a FORK and then merging below its JOIN. */
  lemma ForkDone(h: Heap, k: Heap, h': Heap, s: Heap, s': Heap, c: Cert, f: Nodes, g: Nodes, x: nat, w: nat, r: Spot,
                 so: nat, sn: nat)
    requires s == Cores(h) == Cores(k) && Twins(s, c, x, w) && c.root[x] == so && g.Keys !! RegionBack(s, c, x, w).Keys
    requires Joined(s, c, s', r.f, r.g, r.a, r.b, r.n, so, sn) && Extends(g + RegionBack(s, c, x, w), r.g)
    requires Updated(k, h', c, Some(Pair(s, x)), g + RegionBack(s, c, x, w), r.g) && Shared(h, k, c, RegionBack(s, c, x, w))
    ensures Updated(h, h', c, None, g, r.g)
  {
    hide Joined, Twins, RegionBack, Updated, Decided, Shared, Extends, MainLine;
    var d := RegionBack(s, c, x, w);
    SameForks(h, k);
    DecidedFork(s, c, x, w, r, s', so, sn);
    MainLines(s, c, h, x, w);
    ExtendsFacts(g + d, r.g);
    UpdatedFurther(h, k, h', c, g, d, r.g, Pair(s, x));
  }

  lemma MainLines(s: Heap, c: Cert, h: Heap, x: nat, w: nat)
    requires s == Cores(h) && Twins(s, c, x, w)
    ensures Pair(s, x) in RegionBack(s, c, x, w)
    ensures forall u | u in RegionBack(s, c, x, w) :: u == Pair(s, x) <==> MainLine(h, c, u)
  {
    PairFacts(s, c, x);
    LinksSame(h);
    forall u | u in RegionBack(s, c, x, w)
      ensures u == Pair(s, x) <==> MainLine(h, c, u)
    {
      assert IsKind(s, u, Fork) <==> IsKind(h, u, Fork);
    }
  }
}
