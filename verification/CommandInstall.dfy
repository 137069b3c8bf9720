/** Installing commands: whole merges, and any number of them. */
module CommandInstall {
  import opened Wrappers
  import opened Lists
  import opened Tokens
  import opened CommandTree
  import opened MergeShape
  import opened MergeEqual
  import opened MergeFork
  import opened MergeMatch
  import opened MergePaths
  import opened MergeKeeps
  import opened MergeReach
  import opened MergeUpdate
  import opened CommandMerge

  /** A start node as it is made: it has no name and does not repeat. */
  ghost predicate StartNode(h: Heap, s: nat) {
    IsKind(h, s, Start) && !h[s].data.token.allowRepeat && h[s].data.token.varname.None?
  }

  /** Every node is in the graph of a start node. */
  lemma {:induction false} RootStarts(h: Heap, c: Cert, v: nat)
    requires Shape(h, c) && v < |h|
    ensures c.root[v] < |h| && IsKind(h, c.root[v], Start) && c.root[c.root[v]] == c.root[v]
    decreases c.top - c.rank[v]
  {
    assert HasParent(h, c, v);
    if !IsKind(h, v, Start) {
      var p, i := c.par[v], c.pos[v];
      assert h[p].to[i] == v && Down(h, c, p, i, v);
      RootStarts(h, c, p);
    }
  }

  /** A merge begins with the two start nodes matched. */
  lemma StartsMatch(h: Heap, c: Cert, so: nat, sn: nat)
    requires Shape(h, c) && StartNode(h, so) && StartNode(h, sn)
    ensures Matched(h, c, Single(sn, so), Single(so, sn), so, sn, so, sn) && !IsKind(h, sn, End)
  {
    assert HasParent(h, c, so) && HasParent(h, c, sn);
    StartUp(h, c, so, sn);
    StartUp(h, c, sn, so);
    PlainWhole(h, c, sn, so);
    PlainForward(h, c, sn, so);
  }

  lemma NoWayBack(h: Heap, c: Cert)
    requires Shape(h, c)
    ensures forall p: nat, v: nat {:trigger Way(h, p, v)} | Way(h, p, v) :: !IsKind(h, v, Start)
  {
    forall p: nat, v: nat | Way(h, p, v)
      ensures !IsKind(h, v, Start)
    {
      var i :| 0 <= i < |h[p].to| && h[p].to[i] == v;
    }
  }

  lemma StartUp(h: Heap, c: Cert, s: nat, t: nat)
    requires Shape(h, c) && IsKind(h, s, Start)
    ensures UpClosed(h, Single(s, t))
  {
    NoWayBack(h, c);
  }

  /** The graph `y` belongs to after merging the graph of `sn` into that of `so`. */
  ghost function Home(c: Cert, so: nat, sn: nat, y: nat): nat
    requires y < |c.root|
  {
    if c.root[y] == sn then so else c.root[y]
  }

  /** What a merge is for: each command node is reached, in the graph it belongs to
      now, by the paths that led to it in the graph it belonged to. */
  ghost predicate Preserved(h: Heap, c: Cert, h': Heap, c': Cert) {
    && |h'| == |h| == |c.root| == |c'.root|
    && (forall y | 0 <= y < |h| :: h'[y].data == h[y].data)
    && (forall y | 0 <= y < |h| && h[y].data.Cmd? :: Corresponds(h', c'.root[y], h, c.root[y], y))
  }

  lemma MergePreserves(h: Heap, c: Cert, h': Heap, r: Spot, so: nat, sn: nat)
    requires Joined(h, c, h', r.f, r.g, r.a, r.b, r.n, so, sn)
    ensures Sized(h, c) && r.a < |h| && r.n < |h|
    ensures var c' := Merged(h, c, r.f, r.a, r.n, so, sn);
            && Shape(h', c') && Preserved(h, c, h', c')
            && forall y | 0 <= y < |h| && h[y].data.Cmd? :: c'.root[y] == Home(c, so, sn, y)
  {
    hide Corresponds, Shape;
    ShapeKept(h, c, h', r.f, r.g, r.a, r.b, r.n, so, sn);
    var c' := Merged(h, c, r.f, r.a, r.n, so, sn);
    AllLabels(h, c, h', r, so, sn);
    forall y: nat | y < |h| && h[y].data.Cmd?
      ensures c'.root[y] == Home(c, so, sn, y) && Corresponds(h', c'.root[y], h, c.root[y], y)
    {
      CommandKept(h, c, h', r, so, sn, y);
    }
  }

  lemma AllLabels(h: Heap, c: Cert, h': Heap, r: Spot, so: nat, sn: nat)
    requires Joined(h, c, h', r.f, r.g, r.a, r.b, r.n, so, sn)
    ensures |h'| == |h| && forall y | 0 <= y < |h| :: h'[y].data == h[y].data
  {
  }

  lemma CommandKept(h: Heap, c: Cert, h': Heap, r: Spot, so: nat, sn: nat, y: nat)
    requires Joined(h, c, h', r.f, r.g, r.a, r.b, r.n, so, sn) && y < |h| && h[y].data.Cmd?
    ensures Sized(h, c) && |h'| == |h| && y !in r.f && h'[y].data == h[y].data
    ensures Corresponds(h', Home(c, so, sn, y), h, c.root[y], y)
  {
    JoinedShape(h, c, h', r, so, sn, y);
    hide Joined, Corresponds;
    RootStarts(h, c, y);
    MergeExact(h, c, h', r.f, r.g, r.a, r.b, r.n, so, sn, y);
  }

  lemma JoinedShape(h: Heap, c: Cert, h': Heap, r: Spot, so: nat, sn: nat, y: nat)
    requires Joined(h, c, h', r.f, r.g, r.a, r.b, r.n, so, sn) && y < |h| && h[y].data.Cmd?
    ensures Shape(h, c) && |h'| == |h| && y !in r.f && h'[y].data == h[y].data
  {
  }

  /** Graphs not involved stay single commands. */
  lemma LoneKept(h: Heap, c: Cert, h': Heap, r: Spot, so: nat, sn: nat, s: nat)
    requires Joined(h, c, h', r.f, r.g, r.a, r.b, r.n, so, sn) && Lone(h, c, s) && s != so && s != sn
    ensures Sized(h, c) && r.a < |h| && r.n < |h| && Lone(h', Merged(h, c, r.f, r.a, r.n, so, sn), s)
  {
    BelowMatch(h, c, h', r.f, r.g, r.a, r.b, r.n, so, sn);
    var c' := Merged(h, c, r.f, r.a, r.n, so, sn);
    SameKinds(h, h');
    forall u: nat | u < |h'| && c'.root[u] == s && Spine(h', c', u) && h'[u].data.Tok? && !IsKind(h', u, End)
      ensures exists w :: OnlyNext(h', u, w)
    {
      assert c.root[u] == s && h'[u] == h[u] && Spine(h, c, u);
      var w :| OnlyNext(h, u, w);
      assert forall v :: Way(h', u, v) <==> Way(h, u, v);
      assert OnlyNext(h', u, w);
    }
  }

  /** Merging the graph of `sn` into that of `so` keeps all paths, to whatever node: the
      merged graph has those of both, and other graphs have theirs. */
  ghost predicate Walked(h: Heap, h': Heap, so: nat, sn: nat) {
    && Carried(h, so, h', so) && Carried(h, sn, h', so) && Sourced(h, [so, sn], h', so)
    && forall r | IsKind(h, r, Start) && r != so && r != sn :: Carried(h, r, h', r) && Carried(h', r, h, r)
  }

  lemma MergeWalks(h: Heap, c: Cert, h': Heap, r: Spot, so: nat, sn: nat)
    requires Joined(h, c, h', r.f, r.g, r.a, r.b, r.n, so, sn) && IsKind(h, so, Start) && so != sn
    ensures Walked(h, h', so, sn)
  {
    hide Joined, Path, Alike, Carried, IsKind;
    OtherWalks(h, c, h', r.f, r.g, r.a, r.b, r.n, so, sn, so);
    assert Carried(h, sn, h', so) by {
      NewWalks(h, c, h', r, so, sn);
    }
    forall p | Path(h', so, p)
      ensures Source(h, [so, sn], h', p)
    {
      MergedWalk(h, c, h', r.f, r.g, r.a, r.b, r.n, so, sn, p);
    }
    forall x | IsKind(h, x, Start) && x != so && x != sn
      ensures Carried(h, x, h', x) && Carried(h', x, h, x)
    {
      OtherWalks(h, c, h', r.f, r.g, r.a, r.b, r.n, so, sn, x);
    }
  }

  lemma NewWalks(h: Heap, c: Cert, h': Heap, r: Spot, so: nat, sn: nat)
    requires Joined(h, c, h', r.f, r.g, r.a, r.b, r.n, so, sn)
    ensures Carried(h, sn, h', so)
  {
    hide Joined, Path, Alike;
    forall q | Path(h, sn, q)
      ensures exists p :: Path(h', so, p) && Alike(h, q, h', p)
    {
      var p := NewWalk(h, c, h', r.f, r.g, r.a, r.b, r.n, so, sn, q);
    }
  }

  /** The heap has its shape, the commands keep their paths, and those of the new
      graph are in the old one. */
  ghost predicate MergedInto(h: Heap, c: Cert, h': Heap, c': Cert, so: nat, sn: nat) {
    && Shape(h', c') && Preserved(h, c, h', c')
    && (forall y | 0 <= y < |h| && h[y].data.Cmd? :: c'.root[y] == Home(c, so, sn, y))
    && (Tame(h) ==> Tame(h')) && Walked(h, h', so, sn)
  }

  /** Other graphs can be merged as before. */
  ghost predicate Lasting(h: Heap, c: Cert, h': Heap, c': Cert, so: nat, sn: nat) {
    && (forall s | s != so && s != sn && Lone(h, c, s) :: Lone(h', c', s))
    && (forall s | StartNode(h, s) :: StartNode(h', s))
  }

  /** Merges the graph that starts at `sn` into the one that starts at `so`. */
  method GraphMerge(m: Merger, ghost c: Cert, so: nat, sn: nat) returns (ghost c': Cert, ghost r: Spot)
    requires Shape(m.K(), c) && StartNode(m.K(), so) && StartNode(m.K(), sn) && so != sn && Lone(m.K(), c, sn) && m.Lists()
    modifies m
    ensures HandedOver(old(m.owned), old(m.spare), m.owned, m.spare, Unmatched(old(m.K()), c, r.f, sn))
    ensures Updated(old(m.nodes), m.nodes, c, Some(so), Single(so, sn), r.g)
    ensures Joined(old(m.K()), c, m.K(), r.f, r.g, r.a, r.b, r.n, so, sn) && Severed(m.K(), r.f)
    ensures Greedy(old(m.K()), c, Single(sn, so), r.f) && Furthest(old(m.K()), c, r.a, r.n)
    ensures MergedInto(old(m.K()), c, m.K(), c', so, sn) && Lasting(old(m.K()), c, m.K(), c', so, sn)
  {
    hide Shape, Lone, Joined, Preserved, Updated, HandedOver, Unmatched, Matched, Greedy, Furthest, Severed, Tame, Walked;
    ghost var h := m.K();
    StartsMatch(h, c, so, sn);
    r := m.MergeNodes(c, Single(sn, so), Single(so, sn), so, sn, so, sn);
    PlacedJoined(h, old(m.owned), old(m.spare), m.K(), m.owned, m.spare, c, r, so, sn);
    MergePreserves(h, c, m.K(), r, so, sn);
    MergeWalks(h, c, m.K(), r, so, sn);
    SeveredNow(h, c, m.K(), r.f, r.g, r.a, r.b, r.n, so, sn);
    if Tame(h) {
      TameKept(h, c, m.K(), r.f, r.g, r.a, r.b, r.n, so, sn);
    }
    c' := Merged(h, c, r.f, r.a, r.n, so, sn);
    forall s: nat | s != so && s != sn && Lone(h, c, s)
      ensures Lone(m.K(), c', s)
    {
      LoneKept(h, c, m.K(), r, so, sn, s);
    }
  }

  lemma PlacedJoined(h: Heap, owned: seq<nat>, spare: seq<Option<nat>>, h': Heap, owned': seq<nat>, spare': seq<Option<nat>>,
                     c: Cert, r: Spot, so: nat, sn: nat)
    requires Placed(h, owned, spare, h', owned', spare', c, Single(sn, so), Single(so, sn), r, so, sn)
    ensures Sized(h, c) && Joined(h, c, h', r.f, r.g, r.a, r.b, r.n, so, sn)
    ensures HandedOver(owned, spare, owned', spare', Unmatched(h, c, r.f, sn))
    ensures Greedy(h, c, Single(sn, so), r.f) && Furthest(h, c, r.a, r.n)
    ensures |h'| == |h| && forall u | 0 <= u < |h| :: h'[u].data == h[u].data
  {
  }

  /** Where a command is after the first `n` graphs were merged into that of `so`. */
  ghost function HomeAfter(c: Cert, so: nat, starts: seq<nat>, n: nat, y: nat): nat
    requires y < |c.root| && n <= |starts|
  {
    if c.root[y] in starts[..n] then so else c.root[y]
  }

  /** After `n` merges: the merged graph has the paths of the graphs merged, and those
      still to be merged have theirs. */
  ghost predicate WalkedAll(h0: Heap, h: Heap, so: nat, starts: seq<nat>, n: nat)
    requires n <= |starts|
  {
    && (forall s | s in [so] + starts[..n] :: Carried(h0, s, h, so))
    && Sourced(h0, [so] + starts[..n], h, so)
    && forall k | n <= k < |starts| ::
         IsKind(h, starts[k], Start) && Carried(h0, starts[k], h, starts[k]) && Carried(h, starts[k], h0, starts[k])
  }

  lemma WalkedStep(h0: Heap, h: Heap, h': Heap, so: nat, starts: seq<nat>, n: nat)
    requires n < |starts| && WalkedAll(h0, h, so, starts, n) && Walked(h, h', so, starts[n])
    requires so !in starts && Distinct(starts)
    requires |h'| == |h| && forall y | 0 <= y < |h| :: h'[y].data == h[y].data
    ensures WalkedAll(h0, h', so, starts, n + 1)
  {
    hide Carried, Sourced;
    var ss, sn, more := [so] + starts[..n], starts[n], [so] + starts[..n + 1];
    assert more == ss + [sn];
    forall s | s in more
      ensures Carried(h0, s, h', so)
    {
      if s in ss {
        CarriedTransitive(h0, s, h, so, h', so);
      } else {
        CarriedTransitive(h0, sn, h, sn, h', so);
      }
    }
    MoreSources(h0, ss, h, so, more);
    CarriedSourced(h0, sn, h, sn, more);
    SourcedTransitive(h0, more, h, [so, sn], h', so);
    forall k | n + 1 <= k < |starts|
      ensures IsKind(h', starts[k], Start) && Carried(h0, starts[k], h', starts[k]) && Carried(h', starts[k], h0, starts[k])
    {
      var s := starts[k];
      assert s != so && s != sn && IsKind(h, s, Start);
      CarriedTransitive(h0, s, h, s, h', s);
      CarriedTransitive(h', s, h, s, h0, s);
    }
  }

  lemma WalkedNone(h: Heap, c: Cert, so: nat, starts: seq<nat>)
    requires Shape(h, c) && IsKind(h, so, Start) && forall s | s in starts :: IsKind(h, s, Start)
    ensures WalkedAll(h, h, so, starts, 0)
  {
    hide Shape, Carried, Sourced;
    assert [so] + starts[..0] == [so];
    forall s: nat | s < |h|
      ensures Carried(h, s, h, s)
    {
      CarriedSelf(h, c, s);
    }
    CarriedSourced(h, so, h, so, [so]);
  }

  lemma CarriedSelf(h: Heap, c: Cert, s: nat)
    requires Shape(h, c) && s < |h|
    ensures Carried(h, s, h, s)
  {
    hide Shape, Alike, Path;
    forall p | Path(h, s, p)
      ensures Alike(h, p, h, p)
    {
      AlikeSelf(h, c, h, s, p);
    }
  }

  /** After `n` merges: every command is reached by the paths it had at first. */
  ghost predicate Installed(h0: Heap, c0: Cert, h: Heap, c: Cert, so: nat, starts: seq<nat>, n: nat)
    requires n <= |starts|
  {
    && Shape(h, c) && Preserved(h0, c0, h, c)
    && (forall y | 0 <= y < |h0| && h0[y].data.Cmd? :: c.root[y] == HomeAfter(c0, so, starts, n, y))
    && (Tame(h0) ==> Tame(h)) && WalkedAll(h0, h, so, starts, n)
  }

  lemma InstalledStep(h0: Heap, c0: Cert, h: Heap, c: Cert, h': Heap, c': Cert, so: nat, starts: seq<nat>, n: nat)
    requires n < |starts| && Installed(h0, c0, h, c, so, starts, n) && MergedInto(h, c, h', c', so, starts[n])
    requires so !in starts && Distinct(starts)
    ensures Installed(h0, c0, h', c', so, starts, n + 1)
  {
    hide Shape, Corresponds, Tame, Walked, WalkedAll;
    WalkedStep(h0, h, h', so, starts, n);
    assert starts[..n + 1] == starts[..n] + [starts[n]];
    forall y: nat | y < |h0| && h0[y].data.Cmd?
      ensures Corresponds(h', c'.root[y], h0, c0.root[y], y)
      ensures c'.root[y] == HomeAfter(c0, so, starts, n + 1, y)
    {
      assert h[y].data.Cmd? && h'[y].data == h[y].data;
      assert Corresponds(h', c'.root[y], h, c.root[y], y) && Corresponds(h, c.root[y], h0, c0.root[y], y);
      CorrespondsTransitive(h', c'.root[y], h, c.root[y], h0, c0.root[y], y);
    }
  }

  lemma CorrespondsSelf(h: Heap, c: Cert, s: nat, y: nat)
    requires Shape(h, c) && s < |h|
    ensures Corresponds(h, s, h, s, y)
  {
    forall p | PathTo(h, s, p, y)
      ensures Alike(h, p, h, p)
    {
      AlikeSelf(h, c, h, s, p);
    }
    assert Paired(h, s, h, s, y, (p: seq<nat>) => p, (q: seq<nat>) => q);
  }

  lemma InstalledNone(h: Heap, c: Cert, so: nat, starts: seq<nat>)
    requires Shape(h, c) && IsKind(h, so, Start) && forall s | s in starts :: IsKind(h, s, Start)
    ensures Installed(h, c, h, c, so, starts, 0)
  {
    WalkedNone(h, c, so, starts);
    hide WalkedAll;
    forall y: nat | y < |h|
      ensures Corresponds(h, c.root[y], h, c.root[y], y)
    {
      RootStarts(h, c, y);
      CorrespondsSelf(h, c, c.root[y], y);
    }
    hide Corresponds, Shape;
  }

  /** The graphs still to be merged are intact, and their nodes not owned yet. */
  ghost predicate Waiting(h: Heap, c: Cert, owned: seq<nat>, starts: seq<nat>, lists: seq<seq<Option<nat>>>, n: nat) {
    && |lists| == |starts| && Distinct(owned)
    && (forall k | n <= k < |starts| :: StartNode(h, starts[k]) && Lone(h, c, starts[k]))
    && (forall k | n <= k < |starts| :: Apart(owned, lists[k]))
    && (forall i, j, u | n <= i < j < |starts| && u in Slots(lists[i]) :: u !in Slots(lists[j]))
  }

  lemma WaitingStep(h: Heap, c: Cert, h': Heap, c': Cert, owned: seq<nat>, owned': seq<nat>, spare': seq<Option<nat>>,
                    so: nat, starts: seq<nat>, lists: seq<seq<Option<nat>>>, n: nat, m: set<nat>)
    requires n < |starts| && Waiting(h, c, owned, starts, lists, n) && Lasting(h, c, h', c', so, starts[n])
    requires HandedOver(owned, lists[n], owned', spare', m)
    requires so !in starts && Distinct(starts)
    ensures Waiting(h', c', owned', starts, lists, n + 1)
  {
    forall k | n + 1 <= k < |starts|
      ensures StartNode(h', starts[k]) && Lone(h', c', starts[k]) && Apart(owned', lists[k])
    {
      assert starts[k] != so && starts[k] != starts[n];
    }
  }

  /** Installs any number of commands one after the other.  In the end each command,
      old or new, is reached by exactly the paths it had in its own graph. */
  method InstallAll(m: Merger, ghost c: Cert, so: nat, starts: seq<nat>, lists: seq<seq<Option<nat>>>) returns (ghost c': Cert)
    requires Shape(m.K(), c) && StartNode(m.K(), so) && so !in starts && Distinct(starts)
    requires Waiting(m.K(), c, m.owned, starts, lists, 0)
    modifies m
    ensures Installed(old(m.K()), c, m.K(), c', so, starts, |starts|)
  {
    hide Shape, Lone, Joined, Updated, HandedOver, Unmatched, Installed, Waiting, Lasting, MergedInto;
    ghost var h0 := m.K();
    WaitingStarts(h0, c, m.owned, starts, lists);
    InstalledNone(h0, c, so, starts);
    c' := c;
    for i := 0 to |starts|
      invariant Installed(h0, c, m.K(), c', so, starts, i) && StartNode(m.K(), so)
      invariant Waiting(m.K(), c', m.owned, starts, lists, i)
    {
      ghost var h, d, owned := m.K(), c', m.owned;
      InstalledShape(h0, c, h, d, so, starts, i);
      WaitingNow(h, d, owned, starts, lists, i, so);
      m.spare := lists[i];
      ghost var r;
      c', r := GraphMerge(m, d, so, starts[i]);
      InstalledStep(h0, c, h, d, m.K(), c', so, starts, i);
      WaitingStep(h, d, m.K(), c', owned, m.owned, m.spare, so, starts, lists, i, Unmatched(h, d, r.f, starts[i]));
      StillStart(h, d, m.K(), c', so, starts[i]);
    }
  }

  lemma WaitingStarts(h: Heap, c: Cert, owned: seq<nat>, starts: seq<nat>, lists: seq<seq<Option<nat>>>)
    requires Waiting(h, c, owned, starts, lists, 0)
    ensures forall s | s in starts :: IsKind(h, s, Start)
  {
    forall s | s in starts
      ensures IsKind(h, s, Start)
    {
      var k :| 0 <= k < |starts| && starts[k] == s;
    }
  }

  lemma InstalledShape(h0: Heap, c0: Cert, h: Heap, c: Cert, so: nat, starts: seq<nat>, n: nat)
    requires n <= |starts| && Installed(h0, c0, h, c, so, starts, n)
    ensures Shape(h, c)
  {
  }

  lemma WaitingNow(h: Heap, c: Cert, owned: seq<nat>, starts: seq<nat>, lists: seq<seq<Option<nat>>>, n: nat, so: nat)
    requires n < |starts| && Waiting(h, c, owned, starts, lists, n) && so !in starts
    ensures |lists| == |starts| && StartNode(h, starts[n]) && Lone(h, c, starts[n]) && Apart(owned, lists[n]) && starts[n] != so
  {
  }

  lemma StillStart(h: Heap, c: Cert, h': Heap, c': Cert, so: nat, sn: nat)
    requires Lasting(h, c, h', c', so, sn) && StartNode(h, so)
    ensures StartNode(h', so)
  {
  }
}
