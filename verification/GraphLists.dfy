/** Directed graphs whose nodes list both their successors and their predecessors. */
module GraphLists {
  import opened Lists

  /** How often `x` occurs in `s`. */
  ghost function Count(s: seq<nat>, x: nat): nat {
    multiset(s)[x]
  }

  lemma SwapRemoveCount(s: seq<nat>, i: nat)
    requires i < |s|
    ensures multiset(SwapRemove(s, i)) == multiset(s) - multiset{s[i]}
  {
    var last := s[|s| - 1];
    assert s == s[..|s| - 1] + [last];
    if i < |s| - 1 {
      var front := s[..|s| - 1];
      assert front == front[..i] + [s[i]] + front[i + 1..];
      assert SwapRemove(s, i) == front[..i] + [last] + front[i + 1..];
    } else {
      assert SwapRemove(s, i) == s[..|s| - 1];
    }
  }

  /** The last position of `x`, or the length if there is none. */
  method FindLast(s: seq<nat>, x: nat) returns (i: nat)
    ensures i <= |s| && (i < |s| ==> s[i] == x && x !in s[i + 1..]) && (i == |s| ==> x !in s)
  {
    var k := |s|;
    while k > 0
      invariant 0 <= k <= |s| && x !in s[k..]
    {
      k := k - 1;
      if s[k] == x {
        return k;
      }
    }
    i := |s|;
  }

  ghost predicate Symmetric(to: seq<seq<nat>>, from: seq<seq<nat>>) {
    && |to| == |from|
    && forall u, v {:trigger Count(to[u], v)} {:trigger Count(from[v], u)} | 0 <= u < |to| && 0 <= v < |to| ::
         Count(to[u], v) == Count(from[v], u)
  }

  ghost predicate Within(lists: seq<seq<nat>>) {
    forall u, v | 0 <= u < |lists| && v in lists[u] :: v < |lists|
  }

  class Graph {
    var to: seq<seq<nat>>
    var from: seq<seq<nat>>
    var nodes: seq<nat>

    /** Every edge is listed as often at its source as at its target. */
    ghost predicate Valid()
      reads this
    {
      Symmetric(to, from) && Within(to) && Within(from)
    }

    method AddEdge(u: nat, v: nat)
      requires Valid() && u < |to| && v < |to|
      modifies this`to, this`from
      ensures Valid() && to == old(to)[u := old(to[u]) + [v]] && from == old(from)[v := old(from[v]) + [u]]
    {
      to := to[u := to[u] + [v]];
      from := from[v := from[v] + [u]];
    }

    /** Removes one occurrence of the edge from both lists, if there is one. */
    method RemoveEdge(u: nat, v: nat)
      requires Valid() && u < |to| && v < |to|
      modifies this`to, this`from
      ensures Valid() && to == old(to)[u := Without(old(to[u]), v)] && from == old(from)[v := Without(old(from[v]), u)]
    {
      hide Symmetric, Within, Without, SwapRemove;
      RemovedSymmetric(to, from, u, v);
      WithoutAbsent(from[v], u);
      WithoutAbsent(to[u], v);
      var i := FindLast(from[v], u);
      if i < |from[v]| {
        WithoutAt(from[v], u, i);
        from := from[v := SwapRemove(from[v], i)];
      }
      assert from == old(from)[v := Without(old(from[v]), u)];
      var j := FindLast(to[u], v);
      if j < |to[u]| {
        WithoutAt(to[u], v, j);
        to := to[u := SwapRemove(to[u], j)];
      }
      assert to == old(to)[u := Without(old(to[u]), v)];
    }

    /** Removes all edges of a node, those into it first, and drops it from the list of
        nodes. */
    method DeleteNode(n: nat)
      requires Valid() && n < |to|
      modifies this
      ensures Valid() && |to| == |old(to)| && to[n] == [] && from[n] == []
      ensures forall u | 0 <= u < |to| :: n !in to[u] && n !in from[u]
      ensures Untouched(old(to), to, n)
      ensures multiset(nodes) == multiset(old(nodes)) - multiset{n}
    {
      hide Symmetric, Within, Without, Untouched, SwapRemove;
      ghost var was := to;
      UntouchedSelf(to, n);
      SameSize(to, from);
      var i := |from[n]|;
      while i > 0
        invariant Valid() && |to| == |was| && |from| == |was| && i == |from[n]| && Untouched(was, to, n) && nodes == old(nodes)
      {
        i := i - 1;
        var adj := from[n][i];
        WithinAt(from, n, i);
        WithoutLast(from[n]);
        UntouchedStep(was, to, n, adj, n);
        RemoveEdge(adj, n);
      }
      i := |to[n]|;
      while i > 0
        invariant Valid() && |to| == |was| && |from| == |was| && i == |to[n]| && from[n] == []
        invariant Untouched(was, to, n) && nodes == old(nodes)
      {
        i := i - 1;
        var adj := to[n][i];
        WithinAt(to, n, i);
        WithoutLast(to[n]);
        WithoutNothing(from[n]);
        UntouchedStep(was, to, n, n, adj);
        RemoveEdge(n, adj);
      }
      Isolated(to, from, n);
      var k := FindLast(nodes, n);
      if k < |nodes| {
        SwapRemoveCount(nodes, k);
        nodes := SwapRemove(nodes, k);
      }
    }
  }

  /** Edges between nodes other than `n` are as many as they were. */
  ghost predicate Untouched(was: seq<seq<nat>>, to: seq<seq<nat>>, n: nat) {
    && |to| == |was|
    && forall x, y | 0 <= x < |to| && 0 <= y < |to| && x != n && y != n :: Count(to[x], y) == Count(was[x], y)
  }

  lemma UntouchedSelf(to: seq<seq<nat>>, n: nat)
    ensures Untouched(to, to, n)
  {
  }

  lemma UntouchedStep(was: seq<seq<nat>>, to: seq<seq<nat>>, n: nat, u: nat, v: nat)
    requires Untouched(was, to, n) && u < |to| && (u == n || v == n)
    ensures Untouched(was, to[u := Without(to[u], v)], n)
  {
    hide Without;
    WithoutCount(to[u], v);
  }

  lemma SameSize(to: seq<seq<nat>>, from: seq<seq<nat>>)
    requires Symmetric(to, from)
    ensures |to| == |from|
  {
  }

  lemma WithinAt(lists: seq<seq<nat>>, u: nat, i: nat)
    requires Within(lists) && u < |lists| && i < |lists[u]|
    ensures lists[u][i] < |lists|
  {
    assert lists[u][i] in lists[u];
  }

  /** Removing the last element of a list removes just that. */
  lemma WithoutLast(s: seq<nat>)
    requires s != []
    ensures Without(s, s[|s| - 1]) == s[..|s| - 1]
  {
    WithoutAt(s, s[|s| - 1], |s| - 1);
  }

  lemma WithoutNothing(s: seq<nat>)
    requires s == []
    ensures forall x :: Without(s, x) == []
  {
  }

  /** A node without edges of its own is in no list. */
  lemma Isolated(to: seq<seq<nat>>, from: seq<seq<nat>>, n: nat)
    requires Symmetric(to, from) && n < |to| && to[n] == [] && from[n] == []
    ensures forall u | 0 <= u < |to| :: n !in to[u] && n !in from[u]
  {
    forall u: nat | u < |to|
      ensures n !in to[u] && n !in from[u]
    {
      assert Count(to[u], n) == Count(from[n], u) == 0;
      assert Count(from[u], n) == Count(to[n], u) == 0;
      assert n !in multiset(to[u]) && n !in multiset(from[u]);
    }
  }

  lemma RemovedSymmetric(to: seq<seq<nat>>, from: seq<seq<nat>>, u: nat, v: nat)
    requires Symmetric(to, from) && Within(to) && Within(from) && u < |to| && v < |to|
    ensures |from| == |to|
    ensures var to', from' := to[u := Without(to[u], v)], from[v := Without(from[v], u)];
            Symmetric(to', from') && Within(to') && Within(from')
  {
    hide Without;
    WithoutCount(to[u], v);
    WithoutCount(from[v], u);
    WithoutIn(to[u], v);
    WithoutIn(from[v], u);
    var to', from' := to[u := Without(to[u], v)], from[v := Without(from[v], u)];
    forall x: nat, y: nat | x < |to| && y < |to|
      ensures Count(to'[x], y) == Count(from'[y], x)
    {
      assert Count(to[x], y) == Count(from[y], x);
    }
  }

  /** `s` with the last occurrence of `x` swapped out. */
  function Without(s: seq<nat>, x: nat): seq<nat> {
    if x in s then SwapRemove(s, LastOf(s, x)) else s
  }

  function LastOf(s: seq<nat>, x: nat): (i: nat)
    requires x in s
    ensures i < |s| && s[i] == x && x !in s[i + 1..]
    decreases |s|
  {
    if s[|s| - 1] == x then |s| - 1
    else
      assert x in s[..|s| - 1];
      LastOf(s[..|s| - 1], x)
  }

  lemma WithoutAbsent(s: seq<nat>, x: nat)
    ensures x !in s ==> Without(s, x) == s
  {
  }

  lemma WithoutAt(s: seq<nat>, x: nat, i: nat)
    requires i < |s| && s[i] == x && x !in s[i + 1..]
    ensures Without(s, x) == SwapRemove(s, i)
  {
    var k := LastOf(s, x);
    assert forall m | i < m < |s| :: s[m] == s[i + 1..][m - i - 1];
    assert forall m | k < m < |s| :: s[m] == s[k + 1..][m - k - 1];
  }

  lemma WithoutCount(s: seq<nat>, x: nat)
    ensures multiset(Without(s, x)) == multiset(s) - multiset{x}
  {
    if x in s {
      SwapRemoveCount(s, LastOf(s, x));
    }
  }

  lemma WithoutIn(s: seq<nat>, x: nat)
    ensures forall y | y in Without(s, x) :: y in s
  {
    WithoutCount(s, x);
    forall y | y in Without(s, x)
      ensures y in s
    {
      assert y in multiset(Without(s, x));
    }
  }

  // ---- depth-first search ----

  /** A walk along edges from `s` to `t`. */
  ghost predicate Walk(to: seq<seq<nat>>, s: nat, t: nat, p: seq<nat>) {
    && |p| > 0 && p[0] == s && p[|p| - 1] == t
    && forall k | 0 <= k < |p| - 1 :: Step(to, p[k], p[k + 1])
  }

  ghost predicate Step(to: seq<seq<nat>>, u: nat, v: nat) {
    u < |to| && v in to[u]
  }

  ghost predicate Reachable(to: seq<seq<nat>>, s: nat, t: nat) {
    exists p :: Walk(to, s, t, p)
  }

  lemma ReachSelf(to: seq<seq<nat>>, s: nat)
    ensures Reachable(to, s, s)
  {
    assert Walk(to, s, s, [s]);
  }

  lemma ReachVia(to: seq<seq<nat>>, s: nat, c: nat, t: nat)
    requires Step(to, s, c) && Reachable(to, c, t)
    ensures Reachable(to, s, t)
  {
    var p :| Walk(to, c, t, p);
    var q := [s] + p;
    forall k | 0 <= k < |q| - 1
      ensures Step(to, q[k], q[k + 1])
    {
      if k > 0 {
        assert Step(to, p[k - 1], p[k - 1 + 1]);
      }
    }
    assert Walk(to, s, t, q);
  }

  /** What a finished search has found: the node itself, nothing twice, nothing that
      cannot be reached, and with each new node all its successors. */
  ghost predicate Searched(to: seq<seq<nat>>, s: nat, visited: seq<nat>, found: seq<nat>) {
    && visited <= found && s in found && Distinct(found) && (forall u | u in found :: u < |to|)
    && (forall u | u in found && u !in visited :: Reachable(to, s, u))
    && (forall u, v | u in found && u !in visited && Step(to, u, v) :: v in found)
  }

  /** The search; `found` is the order in which the callback is called. */
  method Dfs(to: seq<seq<nat>>, start: nat, visited: seq<nat>) returns (found: seq<nat>)
    requires Within(to) && start < |to| && Distinct(visited) && forall u | u in visited :: u < |to|
    ensures Searched(to, start, visited, found)
    decreases |to| - |visited|
  {
    Few(visited, |to|);
    if start in visited {
      return visited;
    }
    found := visited + [start];
    Few(found, |to|);
    ghost var entered := found;
    ReachSelf(to, start);
    var i := |to[start]|;
    while i > 0
      invariant 0 <= i <= |to[start]| && entered <= found && Distinct(found) && (forall u | u in found :: u < |to|)
      invariant forall u | u in found && u !in visited :: Reachable(to, start, u)
      invariant forall u, v | u in found && u !in entered && Step(to, u, v) :: v in found
      invariant forall k | i <= k < |to[start]| :: to[start][k] in found
    {
      i := i - 1;
      var c := to[start][i];
      assert c in to[start];
      ghost var before := found;
      found := Dfs(to, c, found);
      SearchedMore(to, start, c, visited, entered, before, found);
    }
    assert forall u | u in entered :: u in visited || u == start;
    assert found[|visited|] == start;
  }

  lemma SearchedMore(to: seq<seq<nat>>, start: nat, c: nat, visited: seq<nat>, entered: seq<nat>, before: seq<nat>,
                     found: seq<nat>)
    requires Searched(to, c, before, found) && Step(to, start, c) && entered <= before
    requires forall u | u in before && u !in visited :: Reachable(to, start, u)
    requires forall u, v | u in before && u !in entered && Step(to, u, v) :: v in before
    ensures entered <= found && forall u | u in found && u !in visited :: Reachable(to, start, u)
    ensures forall u, v | u in found && u !in entered && Step(to, u, v) :: v in found
    ensures forall u | u in before :: u in found
  {
    forall u | u in before
      ensures u in found
    {
      var k :| 0 <= k < |before| && before[k] == u;
      assert found[k] == u;
    }
    forall u | u in found && u !in visited
      ensures Reachable(to, start, u)
    {
      if u !in before {
        ReachVia(to, start, c, u);
      }
    }
  }

  ghost function Below(n: nat): (r: set<nat>)
    ensures |r| == n && forall x | 0 <= x < n :: x in r
    ensures forall x | x in r :: x < n
  {
    if n == 0 then {} else Below(n - 1) + {n - 1}
  }

  ghost function ToSet(s: seq<nat>): set<nat> {
    set x | x in s
  }

  /** A list of distinct numbers below `n` has at most `n` of them. */
  lemma Few(s: seq<nat>, n: nat)
    requires Distinct(s) && forall x | x in s :: x < n
    ensures |s| <= n
  {
    SizeOf(s);
    Subset(ToSet(s), Below(n));
  }

  lemma {:induction false} SizeOf(s: seq<nat>)
    requires Distinct(s)
    ensures |ToSet(s)| == |s|
  {
    if s != [] {
      var t, x := s[..|s| - 1], s[|s| - 1];
      SizeOf(t);
      assert x !in t;
      assert s == t + [x];
      assert x !in ToSet(t) && ToSet(s) == ToSet(t) + {x};
    }
  }

  /** The whole search calls back exactly once for every reachable node and for no
      other. */
  method DepthFirst(to: seq<seq<nat>>, start: nat) returns (found: seq<nat>)
    requires Within(to) && start < |to|
    ensures Distinct(found) && forall u :: u in found <==> Reachable(to, start, u)
  {
    found := Dfs(to, start, []);
    forall u | Reachable(to, start, u)
      ensures u in found
    {
      var p :| Walk(to, start, u, p);
      Closure(to, start, found, p, |p| - 1);
    }
  }

  lemma {:induction false} Closure(to: seq<seq<nat>>, start: nat, found: seq<nat>, p: seq<nat>, k: nat)
    requires Searched(to, start, [], found) && |p| > 0 && p[0] == start && k < |p|
    requires forall k | 0 <= k < |p| - 1 :: Step(to, p[k], p[k + 1])
    ensures p[k] in found
  {
    if k > 0 {
      Closure(to, start, found, p, k - 1);
      assert Step(to, p[k - 1], p[k - 1 + 1]);
    }
  }
}
