/** Derivations as paths of edges: each derivation of a line is one path from the start
    to a command, and each path whose nodes take the words of the line is one
    derivation. */
module MatchPaths {
  import opened Wrappers
  import opened Tokens
  import opened CommandTree
  import opened Matcher
  import opened MatchVerdict
  import opened MergeShape
  import opened MergeMatch
  import opened MergePaths

  /** No parallel edges, no way back to a start; an END leads to its command alone and
      a command nowhere. */
  ghost predicate Simple(h: Heap) {
    && (forall u, i {:trigger h[u].to[i]} | 0 <= u < |h| && 0 <= i < |h[u].to| ::
          h[u].to[i] < |h| && !IsKind(h, h[u].to[i], Start))
    && (forall u, i, j {:trigger h[u].to[i], h[u].to[j]} | 0 <= u < |h| && 0 <= i < j < |h[u].to| :: h[u].to[i] != h[u].to[j])
    && (forall u {:trigger IsKind(h, u, End)} | 0 <= u < |h| && IsKind(h, u, End) :: |h[u].to| == 1)
    && (forall u | 0 <= u < |h| && h[u].data.Cmd? :: h[u].to == [])
  }

  /** A matching problem on such a graph. */
  ghost predicate Posed(p: Search) {
    Linked(p.g, p.next) && Table(p.g, p.next) && Simple(p.g.nodes)
  }

  ghost function Last(s: seq<nat>): nat {
    if s == [] then 0 else s[|s| - 1]
  }

  // ---- one hop ----

  /** The ways to make the hops through the children from index `i` on, each the
      nodes passed and the hop itself. */
  ghost function Ways(g: Graph, u: nat, i: nat): seq<seq<nat>>
    requires g.Valid() && g.IsToken(u) && !g.IsEnd(u) && i <= |g.nodes[u].to|
    decreases if g.Transparent(u) then 0 else 1, g.rank[u], |g.nodes[u].to| - i
  {
    if i == |g.nodes[u].to| then [] else WaysVia(g, g.nodes[u].to[i]) + Ways(g, u, i + 1)
  }

  ghost function WaysVia(g: Graph, c: nat): seq<seq<nat>>
    requires g.Valid() && g.IsToken(c)
    decreases 0, if g.Transparent(c) then g.rank[c] else 0, if g.Transparent(c) then |g.nodes[c].to| + 1 else 0
  {
    if g.Transparent(c) then Onto(c, Ways(g, c, 0)) else [[c]]
  }

  ghost function Onto(c: nat, ways: seq<seq<nat>>): (r: seq<seq<nat>>)
    ensures |r| == |ways| && forall k | 0 <= k < |r| :: r[k] == [c] + ways[k]
  {
    seq(|ways|, k requires 0 <= k < |ways| => [c] + ways[k])
  }

  /** Edges from `u` through transparent nodes to one that is not. */
  ghost predicate Segment(g: Graph, u: nat, s: seq<nat>) {
    && |s| > 0 && Way(g.nodes, u, s[0]) && g.IsToken(s[|s| - 1]) && !g.Transparent(s[|s| - 1])
    && forall k | 0 <= k < |s| - 1 :: g.Transparent(s[k]) && Way(g.nodes, s[k], s[k + 1])
  }

  lemma SegmentOnto(g: Graph, u: nat, c: nat, s: seq<nat>)
    requires g.Transparent(c) && Way(g.nodes, u, c)
    ensures Segment(g, u, [c] + s) <==> Segment(g, c, s)
  {
    var t := [c] + s;
    if Segment(g, c, s) {
      forall k | 0 <= k < |t| - 1
        ensures g.Transparent(t[k]) && Way(g.nodes, t[k], t[k + 1])
      {
        assert k > 0 ==> t[k] == s[k - 1];
      }
    }
    if Segment(g, u, t) {
      assert t[|t| - 1] != c;
      forall k | 0 <= k < |s| - 1
        ensures g.Transparent(s[k]) && Way(g.nodes, s[k], s[k + 1])
      {
        assert t[k + 1] == s[k] && t[k + 2] == s[k + 1];
      }
      assert Way(g.nodes, t[0], t[1]);
    }
  }

  /** The ways are listed in step with the hops, and each is a segment. */
  lemma {:induction false} WaysAreHops(g: Graph, u: nat, i: nat)
    requires g.Valid() && g.IsToken(u) && !g.IsEnd(u) && i <= |g.nodes[u].to|
    ensures |Ways(g, u, i)| == |g.HopsFrom(u, [], i)|
    ensures forall k | 0 <= k < |Ways(g, u, i)| ::
              Segment(g, u, Ways(g, u, i)[k]) && Last(Ways(g, u, i)[k]) == g.HopsFrom(u, [], i)[k]
    decreases if g.Transparent(u) then 0 else 1, g.rank[u], |g.nodes[u].to| - i
  {
    if i < |g.nodes[u].to| {
      var c := g.nodes[u].to[i];
      WaysAreHops(g, u, i + 1);
      if g.Transparent(c) {
        WaysAreHops(g, c, 0);
        forall k | 0 <= k < |Ways(g, c, 0)|
          ensures Segment(g, u, [c] + Ways(g, c, 0)[k])
        {
          SegmentOnto(g, u, c, Ways(g, c, 0)[k]);
        }
      }
    }
  }

  /** Every segment is one of the ways. */
  lemma {:induction false} WayFound(g: Graph, u: nat, i: nat, j: nat, s: seq<nat>) returns (k: nat)
    requires g.Valid() && g.IsToken(u) && !g.IsEnd(u) && i <= j < |g.nodes[u].to|
    requires Segment(g, u, s) && s[0] == g.nodes[u].to[j]
    ensures k < |Ways(g, u, i)| && Ways(g, u, i)[k] == s
    decreases if g.Transparent(u) then 0 else 1, g.rank[u], |g.nodes[u].to| - i
  {
    var c := g.nodes[u].to[i];
    if i < j {
      k := WayFound(g, u, i + 1, j, s);
      k := k + |WaysVia(g, c)|;
    } else if g.Transparent(c) {
      assert s == [c] + s[1..];
      SegmentOnto(g, u, c, s[1..]);
      var m :| 0 <= m < |g.nodes[c].to| && g.nodes[c].to[m] == s[1];
      k := WayFound(g, c, 0, m, s[1..]);
    } else {
      assert s == [c];
      k := 0;
    }
  }

  /** Ways by different children begin differently. */
  lemma {:induction false} WaysBegin(g: Graph, u: nat, i: nat, k: nat) returns (j: nat)
    requires g.Valid() && g.IsToken(u) && !g.IsEnd(u) && i <= |g.nodes[u].to| && k < |Ways(g, u, i)|
    ensures i <= j < |g.nodes[u].to| && |Ways(g, u, i)[k]| > 0 && Ways(g, u, i)[k][0] == g.nodes[u].to[j]
    decreases |g.nodes[u].to| - i
  {
    var m := |WaysVia(g, g.nodes[u].to[i])|;
    if k < m {
      j := i;
    } else {
      j := WaysBegin(g, u, i + 1, k - m);
    }
  }

  lemma {:induction false} WaysDiffer(g: Graph, u: nat, i: nat, k: nat, l: nat)
    requires g.Valid() && Simple(g.nodes) && g.IsToken(u) && !g.IsEnd(u) && i <= |g.nodes[u].to|
    requires k < |Ways(g, u, i)| && l < |Ways(g, u, i)| && Ways(g, u, i)[k] == Ways(g, u, i)[l]
    ensures k == l
    decreases if g.Transparent(u) then 0 else 1, g.rank[u], |g.nodes[u].to| - i
  {
    var c := g.nodes[u].to[i];
    var m := |WaysVia(g, c)|;
    if k >= m && l >= m {
      WaysDiffer(g, u, i + 1, k - m, l - m);
    } else if k < m && l < m {
      if g.Transparent(c) {
        var w := Ways(g, c, 0);
        assert w[k] == ([c] + w[k])[1..] && w[l] == ([c] + w[l])[1..];
        WaysDiffer(g, c, 0, k, l);
      }
    } else {
      var j := WaysBegin(g, u, i + 1, if k >= m then k - m else l - m);
    }
  }

  // ---- the words along a path ----

  /** The node takes a word; the start takes the leading dummy. */
  predicate Taker(h: Heap, u: nat) {
    u < |h| && h[u].data.Tok? && (h[u].data.token.kind.Start? || !IsSpecial(h[u].data.token.kind))
  }

  /** The nodes of a path that take words. */
  ghost function Words(h: Heap, q: seq<nat>): seq<nat> {
    if q == [] then [] else Words(h, q[..|q| - 1]) + if Taker(h, Last(q)) then [Last(q)] else []
  }

  lemma {:induction false} WordsConcat(h: Heap, a: seq<nat>, b: seq<nat>)
    ensures Words(h, a + b) == Words(h, a) + Words(h, b)
    decreases |b|
  {
    if b == [] {
      assert a + b == a;
    } else {
      var n := |b| - 1;
      assert (a + b)[..|a| + n] == a + b[..n];
      WordsConcat(h, a, b[..n]);
    }
  }

  lemma {:induction false} NoWords(h: Heap, q: seq<nat>)
    requires forall k | 0 <= k < |q| :: !Taker(h, q[k])
    ensures Words(h, q) == []
  {
    if q != [] {
      NoWords(h, q[..|q| - 1]);
    }
  }

  lemma WordsOne(h: Heap, u: nat)
    ensures Words(h, [u]) == if Taker(h, u) then [u] else []
  {
    assert [u][..0] == [];
  }

  /** A node passed between two words takes none. */
  lemma PassesSilently(p: Search, u: nat)
    requires Posed(p) && p.g.Transparent(u) && !IsKind(p.g.nodes, u, Start)
    ensures !Taker(p.g.nodes, u)
  {
  }

  /** What takes a word is no FORK, JOIN or END. */
  lemma AdmitsTaker(p: Search, pre: seq<nat>, u: nat)
    requires p.Admits(pre, u)
    ensures Taker(p.g.nodes, u) && !p.g.IsEnd(u)
  {
  }

  /** A segment to a node that takes no word says nothing; otherwise just its end. */
  lemma SegmentWords(p: Search, u: nat, s: seq<nat>)
    requires Posed(p) && Segment(p.g, u, s)
    ensures Words(p.g.nodes, s[..|s| - 1]) == []
  {
    forall k | 0 <= k < |s| - 1
      ensures !Taker(p.g.nodes, s[k])
    {
      var v := if k == 0 then u else s[k - 1];
      assert k > 0 ==> Way(p.g.nodes, s[k - 1], s[k - 1 + 1]);
      var i :| 0 <= i < |p.g.nodes[v].to| && p.g.nodes[v].to[i] == s[k];
      PassesSilently(p, s[k]);
    }
    NoWords(p.g.nodes, s[..|s| - 1]);
  }

  // ---- a derivation as a path ----

  ghost function Way1(p: Search, pre: seq<nat>, u: nat, hops: seq<nat>): (s: seq<nat>)
    requires Posed(p) && p.Derives(pre, u, hops)
    ensures Segment(p.g, u, s) && Last(s) == p.Next(u)[hops[0]]
  {
    WaysAreHops(p.g, u, 0);
    assert p.next[u] == p.g.NextHops(u);
    Ways(p.g, u, 0)[hops[0]]
  }

  /** The edges a derivation goes along, down to its command. */
  ghost function Trace(p: Search, pre: seq<nat>, u: nat, hops: seq<nat>): (q: seq<nat>)
    requires Posed(p) && p.Derives(pre, u, hops)
    decreases |hops|
  {
    var s, v := Way1(p, pre, u, hops), p.Next(u)[hops[0]];
    [u] + s[..|s| - 1]
    + if |pre| + 1 == |p.line| then [v, p.g.nodes[v].to[0]] else Trace(p, pre + [u], v, hops[1..])
  }

  lemma TraceStep(p: Search, pre: seq<nat>, u: nat, hops: seq<nat>)
    requires Posed(p) && p.Derives(pre, u, hops)
    ensures var s, v := Way1(p, pre, u, hops), p.Next(u)[hops[0]];
            && |s| > 0 && v == Last(s) && v < |p.g.nodes|
            && Trace(p, pre, u, hops) == [u] + s[..|s| - 1]
               + if |pre| + 1 == |p.line| then [v, p.g.nodes[v].to[0]] else Trace(p, pre + [u], v, hops[1..])
  {
  }

  lemma PathJoin(h: Heap, u: nat, a: seq<nat>, q: seq<nat>)
    requires |q| > 0 && Path(h, u, [u] + a + [q[0]]) && Path(h, q[0], q)
    ensures Path(h, u, [u] + a + q)
  {
    var b, t := [u] + a + [q[0]], [u] + a + q;
    forall k | 0 <= k < |t| - 1
      ensures Way(h, t[k], t[k + 1])
    {
      if k <= |a| {
        assert Way(h, b[k], b[k + 1]);
      } else {
        assert Way(h, q[k - |a| - 1], q[k - |a|]);
      }
    }
  }

  lemma SegmentPath(g: Graph, u: nat, s: seq<nat>)
    requires Segment(g, u, s)
    ensures Path(g.nodes, u, [u] + s[..|s| - 1] + [Last(s)])
  {
    var t := [u] + s[..|s| - 1] + [Last(s)];
    assert t == [u] + s;
    forall k | 0 <= k < |t| - 1
      ensures Way(g.nodes, t[k], t[k + 1])
    {
      if k > 0 {
        assert Way(g.nodes, s[k - 1], s[k - 1 + 1]);
      }
    }
  }

  /** The last two nodes of a path to a command. */
  lemma EndPath(p: Search, v: nat)
    requires Posed(p) && p.g.IsEnd(v)
    ensures p.g.nodes[v].to == [p.g.nodes[v].to[0]] && p.g.nodes[v].to[0] < |p.g.nodes|
    ensures p.g.nodes[p.g.nodes[v].to[0]].data.Cmd? && Path(p.g.nodes, v, [v, p.g.nodes[v].to[0]])
    ensures Words(p.g.nodes, [v, p.g.nodes[v].to[0]]) == []
  {
    hide Words, Posed;
    var h := p.g.nodes;
    EndElement(p, v);
    var y := h[v].to[0];
    assert Way(h, v, y);
    WordsConcat(h, [v], [y]);
    WordsOne(h, v);
    WordsOne(h, y);
    assert [v] + [y] == [v, y];
  }

  lemma EndElement(p: Search, v: nat)
    requires Posed(p) && p.g.IsEnd(v)
    ensures |p.g.nodes[v].to| == 1 && p.g.nodes[v].to[0] < |p.g.nodes| && p.g.nodes[p.g.nodes[v].to[0]].data.Cmd?
  {
    hide Linked;
    assert p.g.HasElement(v) && IsKind(p.g.nodes, v, End);
  }

  /** The trace leads to a command, and its words are the nodes of the derivation. */
  lemma {:induction false} TracePath(p: Search, pre: seq<nat>, u: nat, hops: seq<nat>)
    requires Posed(p) && p.Derives(pre, u, hops)
    ensures var q := Trace(p, pre, u, hops);
            && Path(p.g.nodes, u, q) && Last(q) < |p.g.nodes| && p.g.nodes[Last(q)].data.Cmd?
            && Words(p.g.nodes, q) == Unflatten(p, pre, u, hops).nodes
    decreases |hops|
  {
    hide Search.Derives, Unflatten, Trace, Simple, Linked, Way, Words, Segment, Table;
    DerivesStep(p, pre, u, hops);
    TraceStep(p, pre, u, hops);
    var h, s, v := p.g.nodes, Way1(p, pre, u, hops), p.Next(u)[hops[0]];
    SegmentPath(p.g, u, s);
    AdmitsTaker(p, pre, u);
    var rest;
    if |pre| + 1 == |p.line| {
      EndPath(p, v);
      rest := [v, h[v].to[0]];
    } else {
      TracePath(p, pre + [u], v, hops[1..]);
      rest := Trace(p, pre + [u], v, hops[1..]);
    }
    PathJoin(h, u, s[..|s| - 1], rest);
    TraceWords(p, u, s, rest);
  }

  lemma TraceWords(p: Search, u: nat, s: seq<nat>, rest: seq<nat>)
    requires Posed(p) && Segment(p.g, u, s) && Taker(p.g.nodes, u)
    ensures Words(p.g.nodes, [u] + s[..|s| - 1] + rest) == [u] + Words(p.g.nodes, rest)
  {
    hide Words, Posed, Segment;
    SegmentEnds(p.g, u, s);
    var h, a := p.g.nodes, s[..|s| - 1];
    SegmentWords(p, u, s);
    WordsConcat(h, [u], a);
    WordsConcat(h, [u] + a, rest);
    WordsOne(h, u);
    assert [u] + [] == [u];
  }

  /** The words taken are those of the line. */
  ghost predicate Takes(p: Search, pre: seq<nat>, ws: seq<nat>) {
    |pre| + |ws| == |p.line| && forall k | 0 <= k < |ws| :: p.Admits(pre + ws[..k], ws[k])
  }

  /** A path from the start to a command whose nodes take the words of the line. */
  ghost predicate Spelled(p: Search, q: seq<nat>) {
    && Path(p.g.nodes, p.g.start, q) && Last(q) < |p.g.nodes| && p.g.nodes[Last(q)].data.Cmd?
    && Takes(p, [], Words(p.g.nodes, q))
  }

  // ---- a path as a derivation ----

  /** Where a path to a command makes its first hop. */
  lemma FirstStop(p: Search, q: seq<nat>) returns (j: nat)
    requires Posed(p) && |q| > 0 && Path(p.g.nodes, q[0], q) && Taker(p.g.nodes, q[0])
    requires Last(q) < |p.g.nodes| && p.g.nodes[Last(q)].data.Cmd?
    ensures 1 <= j < |q| - 1 && Segment(p.g, q[0], q[1..j + 1])
  {
    var h := p.g.nodes;
    j := 1;
    while p.g.Transparent(q[j])
      invariant 1 <= j < |q| && forall k | 1 <= k < j :: p.g.Transparent(q[k])
      decreases |q| - j
    {
      j := j + 1;
    }
    assert Way(h, q[j - 1], q[j - 1 + 1]);
    var i :| 0 <= i < |h[q[j - 1]].to| && h[q[j - 1]].to[i] == q[j];
    assert p.g.IsToken(q[j - 1]) && !p.g.IsEnd(q[j - 1]);
    var s := q[1..j + 1];
    forall k | 0 <= k < |s| - 1
      ensures p.g.Transparent(s[k]) && Way(h, s[k], s[k + 1])
    {
      assert s[k] == q[k + 1] && Way(h, q[k + 1], q[k + 1 + 1]);
    }
    assert Way(h, q[0], q[0 + 1]);
  }

  lemma PathRest(h: Heap, q: seq<nat>, j: nat)
    requires |q| > 0 && Path(h, q[0], q) && j < |q|
    ensures Path(h, q[j], q[j..]) && Last(q[j..]) == Last(q)
  {
    forall k | 0 <= k < |q[j..]| - 1
      ensures Way(h, q[j..][k], q[j..][k + 1])
    {
      assert Way(h, q[j + k], q[j + k + 1]);
    }
  }

  /** After an END there is just its command. */
  lemma AfterEnd(p: Search, q: seq<nat>)
    requires Posed(p) && |q| > 1 && Path(p.g.nodes, q[0], q) && p.g.IsEnd(q[0])
    ensures q == [q[0], p.g.nodes[q[0]].to[0]]
  {
    EndPath(p, q[0]);
    assert Way(p.g.nodes, q[0], q[0 + 1]);
    assert |q| > 2 ==> Way(p.g.nodes, q[1], q[1 + 1]);
  }

  lemma TakesFirst(p: Search, pre: seq<nat>, u: nat, ws: seq<nat>)
    requires Takes(p, pre, [u] + ws)
    ensures p.Admits(pre, u) && Takes(p, pre + [u], ws)
  {
    var all := [u] + ws;
    assert pre + all[..0] == pre && all[0] == u;
    forall k | 0 <= k < |ws|
      ensures p.Admits(pre + [u] + ws[..k], ws[k])
    {
      assert pre + all[..k + 1] == pre + [u] + ws[..k] && all[k + 1] == ws[k];
    }
  }

  lemma StartsWords(h: Heap, q: seq<nat>)
    requires |q| > 0 && Taker(h, q[0])
    ensures |Words(h, q)| > 0
  {
    assert q == [q[0]] + q[1..];
    WordsConcat(h, [q[0]], q[1..]);
    WordsOne(h, q[0]);
  }

  /** One choice in front of a derivation. */
  lemma Choose(p: Search, pre: seq<nat>, u: nat, s: seq<nat>) returns (k: nat)
    requires Posed(p) && p.g.IsToken(u) && !p.g.IsEnd(u) && Segment(p.g, u, s)
    ensures k < |p.Next(u)| && p.Next(u)[k] == Last(s) && k < |Ways(p.g, u, 0)| && Ways(p.g, u, 0)[k] == s
  {
    var m :| 0 <= m < |p.g.nodes[u].to| && p.g.nodes[u].to[m] == s[0];
    k := WayFound(p.g, u, 0, m, s);
    WaysAreHops(p.g, u, 0);
    assert p.next[u] == p.g.NextHops(u);
  }

  /** Every path that takes the words is the trace of some choices. */
  lemma {:induction false} TraceOnto(p: Search, pre: seq<nat>, q: seq<nat>) returns (hops: seq<nat>)
    requires Posed(p) && |q| > 0 && Path(p.g.nodes, q[0], q) && Taker(p.g.nodes, q[0])
    requires Last(q) < |p.g.nodes| && p.g.nodes[Last(q)].data.Cmd? && Takes(p, pre, Words(p.g.nodes, q))
    ensures p.Derives(pre, q[0], hops) && Trace(p, pre, q[0], hops) == q
    decreases |q|
  {
    hide Simple, Linked, Way, Words, Segment, Takes, Trace;
    var h, u := p.g.nodes, q[0];
    var j := FirstStop(p, q);
    var s, v := q[1..j + 1], q[j];
    SegmentEnds(p.g, u, s);
    var k := Choose(p, pre, u, s);
    PathRest(h, q, j);
    TraceWords(p, u, s, q[j..]);
    assert q == [u] + s[..|s| - 1] + q[j..];
    TakesFirst(p, pre, u, Words(h, q[j..]));
    if p.g.IsEnd(v) {
      AfterEnd(p, q[j..]);
      EndPath(p, v);
      TakesNone(p, pre + [u], []);
      hops := [k];
    } else {
      StartsWords(h, q[j..]);
      TakesSome(p, pre + [u], Words(h, q[j..]));
      var rest := TraceOnto(p, pre + [u], q[j..]);
      hops := [k] + rest;
      assert hops[1..] == rest;
    }
    assert hops[0] == k;
    TraceStep(p, pre, u, hops);
  }

  lemma SegmentEnds(g: Graph, u: nat, s: seq<nat>)
    requires Segment(g, u, s)
    ensures |s| > 0 && g.IsToken(Last(s)) && !g.Transparent(Last(s))
  {
  }

  lemma TakesNone(p: Search, pre: seq<nat>, ws: seq<nat>)
    requires Takes(p, pre, ws) && |ws| == 0
    ensures |pre| == |p.line|
  {
  }

  lemma TakesSome(p: Search, pre: seq<nat>, ws: seq<nat>)
    requires Takes(p, pre, ws) && |ws| > 0
    ensures |pre| < |p.line|
  {
  }

  /** A path has one first hop. */
  lemma SameStop(g: Graph, u: nat, s: seq<nat>, t: seq<nat>, x: seq<nat>, y: seq<nat>)
    requires Segment(g, u, s) && Segment(g, u, t) && |x| > 0 && |y| > 0 && x[0] == Last(s) && y[0] == Last(t)
    requires [u] + s[..|s| - 1] + x == [u] + t[..|t| - 1] + y
    ensures s == t && x == y
  {
    var q := [u] + s[..|s| - 1] + x;
    StopAt(g, u, s, x);
    StopAt(g, u, t, y);
    assert |s| == |t|;
    assert q[|s|..] == x && q[|t|..] == y && q[1..|s| + 1] == s && q[1..|t| + 1] == t;
  }

  lemma StopAt(g: Graph, u: nat, s: seq<nat>, x: seq<nat>)
    requires Segment(g, u, s) && |x| > 0 && x[0] == Last(s)
    ensures var q := [u] + s[..|s| - 1] + x;
            |s| < |q| && !g.Transparent(q[|s|]) && forall k | 1 <= k < |s| :: g.Transparent(q[k])
  {
    var q := [u] + s[..|s| - 1] + x;
    forall k | 1 <= k < |s|
      ensures g.Transparent(q[k])
    {
      assert q[k] == s[k - 1];
    }
  }

  lemma TraceBegins(p: Search, pre: seq<nat>, u: nat, hops: seq<nat>)
    requires Posed(p) && p.Derives(pre, u, hops)
    ensures |Trace(p, pre, u, hops)| > 0 && Trace(p, pre, u, hops)[0] == u
  {
  }

  /** Different choices go different ways. */
  lemma {:induction false} TraceInjective(p: Search, pre: seq<nat>, u: nat, a: seq<nat>, b: seq<nat>)
    requires Posed(p) && p.Derives(pre, u, a) && p.Derives(pre, u, b) && Trace(p, pre, u, a) == Trace(p, pre, u, b)
    ensures a == b
    decreases |a|
  {
    hide Simple, Linked, Way, Segment, Trace, Search.Derives, Unflatten;
    DerivesStep(p, pre, u, a);
    DerivesStep(p, pre, u, b);
    TraceStep(p, pre, u, a);
    TraceStep(p, pre, u, b);
    var s, t, v, w := Way1(p, pre, u, a), Way1(p, pre, u, b), p.Next(u)[a[0]], p.Next(u)[b[0]];
    if |pre| + 1 == |p.line| {
      SameStop(p.g, u, s, t, [v, p.g.nodes[v].to[0]], [w, p.g.nodes[w].to[0]]);
      SameChoice(p, pre, u, a, b);
    } else {
      TraceBegins(p, pre + [u], v, a[1..]);
      TraceBegins(p, pre + [u], w, b[1..]);
      SameStop(p.g, u, s, t, Trace(p, pre + [u], v, a[1..]), Trace(p, pre + [u], w, b[1..]));
      SameChoice(p, pre, u, a, b);
      TraceInjective(p, pre + [u], v, a[1..], b[1..]);
      assert a == [a[0]] + a[1..] && b == [b[0]] + b[1..];
    }
  }

  lemma SameChoice(p: Search, pre: seq<nat>, u: nat, a: seq<nat>, b: seq<nat>)
    requires Posed(p) && p.Derives(pre, u, a) && p.Derives(pre, u, b) && Way1(p, pre, u, a) == Way1(p, pre, u, b)
    ensures a[0] == b[0]
  {
    WaysAreHops(p.g, u, 0);
    assert p.next[u] == p.g.NextHops(u);
    WaysDiffer(p.g, u, 0, a[0], b[0]);
  }

  // ---- derivations and paths, one to one ----

  ghost function PathOf(p: Search, d: Derivation): (q: seq<nat>)
    requires Posed(p) && IsDerivation(p, d)
  {
    Flat(p, d);
    Trace(p, [], p.g.start, d.hops)
  }

  /** The path of a derivation takes the words by the derivation's nodes. */
  lemma PathSpelled(p: Search, d: Derivation)
    requires Posed(p) && IsDerivation(p, d)
    ensures Spelled(p, PathOf(p, d)) && Words(p.g.nodes, PathOf(p, d)) == d.nodes
  {
    hide Simple, Linked, Trace, Unflatten, Words, Search.Derives;
    Flat(p, d);
    TracePath(p, [], p.g.start, d.hops);
    forall k | 0 <= k < |d.nodes|
      ensures p.Admits([] + d.nodes[..k], d.nodes[k])
    {
    }
  }

  /** It ends at the command the derivation stands for. */
  lemma {:induction false} TraceCommand(p: Search, pre: seq<nat>, u: nat, hops: seq<nat>)
    requires Posed(p) && p.Derives(pre, u, hops)
    ensures var d := Unflatten(p, pre, u, hops);
            && Complete(p, pre, u, d)
            && Last(Trace(p, pre, u, hops)) == p.g.nodes[p.Next(Last(d.nodes))[Last(d.hops)]].to[0]
    decreases |hops|
  {
    hide Simple, Linked, Trace, Unflatten, Search.Derives, Walk;
    DerivesStep(p, pre, u, hops);
    TraceStep(p, pre, u, hops);
    DerivesFlat(p, pre, u, hops);
    CompleteEnds(p, pre, u, Unflatten(p, pre, u, hops));
    if |pre| + 1 != |p.line| {
      var v := p.Next(u)[hops[0]];
      TraceCommand(p, pre + [u], v, hops[1..]);
      TraceBegins(p, pre + [u], v, hops[1..]);
      CompleteEnds(p, pre + [u], v, Unflatten(p, pre + [u], v, hops[1..]));
    }
  }

  lemma CompleteEnds(p: Search, pre: seq<nat>, u: nat, d: Derivation)
    requires p.Valid() && Complete(p, pre, u, d)
    ensures |d.nodes| == |d.hops| > 0 && p.g.IsToken(Last(d.nodes)) && Last(d.hops) < |p.Next(Last(d.nodes))|
    ensures p.g.IsEnd(p.Next(Last(d.nodes))[Last(d.hops)]) && p.g.HasElement(p.Next(Last(d.nodes))[Last(d.hops)])
  {
  }

  /** The command a derivation ends in. */
  ghost function Element(p: Search, d: Derivation): nat
    requires p.Valid() && IsDerivation(p, d)
  {
    CompleteEnds(p, [], p.g.start, d);
    p.g.ElementAt(p.Next(Last(d.nodes))[Last(d.hops)])
  }

  lemma PathCommand(p: Search, d: Derivation)
    requires Posed(p) && IsDerivation(p, d)
    ensures Last(PathOf(p, d)) < |p.g.nodes| && p.g.nodes[Last(PathOf(p, d))].data == Cmd(Element(p, d))
  {
    hide Simple, Linked, Trace, Unflatten, Search.Derives, Walk;
    Flat(p, d);
    TraceCommand(p, [], p.g.start, d.hops);
    CompleteEnds(p, [], p.g.start, d);
    TracePath(p, [], p.g.start, d.hops);
  }

  lemma PathOnto(p: Search, q: seq<nat>) returns (d: Derivation)
    requires Posed(p) && Spelled(p, q)
    ensures IsDerivation(p, d) && PathOf(p, d) == q
  {
    hide Simple, Trace, Unflatten, Words, Search.Derives, Takes;
    var hops := TraceOnto(p, [], q);
    DerivesFlat(p, [], p.g.start, hops);
    UnflattenHops(p, [], p.g.start, hops);
    d := Unflatten(p, [], p.g.start, hops);
  }

  lemma PathInjective(p: Search, d: Derivation, e: Derivation)
    requires Posed(p) && IsDerivation(p, d) && IsDerivation(p, e) && PathOf(p, d) == PathOf(p, e)
    ensures d == e
  {
    hide Simple, Linked, Trace, Unflatten, Search.Derives, Walk;
    Flat(p, d);
    Flat(p, e);
    TraceInjective(p, [], p.g.start, d.hops, e.hops);
  }

  /** The derivation that goes along a path. */
  ghost function DerivationOf(p: Search, q: seq<nat>): (d: Derivation)
    requires Posed(p) && Spelled(p, q)
    ensures IsDerivation(p, d) && PathOf(p, d) == q
  {
    assert exists d | IsDerivation(p, d) :: PathOf(p, d) == q by {
      var d := PathOnto(p, q);
    }
    var d :| IsDerivation(p, d) && PathOf(p, d) == q;
    d
  }

  // ---- walks that take every word ----

  /** A path from the start whose nodes take the words of the line, wherever it ends. */
  ghost predicate Worded(p: Search, q: seq<nat>) {
    Path(p.g.nodes, p.g.start, q) && Takes(p, [], Words(p.g.nodes, q))
  }

  lemma TakesCons(p: Search, pre: seq<nat>, u: nat, ws: seq<nat>)
    requires p.Admits(pre, u) && Takes(p, pre + [u], ws)
    ensures Takes(p, pre, [u] + ws)
  {
    var all := [u] + ws;
    forall k | 0 <= k < |all|
      ensures p.Admits(pre + all[..k], all[k])
    {
      if k == 0 {
        assert pre + all[..0] == pre;
      } else {
        assert pre + all[..k] == pre + [u] + ws[..k - 1] && all[k] == ws[k - 1];
      }
    }
  }

  lemma WayOf(p: Search, u: nat, k: nat) returns (s: seq<nat>)
    requires Posed(p) && p.g.IsToken(u) && !p.g.IsEnd(u) && k < |p.Next(u)|
    ensures Segment(p.g, u, s) && |s| > 0 && Last(s) == p.Next(u)[k]
  {
    WaysAreHops(p.g, u, 0);
    assert p.next[u] == p.g.NextHops(u);
    s := Ways(p.g, u, 0)[k];
  }

  lemma ConsumesUnfold(p: Search, pre: seq<nat>, u: nat, hops: seq<nat>)
    requires p.Valid() && p.Consumes(pre, u, hops)
    ensures p.Admits(pre, u) && !p.g.IsEnd(u)
    ensures |pre| + 1 != |p.line| ==> |hops| > 0 && hops[0] < |p.Next(u)| && p.Consumes(pre + [u], p.Next(u)[hops[0]], hops[1..])
  {
  }

  /** A walk that takes every word goes along a path that takes them. */
  lemma {:induction false} ConsumesPath(p: Search, pre: seq<nat>, u: nat, hops: seq<nat>) returns (q: seq<nat>)
    requires Posed(p) && p.Consumes(pre, u, hops)
    ensures Path(p.g.nodes, u, q) && Takes(p, pre, Words(p.g.nodes, q))
    decreases |hops|
  {
    hide Search.Consumes, Simple, Linked, Way, Words, Segment, Table, Takes;
    ConsumesUnfold(p, pre, u, hops);
    AdmitsTaker(p, pre, u);
    var h := p.g.nodes;
    if |pre| + 1 == |p.line| {
      q := [u];
      WordsOne(h, u);
      NoMore(p, pre + [u]);
      TakesCons(p, pre, u, []);
      assert [u] + [] == [u];
    } else {
      var v := p.Next(u)[hops[0]];
      var s := WayOf(p, u, hops[0]);
      var rest := ConsumesPath(p, pre + [u], v, hops[1..]);
      SegmentPath(p.g, u, s);
      PathJoin(h, u, s[..|s| - 1], rest);
      TraceWords(p, u, s, rest);
      TakesCons(p, pre, u, Words(h, rest));
      q := [u] + s[..|s| - 1] + rest;
    }
  }

  lemma NoMore(p: Search, pre: seq<nat>)
    requires |pre| == |p.line|
    ensures Takes(p, pre, [])
  {
  }

  /** Where a path that takes another word makes its first hop. */
  lemma NextStop(p: Search, q: seq<nat>) returns (j: nat)
    requires Posed(p) && |q| > 0 && Path(p.g.nodes, q[0], q) && Taker(p.g.nodes, q[0]) && |Words(p.g.nodes, q)| > 1
    ensures 1 <= j < |q| && Segment(p.g, q[0], q[1..j + 1]) && Taker(p.g.nodes, q[j])
  {
    hide Words;
    var h := p.g.nodes;
    var t := LaterTaker(h, q);
    j := 1;
    while p.g.Transparent(q[j])
      invariant 1 <= j <= t && forall k | 1 <= k < j :: p.g.Transparent(q[k])
      decreases t - j
    {
      Stepped(p, q, j);
      Stepped(p, q, t);
      j := j + 1;
    }
    Stepped(p, q, j);
    var s := q[1..j + 1];
    forall k | 0 <= k < |s| - 1
      ensures p.g.Transparent(s[k]) && Way(h, s[k], s[k + 1])
    {
      assert s[k] == q[k + 1] && Way(h, q[k + 1], q[k + 1 + 1]);
    }
    assert Way(h, q[0], q[0 + 1]);
    assert p.g.IsToken(q[j - 1]) && !p.g.IsEnd(q[j - 1]);
    if p.g.IsEnd(q[j]) {
      OverAfterEnd(p, q, j, t);
    }
  }

  /** A step of a path leads to a node that is no start. */
  lemma Stepped(p: Search, q: seq<nat>, j: nat)
    requires Posed(p) && |q| > 0 && Path(p.g.nodes, q[0], q) && 1 <= j < |q|
    ensures q[j] < |p.g.nodes| && !IsKind(p.g.nodes, q[j], Start)
    ensures p.g.IsToken(q[j - 1]) && !p.g.IsEnd(q[j - 1]) ==> p.g.IsToken(q[j])
  {
    var h := p.g.nodes;
    assert Way(h, q[j - 1], q[j - 1 + 1]);
    var i :| 0 <= i < |h[q[j - 1]].to| && h[q[j - 1]].to[i] == q[j];
  }

  /** No words after an END. */
  lemma OverAfterEnd(p: Search, q: seq<nat>, j: nat, t: nat)
    requires Posed(p) && |q| > 0 && Path(p.g.nodes, q[0], q) && 1 <= j <= t < |q| && p.g.IsEnd(q[j])
    ensures !Taker(p.g.nodes, q[t])
  {
    EndElement(p, q[j]);
    if j < t {
      PathRest(p.g.nodes, q, j);
      AfterEnd(p, q[j..]);
      assert q[t] == q[j..][t - j];
    }
  }

  lemma {:induction false} LaterTaker(h: Heap, q: seq<nat>) returns (t: nat)
    requires |q| > 0 && |Words(h, q)| > 1
    ensures 1 <= t < |q| && Taker(h, q[t])
    decreases |q|
  {
    OneWord(h, q);
    var n := |q| - 1;
    if Taker(h, q[n]) {
      t := n;
    } else {
      t := LaterTaker(h, q[..n]);
    }
  }

  lemma OneWord(h: Heap, q: seq<nat>)
    ensures |q| == 1 ==> |Words(h, q)| <= 1
  {
    if |q| == 1 {
      WordsOne(h, q[0]);
      assert q == [q[0]];
    }
  }

  /** Every path that takes the words is that of some walk. */
  lemma {:induction false} PathConsumes(p: Search, pre: seq<nat>, q: seq<nat>) returns (hops: seq<nat>)
    requires Posed(p) && |q| > 0 && Path(p.g.nodes, q[0], q) && Taker(p.g.nodes, q[0]) && Takes(p, pre, Words(p.g.nodes, q))
    ensures p.Consumes(pre, q[0], hops)
    decreases |q|
  {
    hide Simple, Linked, Way, Words, Segment, Takes;
    var h, u := p.g.nodes, q[0];
    FirstWord(h, q);
    TakesFirst(p, pre, u, Words(h, q[1..]));
    AdmitsTaker(p, pre, u);
    if |Words(h, q)| == 1 {
      TakesNone(p, pre + [u], Words(h, q[1..]));
      hops := [];
    } else {
      TakesSome(p, pre + [u], Words(h, q[1..]));
      var j := NextStop(p, q);
      var s := q[1..j + 1];
      var k := Choose(p, pre, u, s);
      PathRest(h, q, j);
      TraceWords(p, u, s, q[j..]);
      assert q == [u] + s[..|s| - 1] + q[j..];
      assert [u] + Words(h, q[1..]) == [u] + Words(h, q[j..]);
      assert Words(h, q[1..]) == ([u] + Words(h, q[1..]))[1..] == ([u] + Words(h, q[j..]))[1..] == Words(h, q[j..]);
      var rest := PathConsumes(p, pre + [u], q[j..]);
      hops := [k] + rest;
      assert hops[1..] == rest;
    }
  }

  lemma FirstWord(h: Heap, q: seq<nat>)
    requires |q| > 0 && Taker(h, q[0])
    ensures Words(h, q) == [q[0]] + Words(h, q[1..])
  {
    hide Words;
    assert q == [q[0]] + q[1..];
    WordsConcat(h, [q[0]], q[1..]);
    WordsOne(h, q[0]);
  }

  /** Some walk takes every word exactly when some path does. */
  lemma ExhaustsPath(p: Search)
    requires Posed(p) && p.Valid()
    ensures (exists d :: Exhausts(p, d)) <==> exists q :: Worded(p, q)
  {
    hide Search.Consumes, Simple, Linked, Words, Takes, Walk;
    if d :| Exhausts(p, d) {
      FlatConsumes(p, [], p.g.start, d);
      var q := ConsumesPath(p, [], p.g.start, d.hops);
      assert Worded(p, q);
    }
    if q :| Worded(p, q) {
      StartTakes(p);
      var hops := PathConsumes(p, [], q);
      var d := ConsumesFlat(p, [], p.g.start, hops);
      assert Exhausts(p, d);
    }
  }

  lemma StartTakes(p: Search)
    requires Posed(p)
    ensures Taker(p.g.nodes, p.g.start)
  {
  }
}
