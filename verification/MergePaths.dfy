/** Attaching the rest of a new graph below its match: every path of the merged graph
    is a path of the old graph or mirrors one of the new graph, and all are there. */
module MergePaths {
  import opened Wrappers
  import opened Tokens
  import opened CommandTree
  import opened MergeShape
  import opened MergeEqual
  import opened MergeFork
  import opened MergeMatch

  /** A path of edges from `s`. */
  ghost predicate Path(h: Heap, s: nat, p: seq<nat>) {
    |p| > 0 && p[0] == s && forall k | 0 <= k < |p| - 1 :: Way(h, p[k], p[k + 1])
  }

  ghost predicate PathTo(h: Heap, s: nat, p: seq<nat>, y: nat) {
    Path(h, s, p) && p[|p| - 1] == y
  }

  /** Nodes a matcher cannot tell apart: commands are the same, tokens have the
      same label. */
  predicate SameData(x: Data, y: Data) {
    if x.Tok? && y.Tok? then SameLabel(x.token, y.token) else x == y
  }

  /** The two paths have the same labels, and repeat nodes at the same places. */
  ghost predicate Alike(h: Heap, p: seq<nat>, h': Heap, q: seq<nat>) {
    && |p| == |q|
    && (forall k | 0 <= k < |p| :: p[k] < |h| && q[k] < |h'| && SameData(h[p[k]].data, h'[q[k]].data))
    && (forall i, j | 0 <= i < |p| && 0 <= j < |p| :: p[i] == p[j] <==> q[i] == q[j])
  }

  lemma AlikeTransitive(h: Heap, p: seq<nat>, h': Heap, q: seq<nat>, h'': Heap, r: seq<nat>)
    requires Alike(h, p, h', q) && Alike(h', q, h'', r)
    ensures Alike(h, p, h'', r)
  {
  }

  /** `to` and `fro` pair off the paths to `y` from `s` in `h` with those from `s'` in
      `h'`, like with like. */
  ghost predicate Paired(h: Heap, s: nat, h': Heap, s': nat, y: nat, to: seq<nat> -> seq<nat>, fro: seq<nat> -> seq<nat>) {
    && (forall p {:trigger PathTo(h, s, p, y)} | PathTo(h, s, p, y) ::
          PathTo(h', s', to(p), y) && Alike(h, p, h', to(p)) && fro(to(p)) == p)
    && (forall q {:trigger PathTo(h', s', q, y)} | PathTo(h', s', q, y) ::
          PathTo(h, s, fro(q), y) && Alike(h', q, h, fro(q)) && to(fro(q)) == q)
  }

  /** The paths to `y` from `s` in `h` are, one for one, those from `s'` in `h'`. */
  ghost predicate Corresponds(h: Heap, s: nat, h': Heap, s': nat, y: nat) {
    exists to: seq<nat> -> seq<nat>, fro: seq<nat> -> seq<nat> :: Paired(h, s, h', s', y, to, fro)
  }

  lemma PairedTransitive(h: Heap, s: nat, h': Heap, s': nat, h'': Heap, s'': nat, y: nat, to: seq<nat> -> seq<nat>,
                         fro: seq<nat> -> seq<nat>, to': seq<nat> -> seq<nat>, fro': seq<nat> -> seq<nat>)
    returns (there: seq<nat> -> seq<nat>, back: seq<nat> -> seq<nat>)
    requires Paired(h, s, h', s', y, to, fro) && Paired(h', s', h'', s'', y, to', fro')
    ensures Paired(h, s, h'', s'', y, there, back)
  {
    hide PathTo, Alike, Paired;
    there, back := p => to'(to(p)), q => fro(fro'(q));
    forall p | PathTo(h, s, p, y)
      ensures PathTo(h'', s'', there(p), y) && Alike(h, p, h'', there(p)) && back(there(p)) == p
    {
      PairedTo(h, s, h', s', y, to, fro, p);
      PairedTo(h', s', h'', s'', y, to', fro', to(p));
      AlikeTransitive(h, p, h', to(p), h'', there(p));
    }
    forall q | PathTo(h'', s'', q, y)
      ensures PathTo(h, s, back(q), y) && Alike(h'', q, h, back(q)) && there(back(q)) == q
    {
      PairedFro(h', s', h'', s'', y, to', fro', q);
      PairedFro(h, s, h', s', y, to, fro, fro'(q));
      AlikeTransitive(h'', q, h', fro'(q), h, back(q));
    }
    IsPaired(h, s, h'', s'', y, there, back);
  }

  lemma PairedTo(h: Heap, s: nat, h': Heap, s': nat, y: nat, to: seq<nat> -> seq<nat>, fro: seq<nat> -> seq<nat>, p: seq<nat>)
    requires Paired(h, s, h', s', y, to, fro) && PathTo(h, s, p, y)
    ensures PathTo(h', s', to(p), y) && Alike(h, p, h', to(p)) && fro(to(p)) == p
  {
    hide PathTo, Alike;
  }

  lemma PairedFro(h: Heap, s: nat, h': Heap, s': nat, y: nat, to: seq<nat> -> seq<nat>, fro: seq<nat> -> seq<nat>, q: seq<nat>)
    requires Paired(h, s, h', s', y, to, fro) && PathTo(h', s', q, y)
    ensures PathTo(h, s, fro(q), y) && Alike(h', q, h, fro(q)) && to(fro(q)) == q
  {
    hide PathTo, Alike;
  }

  lemma IsPaired(h: Heap, s: nat, h': Heap, s': nat, y: nat, to: seq<nat> -> seq<nat>, fro: seq<nat> -> seq<nat>)
    requires forall p {:trigger PathTo(h, s, p, y)} | PathTo(h, s, p, y) ::
               PathTo(h', s', to(p), y) && Alike(h, p, h', to(p)) && fro(to(p)) == p
    requires forall q {:trigger PathTo(h', s', q, y)} | PathTo(h', s', q, y) ::
               PathTo(h, s, fro(q), y) && Alike(h', q, h, fro(q)) && to(fro(q)) == q
    ensures Paired(h, s, h', s', y, to, fro)
  {
    hide PathTo, Alike;
  }

  lemma CorrespondsTransitive(h: Heap, s: nat, h': Heap, s': nat, h'': Heap, s'': nat, y: nat)
    requires Corresponds(h, s, h', s', y) && Corresponds(h', s', h'', s'', y)
    ensures Corresponds(h, s, h'', s'', y)
  {
    hide Paired;
    var to, fro :| Paired(h, s, h', s', y, to, fro);
    var to', fro' :| Paired(h', s', h'', s'', y, to', fro');
    var there, back := PairedTransitive(h, s, h', s', h'', s'', y, to, fro, to', fro');
  }

  // ---- paths within the match ----

  /** A path to a mapped node is mapped throughout. */
  lemma {:induction false} MappedBefore(h: Heap, f: Nodes, p: seq<nat>, k: nat, n: nat)
    requires UpClosed(h, f) && k <= n < |p| && p[n] in f && forall i | k <= i < n :: Way(h, p[i], p[i + 1])
    ensures p[k] in f
    decreases n - k
  {
    if k < n {
      MappedBefore(h, f, p, k + 1, n);
      assert Way(h, p[k], p[k + 1]);
    }
  }

  ghost function Through(f: Nodes, p: seq<nat>): (q: seq<nat>)
    requires forall v | v in p :: v in f
    ensures |q| == |p| && forall k | 0 <= k < |p| :: q[k] == f[p[k]]
  {
    seq(|p|, k requires 0 <= k < |p| => f[p[k]])
  }

  /** A path with its mapped nodes replaced. */
  ghost function Swap(f: Nodes, p: seq<nat>): (q: seq<nat>)
    ensures |q| == |p| && forall k | 0 <= k < |p| :: q[k] == if p[k] in f then f[p[k]] else p[k]
  {
    seq(|p|, k requires 0 <= k < |p| => if p[k] in f then f[p[k]] else p[k])
  }

  lemma SwapHalf(f: Nodes, p: seq<nat>, t: nat)
    requires t <= |p| && (forall v | v in p[..t] :: v in f) && (forall k | t <= k < |p| :: p[k] !in f)
    ensures Swap(f, p) == Through(f, p[..t]) + p[t..]
  {
    forall k | 0 <= k < t
      ensures p[k] in f && Through(f, p[..t])[k] == f[p[k]]
    {
      assert p[..t][k] == p[k] && p[k] in p[..t];
    }
  }

  /** Replacing twice gives the path back, if no other node of it is an image. */
  lemma SwapBack(f: Nodes, g: Nodes, p: seq<nat>)
    requires Inverse(f, g) && forall k | 0 <= k < |p| :: p[k] in f || p[k] !in g
    ensures Swap(g, Swap(f, p)) == p
  {
  }

  lemma SwapBackOver(g: Nodes, f: Nodes, p: seq<nat>)
    requires Inverse(f, g) && forall k | 0 <= k < |p| :: p[k] in g || p[k] !in f
    ensures Swap(f, Swap(g, p)) == p
  {
    SwapBack(g, f, p);
  }

  /** The image of a path to a mapped node is a path. */
  lemma ThroughPath(h: Heap, f: Nodes, p: seq<nat>, s: nat)
    requires UpClosed(h, f) && Path(h, s, p) && p[|p| - 1] in f && s in f
    ensures forall v | v in p :: v in f
    ensures Path(h, f[s], Through(f, p))
  {
    forall v | v in p
      ensures v in f
    {
      var k: nat :| k < |p| && p[k] == v;
      MappedBefore(h, f, p, k, |p| - 1);
    }
    var q := Through(f, p);
    forall k | 0 <= k < |q| - 1
      ensures Way(h, q[k], q[k + 1])
    {
      assert p[k + 1] in p && Way(h, p[k], p[k + 1]);
    }
  }

  // ---- the attached graph ----

  ghost predicate SameLabels(h: Heap, h': Heap)
    requires |h| == |h'|
  {
    forall u | 0 <= u < |h| :: h'[u].data == h[u].data
  }

  /** `n`, the successor of `b`, becomes the last successor of `a` instead. */
  ghost predicate Attached(h: Heap, h': Heap, a: nat, b: nat, n: nat) {
    && |h'| == |h| && a < |h| && b < |h| && a != b && SameLabels(h, h')
    && h'[a].data == h[a].data && h'[a].to == h[a].to + [n]
    && h'[b].data == h[b].data && (forall v :: v in h'[b].to <==> v in h[b].to && v != n)
    && (forall i, j | 0 <= i < j < |h'[b].to| :: h'[b].to[i] != h'[b].to[j])
    && (forall u | 0 <= u < |h| && u != a && u != b :: h'[u] == h[u])
  }

  lemma AttachedWays(h: Heap, h': Heap, a: nat, b: nat, n: nat, u: nat, v: nat)
    requires Attached(h, h', a, b, n) && n !in h[a].to
    ensures Way(h', u, v) <==> (Way(h, u, v) && !(u == b && v == n)) || (u == a && v == n)
  {
  }

  /** The match goes no further than `b`, whose successor is `n`. */
  ghost predicate Poised(h: Heap, c: Cert, f: Nodes, g: Nodes, a: nat, b: nat, n: nat, so: nat, sn: nat) {
    Matched(h, c, f, g, a, b, so, sn) && so != sn && OnlyNext(h, b, n) && !IsKind(h, b, End)
  }

  /** All that is known when the merge attaches. */
  ghost predicate Joined(h: Heap, c: Cert, h': Heap, f: Nodes, g: Nodes, a: nat, b: nat, n: nat, so: nat, sn: nat) {
    Poised(h, c, f, g, a, b, n, so, sn) && Attached(h, h', a, b, n)
  }

  lemma SameRoot(h: Heap, c: Cert, u: nat, v: nat)
    requires Shape(h, c) && Way(h, u, v)
    ensures v < |h| && c.root[u] == c.root[v]
  {
    var i :| 0 <= i < |h[u].to| && h[u].to[i] == v;
  }

  /** `n` is below the match, in the new graph. */
  lemma BelowMatch(h: Heap, c: Cert, h': Heap, f: Nodes, g: Nodes, a: nat, b: nat, n: nat, so: nat, sn: nat)
    requires Joined(h, c, h', f, g, a, b, n, so, sn)
    ensures n < |h| && c.root[n] == sn && n !in f && n !in h[a].to && c.root[b] == sn && c.root[a] == so
    ensures b in f && f[b] == a && a in g && g[a] == b
  {
    SpineEdge(h, c, b, n);
    if n in h[a].to {
      SameRoot(h, c, a, n);
    }
    hide UpClosed, Forward;
  }

  /** A path of the new graph that leaves the match does so from `b` to `n`, once. */
  lemma LeavesMatch(h: Heap, c: Cert, f: Nodes, b: nat, n: nat, q: seq<nat>) returns (t: nat)
    requires UpClosed(h, f) && Forward(h, f, b) && OnlyNext(h, b, n)
    requires |q| > 0 && Path(h, q[0], q) && q[0] in f && q[|q| - 1] !in f
    ensures 0 < t < |q| && q[t - 1] == b && q[t] == n
    ensures (forall k | 0 <= k < t :: q[k] in f) && (forall k | t <= k < |q| :: q[k] !in f)
  {
    t := 1;
    while q[t] in f
      invariant 0 < t < |q| && forall k | 0 <= k < t :: q[k] in f
      decreases |q| - t
    {
      t := t + 1;
    }
    assert Way(h, q[t - 1], q[t]);
    forall k | t <= k < |q|
      ensures q[k] !in f
    {
      if q[k] in f {
        MappedBefore(h, f, q, t, k);
      }
    }
  }

  /** Every node of a path is in the graph of its start. */
  lemma {:induction false} PathRoot(h: Heap, c: Cert, s: nat, p: seq<nat>, k: nat)
    requires Shape(h, c) && Path(h, s, p) && s < |h| && k < |p|
    ensures p[k] < |h| && c.root[p[k]] == c.root[s]
    decreases k
  {
    if k > 0 {
      PathRoot(h, c, s, p, k - 1);
      assert Way(h, p[k - 1], p[k - 1 + 1]);
      SameRoot(h, c, p[k - 1], p[k]);
    }
  }

  /** A path that maps its first part and keeps the rest is like the original if
      the two parts do not meet. */
  lemma HalfMapped(h: Heap, h': Heap, c: Cert, f: Nodes, g: Nodes, q: seq<nat>, t: nat, so: nat, sn: nat)
    requires Sized(h, c) && |h'| == |h| && SameLabels(h, h')
    requires Inverse(f, g) && Labelled(h, c, f, so, sn) && so != sn
    requires t <= |q| && (forall v | v in q[..t] :: v in f)
    requires forall k | t <= k < |q| :: q[k] !in f && q[k] < |h| && c.root[q[k]] == sn
    ensures Alike(h, q, h', Through(f, q[..t]) + q[t..])
  {
    var p := Through(f, q[..t]) + q[t..];
    forall k | 0 <= k < |q|
      ensures p[k] < |h| && q[k] < |h| && SameData(h[q[k]].data, h'[p[k]].data)
      ensures k < t ==> q[k] in f && p[k] == f[q[k]] && c.root[p[k]] == so
      ensures k >= t ==> p[k] == q[k] && c.root[p[k]] == sn
    {
      if k < t {
        assert q[..t][k] == q[k] && q[k] in q[..t];
      }
    }
  }

  /** The mapped first part, the new edge and the rest make a path. */
  lemma NewEdges(h: Heap, c: Cert, h': Heap, f: Nodes, a: nat, b: nat, n: nat, so: nat, sn: nat, q: seq<nat>, t: nat)
    requires Attached(h, h', a, b, n) && UpClosed(h, f) && sn in f && f[sn] == so && b in f && f[b] == a && n !in h[a].to
    requires Sized(h, c) && Labelled(h, c, f, so, sn) && so != sn && c.root[a] == so
    requires Path(h, sn, q) && 0 < t < |q| && q[t - 1] == b && q[t] == n
    requires (forall k | 0 <= k < t :: q[k] in f) && (forall k | t <= k < |q| :: q[k] !in f && q[k] < |h| && c.root[q[k]] == sn)
    ensures forall v | v in q[..t] :: v in f
    ensures Path(h', so, Through(f, q[..t]) + q[t..])
  {
    var front := q[..t];
    assert Path(h, sn, front);
    ThroughPath(h, f, front, sn);
    var p := Through(f, front) + q[t..];
    forall k | 0 <= k < |p| - 1
      ensures Way(h', p[k], p[k + 1])
    {
      if k < t - 1 {
        assert front[k] == q[k] && front[k + 1] == q[k + 1] && q[k + 1] in f;
        assert Way(h, Through(f, front)[k], Through(f, front)[k + 1]);
      } else if k >= t {
        assert Way(h, q[k], q[k + 1]);
      }
      AttachedWays(h, h', a, b, n, p[k], p[k + 1]);
    }
  }

  /** A path of the new graph to a node below the match, in the merged graph. */
  lemma NewPath(h: Heap, c: Cert, h': Heap, f: Nodes, g: Nodes, a: nat, b: nat, n: nat, so: nat, sn: nat, y: nat, q: seq<nat>)
    returns (p: seq<nat>)
    requires Joined(h, c, h', f, g, a, b, n, so, sn) && y !in f && PathTo(h, sn, q, y)
    ensures PathTo(h', so, p, y) && Alike(h, q, h', p) && p == Swap(f, q) && Swap(g, p) == q
  {
    BelowMatch(h, c, h', f, g, a, b, n, so, sn);
    assert sn < |h| && c.root[sn] == sn;
    hide UpClosed, Forward, Inverse, Labelled, Ranked, Shape;
    var t := LeavesMatch(h, c, f, b, n, q);
    forall k | 0 <= k < |q|
      ensures q[k] < |h| && c.root[q[k]] == sn
    {
      PathRoot(h, c, sn, q, k);
    }
    NewEdges(h, c, h', f, a, b, n, so, sn, q, t);
    HalfMapped(h, h', c, f, g, q, t, so, sn);
    SwapHalf(f, q, t);
    NotImages(h, c, f, g, so, sn);
    SwapBack(f, g, q);
    p := Swap(f, q);
  }

  /** Nodes of the new graph are not images. */
  lemma NotImages(h: Heap, c: Cert, f: Nodes, g: Nodes, so: nat, sn: nat)
    requires Sized(h, c) && Inverse(f, g) && Labelled(h, c, f, so, sn) && so != sn
    ensures forall u {:trigger u in g} | 0 <= u < |h| && c.root[u] == sn :: u !in g
    ensures forall u {:trigger u in f} | 0 <= u < |h| && c.root[u] == so :: u !in f
  {
    forall u: nat | u < |h| && u in g
      ensures c.root[u] == so
    {
      assert f[g[u]] == u;
    }
  }

  /** Once over the new edge, a path of the merged graph stays below the match. */
  lemma {:induction false} Crosses(h: Heap, c: Cert, h': Heap, f: Nodes, a: nat, b: nat, n: nat, so: nat, sn: nat,
                                   p: seq<nat>, t: nat, k: nat)
    requires Shape(h, c) && Attached(h, h', a, b, n) && UpClosed(h, f) && n !in h[a].to && b in f && n !in f
    requires n < |h| && a < |h| && c.root[n] == sn && c.root[a] == so && so != sn
    requires Path(h', so, p) && t <= k < |p| && p[t] == n
    ensures p[k] < |h| && p[k] !in f && c.root[p[k]] == sn && (k > t ==> Way(h, p[k - 1], p[k]))
    decreases k
  {
    hide Shape, Attached, UpClosed;
    if k > t {
      Crosses(h, c, h', f, a, b, n, so, sn, p, t, k - 1);
      assert Way(h', p[k - 1], p[k - 1 + 1]);
      StepBelow(h, c, h', f, a, b, n, p[k - 1], p[k]);
    }
  }

  lemma StepBelow(h: Heap, c: Cert, h': Heap, f: Nodes, a: nat, b: nat, n: nat, u: nat, v: nat)
    requires Shape(h, c) && Attached(h, h', a, b, n) && UpClosed(h, f) && n !in h[a].to && b in f
    requires Way(h', u, v) && u < |h| && u !in f && c.root[u] != c.root[a]
    ensures Way(h, u, v) && v < |h| && v !in f && c.root[v] == c.root[u]
  {
    AttachedWays(h, h', a, b, n, u, v);
    SameRoot(h, c, u, v);
    assert v in f ==> u in f;
  }

  /** Until it crosses, a path of the merged graph is one of the old graph. */
  lemma Stays(h: Heap, c: Cert, h': Heap, a: nat, b: nat, n: nat, so: nat, sn: nat, p: seq<nat>) returns (t: nat)
    requires Shape(h, c) && Attached(h, h', a, b, n) && n !in h[a].to && so < |h| && c.root[so] == so
    requires n < |h| && c.root[n] == sn && c.root[a] == so && so != sn
    requires Path(h', so, p)
    ensures 0 < t <= |p| && (forall k | 0 <= k < t :: p[k] < |h| && c.root[p[k]] == so)
    ensures forall k | 0 <= k < t - 1 :: Way(h, p[k], p[k + 1])
    ensures t < |p| ==> p[t - 1] == a && p[t] == n
  {
    hide Edges, Parents, Pairs, Nested, Leaves, Attached;
    t := 1;
    while t < |p| && p[t] != n
      invariant 0 < t <= |p| && (forall k | 0 <= k < t :: p[k] < |h| && c.root[p[k]] == so)
      invariant forall k | 0 <= k < t - 1 :: Way(h, p[k], p[k + 1])
    {
      assert Way(h', p[t - 1], p[t - 1 + 1]);
      AttachedWays(h, h', a, b, n, p[t - 1], p[t]);
      SameRoot(h, c, p[t - 1], p[t]);
      t := t + 1;
    }
    if t < |p| {
      assert Way(h', p[t - 1], p[t - 1 + 1]);
      AttachedWays(h, h', a, b, n, p[t - 1], p[t]);
      if Way(h, p[t - 1], p[t]) {
        SameRoot(h, c, p[t - 1], p[t]);
      }
    }
  }

  lemma AlikeSymmetric(h: Heap, p: seq<nat>, h': Heap, q: seq<nat>)
    requires Alike(h, p, h', q)
    ensures Alike(h', q, h, p)
  {
  }

  /** The part before the crossing taken back to the new graph, the edge that was
      there and the rest make a path of the new graph. */
  lemma OldEdges(h: Heap, f: Nodes, g: Nodes, a: nat, b: nat, n: nat, so: nat, sn: nat, p: seq<nat>, t: nat)
    requires UpClosed(h, g) && so in g && g[so] == sn && a in g && g[a] == b && Way(h, b, n)
    requires 0 < t < |p| && p[0] == so && p[t - 1] == a && p[t] == n
    requires (forall k | 0 <= k < t - 1 :: Way(h, p[k], p[k + 1])) && (forall k | t <= k < |p| - 1 :: Way(h, p[k], p[k + 1]))
    ensures forall v | v in p[..t] :: v in g
    ensures Path(h, sn, Through(g, p[..t]) + p[t..])
  {
    var front := p[..t];
    assert Path(h, so, front);
    ThroughPath(h, g, front, so);
    var q := Through(g, front) + p[t..];
    forall k | 0 <= k < |q| - 1
      ensures Way(h, q[k], q[k + 1])
    {
      if k < t - 1 {
        assert Way(h, Through(g, front)[k], Through(g, front)[k + 1]);
      } else if k >= t {
        assert Way(h, p[k], p[k + 1]);
      }
    }
  }

  /** A path of the merged graph to a node below the match, in the new graph. */
  lemma MergedPath(h: Heap, c: Cert, h': Heap, f: Nodes, g: Nodes, a: nat, b: nat, n: nat, so: nat, sn: nat, y: nat, p: seq<nat>)
    returns (q: seq<nat>)
    requires Joined(h, c, h', f, g, a, b, n, so, sn) && y < |h| && c.root[y] == sn && PathTo(h', so, p, y)
    ensures PathTo(h, sn, q, y) && Alike(h', p, h, q) && q == Swap(g, p) && Swap(f, q) == p
  {
    BelowMatch(h, c, h', f, g, a, b, n, so, sn);
    assert so < |h| && c.root[so] == so && so in g && g[so] == sn && Way(h, b, n);
    assert Sized(h, c) && |h'| == |h| && SameLabels(h, h');
    assert |c.root| == |h|;
    hide UpClosed, Forward, Labelled, Ranked, Shape, OnlyNext, Inverse, Attached, SameLabels, Sized, Spine, Alike;
    var t := Stays(h, c, h', a, b, n, so, sn, p);
    forall k | t <= k < |p|
      ensures p[k] < |h| && p[k] !in f && c.root[p[k]] == sn
    {
      Crosses(h, c, h', f, a, b, n, so, sn, p, t, k);
    }
    forall k | t <= k < |p| - 1
      ensures Way(h, p[k], p[k + 1])
    {
      Crosses(h, c, h', f, a, b, n, so, sn, p, t, k + 1);
    }
    assert t < |p|;
    q := Uncross(h, c, h', f, g, a, b, n, so, sn, p, t);
  }

  lemma Uncross(h: Heap, c: Cert, h': Heap, f: Nodes, g: Nodes, a: nat, b: nat, n: nat, so: nat, sn: nat, p: seq<nat>, t: nat)
    returns (q: seq<nat>)
    requires Sized(h, c) && |h'| == |h| && SameLabels(h, h') && Inverse(f, g) && Labelled(h, c, f, so, sn) && so != sn
    requires UpClosed(h, g) && so in g && g[so] == sn && a in g && g[a] == b && Way(h, b, n)
    requires 0 < t < |p| && p[0] == so && p[t - 1] == a && p[t] == n
    requires (forall k | 0 <= k < t - 1 :: Way(h, p[k], p[k + 1])) && (forall k | t <= k < |p| - 1 :: Way(h, p[k], p[k + 1]))
    requires forall k | t <= k < |p| :: p[k] !in f && p[k] < |h| && c.root[p[k]] == sn
    ensures Path(h, sn, q) && |q| == |p| && q[|q| - 1] == p[|p| - 1] && Alike(h', p, h, q)
    ensures q == Swap(g, p) && Swap(f, q) == p
  {
    hide UpClosed, Inverse, Labelled, SameLabels, Alike;
    OldEdges(h, f, g, a, b, n, so, sn, p, t);
    TakenBack(h, c, h', f, g, so, sn, p, t);
    NotImages(h, c, f, g, so, sn);
    SwapHalf(g, p, t);
    InGraph(g, p, t, f);
    SwapBackOver(g, f, p);
    q := Swap(g, p);
  }

  lemma InGraph(g: Nodes, p: seq<nat>, t: nat, f: Nodes)
    requires t <= |p| && (forall v | v in p[..t] :: v in g) && forall k | t <= k < |p| :: p[k] !in f
    ensures forall k | 0 <= k < |p| :: p[k] in g || p[k] !in f
  {
    forall k | 0 <= k < t
      ensures p[k] in g
    {
      assert p[..t][k] == p[k];
    }
  }

  lemma TakenBack(h: Heap, c: Cert, h': Heap, f: Nodes, g: Nodes, so: nat, sn: nat, p: seq<nat>, t: nat)
    requires Sized(h, c) && |h'| == |h| && SameLabels(h, h')
    requires Inverse(f, g) && Labelled(h, c, f, so, sn) && so != sn
    requires t <= |p| && (forall v | v in p[..t] :: v in g)
    requires forall k | t <= k < |p| :: p[k] !in f && p[k] < |h| && c.root[p[k]] == sn
    ensures Alike(h', p, h, Through(g, p[..t]) + p[t..])
  {
    var q := Through(g, p[..t]) + p[t..];
    BackAndForth(f, g, p, t);
    hide Alike, Inverse, Labelled;
    HalfMapped(h, h', c, f, g, q, t, so, sn);
    AlikeSymmetric(h, q, h', p);
  }

  lemma BackAndForth(f: Nodes, g: Nodes, p: seq<nat>, t: nat)
    requires Inverse(f, g) && t <= |p| && forall v | v in p[..t] :: v in g
    ensures var q := Through(g, p[..t]) + p[t..];
            (forall v | v in q[..t] :: v in f) && Through(f, q[..t]) + q[t..] == p
  {
    var q := Through(g, p[..t]) + p[t..];
    assert q[..t] == Through(g, p[..t]);
    forall k | 0 <= k < t
      ensures q[k] in f && f[q[k]] == p[k]
    {
      assert p[..t][k] == p[k] && p[k] in p[..t];
    }
  }

  // ---- what the merge leaves alone ----

  /** Edges between nodes of graphs other than the new one stay as they are. */
  lemma KeptForward(h: Heap, c: Cert, h': Heap, a: nat, b: nat, n: nat, r: nat, p: seq<nat>)
    requires Shape(h, c) && Attached(h, h', a, b, n) && n !in h[a].to && r < |h| && c.root[r] != c.root[b]
    requires Path(h, r, p)
    ensures Path(h', r, p)
  {
    forall k | 0 <= k < |p| - 1
      ensures Way(h', p[k], p[k + 1])
    {
      PathRoot(h, c, r, p, k);
      assert Way(h, p[k], p[k + 1]);
      AttachedWays(h, h', a, b, n, p[k], p[k + 1]);
    }
  }

  lemma {:induction false} KeptOther(h: Heap, c: Cert, h': Heap, a: nat, b: nat, n: nat, r: nat, p: seq<nat>, k: nat)
    requires Shape(h, c) && Attached(h, h', a, b, n) && n !in h[a].to && r < |h| && c.root[r] != c.root[a]
    requires Path(h', r, p) && k < |p|
    ensures p[k] < |h| && c.root[p[k]] == c.root[r] && (k > 0 ==> Way(h, p[k - 1], p[k]))
    decreases k
  {
    if k > 0 {
      KeptOther(h, c, h', a, b, n, r, p, k - 1);
      assert Way(h', p[k - 1], p[k - 1 + 1]);
      AttachedWays(h, h', a, b, n, p[k - 1], p[k]);
      SameRoot(h, c, p[k - 1], p[k]);
    }
  }

  /** A path of the merged graph to an old node is a path of the old graph. */
  lemma KeptOld(h: Heap, c: Cert, h': Heap, f: Nodes, g: Nodes, a: nat, b: nat, n: nat, so: nat, sn: nat, y: nat, p: seq<nat>)
    requires Joined(h, c, h', f, g, a, b, n, so, sn) && y < |h| && c.root[y] == so && PathTo(h', so, p, y)
    ensures PathTo(h, so, p, y)
  {
    BelowMatch(h, c, h', f, g, a, b, n, so, sn);
    assert so < |h| && c.root[so] == so;
    hide UpClosed, Forward, Labelled, Ranked, Shape, OnlyNext, Inverse, Attached, Spine;
    var t := Stays(h, c, h', a, b, n, so, sn, p);
    if t < |p| {
      Crosses(h, c, h', f, a, b, n, so, sn, p, t, |p| - 1);
    }
  }

  lemma AlikeSelf(h: Heap, c: Cert, h': Heap, r: nat, p: seq<nat>)
    requires Shape(h, c) && |h| == |h'| && SameLabels(h, h') && r < |h| && Path(h, r, p)
    ensures Alike(h, p, h', p) && Alike(h', p, h, p)
  {
    forall k | 0 <= k < |p|
      ensures p[k] < |h|
    {
      PathRoot(h, c, r, p, k);
    }
  }

  // ---- the theorem ----

  /** Merging keeps the paths to every node of the old graph and of graphs not
      involved, and gives every node of the new graph below the match the paths it
      had there, neither more nor fewer. */
  lemma MergeExact(h: Heap, c: Cert, h': Heap, f: Nodes, g: Nodes, a: nat, b: nat, n: nat, so: nat, sn: nat, y: nat)
    requires Joined(h, c, h', f, g, a, b, n, so, sn) && y < |h| && y !in f
    requires c.root[y] < |h| && c.root[c.root[y]] == c.root[y]
    ensures c.root[y] == sn ==> Corresponds(h', so, h, sn, y)
    ensures c.root[y] != sn ==> Corresponds(h', c.root[y], h, c.root[y], y)
  {
    hide Joined, Corresponds;
    JoinedSized(h, c, h', f, g, a, b, n, so, sn);
    if c.root[y] == sn {
      NewExact(h, c, h', f, g, a, b, n, so, sn, y);
    } else {
      OldExact(h, c, h', f, g, a, b, n, so, sn, y);
    }
  }

  lemma JoinedSized(h: Heap, c: Cert, h': Heap, f: Nodes, g: Nodes, a: nat, b: nat, n: nat, so: nat, sn: nat)
    requires Joined(h, c, h', f, g, a, b, n, so, sn)
    ensures |c.root| == |h|
  {
  }

  lemma NewExact(h: Heap, c: Cert, h': Heap, f: Nodes, g: Nodes, a: nat, b: nat, n: nat, so: nat, sn: nat, y: nat)
    requires Joined(h, c, h', f, g, a, b, n, so, sn) && y < |h| && y !in f && c.root[y] == sn
    ensures Corresponds(h', so, h, sn, y)
  {
    hide Alike, PathTo, Joined;
    var to: seq<nat> -> seq<nat>, fro: seq<nat> -> seq<nat> := p => Swap(g, p), q => Swap(f, q);
    forall p | PathTo(h', so, p, y)
      ensures PathTo(h, sn, to(p), y) && Alike(h', p, h, to(p)) && fro(to(p)) == p
    {
      var q := MergedPath(h, c, h', f, g, a, b, n, so, sn, y, p);
    }
    forall q | PathTo(h, sn, q, y)
      ensures PathTo(h', so, fro(q), y) && Alike(h, q, h', fro(q)) && to(fro(q)) == q
    {
      var p := NewPath(h, c, h', f, g, a, b, n, so, sn, y, q);
    }
    IsPaired(h', so, h, sn, y, to, fro);
  }

  lemma OldExact(h: Heap, c: Cert, h': Heap, f: Nodes, g: Nodes, a: nat, b: nat, n: nat, so: nat, sn: nat, y: nat)
    requires Joined(h, c, h', f, g, a, b, n, so, sn) && y < |h| && c.root[y] != sn
    requires c.root[y] < |h| && c.root[c.root[y]] == c.root[y]
    ensures Corresponds(h', c.root[y], h, c.root[y], y)
  {
    hide Alike, PathTo, Joined;
    JoinedSized(h, c, h', f, g, a, b, n, so, sn);
    var same: seq<nat> -> seq<nat> := p => p;
    forall p | PathTo(h', c.root[y], p, y)
      ensures PathTo(h, c.root[y], p, y) && Alike(h', p, h, p)
    {
      KeptPath(h, c, h', f, g, a, b, n, so, sn, y, p);
    }
    forall p | PathTo(h, c.root[y], p, y)
      ensures PathTo(h', c.root[y], p, y) && Alike(h, p, h', p)
    {
      KeptPathBack(h, c, h', f, g, a, b, n, so, sn, y, p);
    }
    IsPaired(h', c.root[y], h, c.root[y], y, same, same);
  }

  lemma KeptPath(h: Heap, c: Cert, h': Heap, f: Nodes, g: Nodes, a: nat, b: nat, n: nat, so: nat, sn: nat, y: nat, p: seq<nat>)
    requires Joined(h, c, h', f, g, a, b, n, so, sn) && y < |h| && c.root[y] != sn
    requires c.root[y] < |h| && c.root[c.root[y]] == c.root[y] && PathTo(h', c.root[y], p, y)
    ensures PathTo(h, c.root[y], p, y) && Alike(h', p, h, p)
  {
    BelowMatch(h, c, h', f, g, a, b, n, so, sn);
    var r := c.root[y];
    if r == so {
      KeptOld(h, c, h', f, g, a, b, n, so, sn, y, p);
    } else {
      forall k | 0 <= k < |p| - 1
        ensures Way(h, p[k], p[k + 1])
      {
        KeptOther(h, c, h', a, b, n, r, p, k + 1);
      }
    }
    AlikeSelf(h, c, h', r, p);
  }

  lemma KeptPathBack(h: Heap, c: Cert, h': Heap, f: Nodes, g: Nodes, a: nat, b: nat, n: nat, so: nat, sn: nat, y: nat,
                     p: seq<nat>)
    requires Joined(h, c, h', f, g, a, b, n, so, sn) && y < |h| && c.root[y] != sn
    requires c.root[y] < |h| && c.root[c.root[y]] == c.root[y] && PathTo(h, c.root[y], p, y)
    ensures PathTo(h', c.root[y], p, y) && Alike(h, p, h', p)
  {
    BelowMatch(h, c, h', f, g, a, b, n, so, sn);
    KeptForward(h, c, h', a, b, n, c.root[y], p);
    AlikeSelf(h, c, h', c.root[y], p);
  }

  // ---- paths to any node ----

  /** Every path from `s` in `h` has one like it from `s'` in `h'`. */
  ghost predicate Carried(h: Heap, s: nat, h': Heap, s': nat) {
    forall q | Path(h, s, q) :: exists p :: Path(h', s', p) && Alike(h, q, h', p)
  }

  /** Every path from `s'` in `h'` has one like it in `h`, from one of `ss`. */
  ghost predicate Sourced(h: Heap, ss: seq<nat>, h': Heap, s': nat) {
    forall p | Path(h', s', p) :: Source(h, ss, h', p)
  }

  ghost predicate Source(h: Heap, ss: seq<nat>, h': Heap, p: seq<nat>) {
    exists s, q :: s in ss && Path(h, s, q) && Alike(h', p, h, q)
  }

  lemma CarriedTransitive(h: Heap, s: nat, h': Heap, s': nat, h'': Heap, s'': nat)
    requires Carried(h, s, h', s') && Carried(h', s', h'', s'')
    ensures Carried(h, s, h'', s'')
  {
    hide Path, Alike;
    forall q | Path(h, s, q)
      ensures exists p :: Path(h'', s'', p) && Alike(h, q, h'', p)
    {
      var p :| Path(h', s', p) && Alike(h, q, h', p);
      var r :| Path(h'', s'', r) && Alike(h', p, h'', r);
      AlikeTransitive(h, q, h', p, h'', r);
    }
  }

  lemma SourcedTransitive(h: Heap, ss: seq<nat>, h': Heap, ss': seq<nat>, h'': Heap, s'': nat)
    requires Sourced(h', ss', h'', s'') && forall s | s in ss' :: Sourced(h, ss, h', s)
    ensures Sourced(h, ss, h'', s'')
  {
    hide Path, Alike;
    forall p | Path(h'', s'', p)
      ensures Source(h, ss, h'', p)
    {
      assert Source(h', ss', h'', p);
      var s', q :| s' in ss' && Path(h', s', q) && Alike(h'', p, h', q);
      assert Source(h, ss, h', q);
      var s, r :| s in ss && Path(h, s, r) && Alike(h', q, h, r);
      AlikeTransitive(h'', p, h', q, h, r);
    }
  }

  lemma CarriedSourced(h: Heap, s: nat, h': Heap, s': nat, ss: seq<nat>)
    requires Carried(h', s', h, s) && s in ss
    ensures Sourced(h, ss, h', s')
  {
    hide Path, Alike;
  }

  lemma MoreSources(h: Heap, ss: seq<nat>, h': Heap, s': nat, more: seq<nat>)
    requires Sourced(h, ss, h', s') && forall s | s in ss :: s in more
    ensures Sourced(h, more, h', s')
  {
    hide Path, Alike;
    forall p | Path(h', s', p)
      ensures Source(h, more, h', p)
    {
      assert Source(h, ss, h', p);
    }
  }

  /** A path of the new graph, whether or not it leaves the match. */
  lemma NewWalk(h: Heap, c: Cert, h': Heap, f: Nodes, g: Nodes, a: nat, b: nat, n: nat, so: nat, sn: nat, q: seq<nat>)
    returns (p: seq<nat>)
    requires Joined(h, c, h', f, g, a, b, n, so, sn) && Path(h, sn, q)
    ensures Path(h', so, p) && Alike(h, q, h', p)
  {
    var y := q[|q| - 1];
    if y !in f {
      p := NewPath(h, c, h', f, g, a, b, n, so, sn, y, q);
    } else {
      BelowMatch(h, c, h', f, g, a, b, n, so, sn);
      WithinMatch(h, c, h', f, g, a, b, n, so, sn, q);
      p := Through(f, q);
    }
  }

  lemma WithinMatch(h: Heap, c: Cert, h': Heap, f: Nodes, g: Nodes, a: nat, b: nat, n: nat, so: nat, sn: nat, q: seq<nat>)
    requires Joined(h, c, h', f, g, a, b, n, so, sn) && Path(h, sn, q) && q[|q| - 1] in f
    ensures (forall v | v in q :: v in f) && Path(h', so, Through(f, q)) && Alike(h, q, h', Through(f, q))
  {
    BelowMatch(h, c, h', f, g, a, b, n, so, sn);
    assert so < |h| && c.root[so] == so && f[sn] == so && sn in f;
    assert Sized(h, c) && |h'| == |h| && SameLabels(h, h');
    hide UpClosed, Forward, Inverse, Labelled, Ranked, Shape, OnlyNext, Attached, SameLabels, Sized, Spine, Alike, Way;
    ThroughPath(h, f, q, sn);
    KeptForward(h, c, h', a, b, n, so, Through(f, q));
    assert q[..|q|] == q && q[|q|..] == [];
    HalfMapped(h, h', c, f, g, q, |q|, so, sn);
    assert Through(f, q) + [] == Through(f, q);
  }

  /** A path of the merged graph, whether or not it crosses. */
  lemma MergedWalk(h: Heap, c: Cert, h': Heap, f: Nodes, g: Nodes, a: nat, b: nat, n: nat, so: nat, sn: nat, p: seq<nat>)
    requires Joined(h, c, h', f, g, a, b, n, so, sn) && Path(h', so, p)
    ensures Source(h, [so, sn], h', p)
  {
    BelowMatch(h, c, h', f, g, a, b, n, so, sn);
    assert so < |h| && c.root[so] == so && |h'| == |h| && SameLabels(h, h');
    hide UpClosed, Forward, Labelled, Ranked, Inverse, Attached, OnlyNext, Spine, Alike, Way, SameLabels, Edges,
         Parents, Pairs, Nested, Leaves;
    var t := Stays(h, c, h', a, b, n, so, sn, p);
    if t < |p| {
      var y := p[|p| - 1];
      Crosses(h, c, h', f, a, b, n, so, sn, p, t, |p| - 1);
      var q := MergedPath(h, c, h', f, g, a, b, n, so, sn, y, p);
      assert sn in [so, sn];
    } else {
      AlikeSelf(h, c, h', so, p);
      assert so in [so, sn];
    }
  }

  /** Paths of graphs not involved stay. */
  lemma OtherWalks(h: Heap, c: Cert, h': Heap, f: Nodes, g: Nodes, a: nat, b: nat, n: nat, so: nat, sn: nat, r: nat)
    requires Joined(h, c, h', f, g, a, b, n, so, sn) && IsKind(h, r, Start) && r != sn
    ensures Carried(h, r, h', r) && (r != so ==> Carried(h', r, h, r))
  {
    BelowMatch(h, c, h', f, g, a, b, n, so, sn);
    assert HasParent(h, c, r) && |h'| == |h| && SameLabels(h, h');
    hide UpClosed, Forward, Labelled, Ranked, Inverse, Attached, OnlyNext, Spine, Alike, Way, SameLabels, Edges,
         Parents, Pairs, Nested, Leaves;
    forall q | Path(h, r, q)
      ensures Path(h', r, q) && Alike(h, q, h', q)
    {
      KeptForward(h, c, h', a, b, n, r, q);
      AlikeSelf(h, c, h', r, q);
    }
    if r != so {
      forall p | Path(h', r, p)
        ensures Path(h, r, p) && Alike(h', p, h, p)
      {
        forall k | 0 <= k < |p| - 1
          ensures Way(h, p[k], p[k + 1])
        {
          KeptOther(h, c, h', a, b, n, r, p, k + 1);
        }
        AlikeSelf(h, c, h', r, p);
      }
    }
  }
}
