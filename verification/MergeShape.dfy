/** The shape of command graphs: what the command grammar builds, and merging keeps. */
module MergeShape {
  import opened Wrappers
  import opened Tokens
  import opened CommandTree

  /** All graph nodes, of any number of graphs; edges are indices. */
  type Heap = seq<Node>

  predicate IsKind(h: Heap, u: nat, k: Kind) {
    u < |h| && h[u].data.Tok? && h[u].data.token.kind == k
  }

  /** The successor to leave out when following edges: a JOIN's own FORK, and for
      any other node the node itself. */
  function LoopStop(h: Heap, u: nat): nat
    requires u < |h|
  {
    if IsKind(h, u, Join) && h[u].data.token.forkjoin.Some? then h[u].data.token.forkjoin.value else u
  }

  /** The node paired with a FORK or JOIN. */
  function Pair(h: Heap, u: nat): nat {
    if u < |h| && h[u].data.Tok? && h[u].data.token.forkjoin.Some? then h[u].data.token.forkjoin.value else 0
  }

  /** A certificate for the shape: for each node the FORKs open at it, outermost
      first; a number that goes down along edges; a predecessor and the position
      in its list; and the start node of its graph. */
  datatype Cert = Cert(ctx: seq<seq<nat>>, rank: seq<nat>, par: seq<nat>, pos: seq<nat>, root: seq<nat>, top: nat)

  /** The FORKs open after `u`. */
  ghost function Inner(h: Heap, c: Cert, u: nat): seq<nat>
    requires u < |c.ctx|
  {
    if IsKind(h, u, Fork) then c.ctx[u] + [u] else c.ctx[u]
  }

  ghost predicate Sized(h: Heap, c: Cert) {
    && |c.ctx| == |c.rank| == |c.par| == |c.pos| == |c.root| == |h|
    && (forall u | 0 <= u < |h| :: c.rank[u] <= c.top)
  }

  /** The edge from `u` to `v` at position `i`, which is not a loop: a JOIN closes
      the innermost FORK; any other node is entered by this edge alone. */
  ghost predicate Down(h: Heap, c: Cert, u: nat, i: nat, v: nat)
    requires Sized(h, c) && u < |h| && v < |h|
  {
    && c.rank[v] < c.rank[u]
    && if IsKind(h, v, Join) then Inner(h, c, u) == c.ctx[v] + [Pair(h, v)]
       else c.ctx[v] == Inner(h, c, u) && c.par[v] == u && c.pos[v] == i
  }

  ghost predicate Edges(h: Heap, c: Cert)
    requires Sized(h, c)
  {
    && (forall u, i {:trigger h[u].to[i]} | 0 <= u < |h| && 0 <= i < |h[u].to| ::
          var v := h[u].to[i];
          && v < |h| && c.root[v] == c.root[u] && !IsKind(h, v, Start)
          && (v != LoopStop(h, u) ==> Down(h, c, u, i, v)))
    && (forall u, i, j {:trigger h[u].to[i], h[u].to[j]} | 0 <= u < |h| && 0 <= i < j < |h[u].to| :: h[u].to[i] != h[u].to[j])
  }

  /** Every node but a start node has a predecessor. */
  ghost predicate Parents(h: Heap, c: Cert)
    requires Sized(h, c)
  {
    forall v {:trigger HasParent(h, c, v)} | 0 <= v < |h| :: HasParent(h, c, v)
  }

  ghost predicate HasParent(h: Heap, c: Cert, v: nat)
    requires Sized(h, c) && v < |h|
  {
    if IsKind(h, v, Start) then c.root[v] == v && c.ctx[v] == []
    else
      && c.par[v] < |h| && c.pos[v] < |h[c.par[v]].to|
      && h[c.par[v]].to[c.pos[v]] == v && v != LoopStop(h, c.par[v])
  }

  /** The token of a node that is known to have one. */
  function Type(h: Heap, u: nat): Kind {
    if u < |h| && h[u].data.Tok? then h[u].data.token.kind else End
  }

  /** FORKs and JOINs come in pairs, with the region between them ranked between. */
  ghost predicate Pairs(h: Heap, c: Cert)
    requires Sized(h, c)
  {
    && (forall u {:trigger IsKind(h, u, Fork)} | 0 <= u < |h| && IsKind(h, u, Fork) ::
          var j := Pair(h, u);
          && Type(h, j).Join? && Pair(h, j) == u
          && c.ctx[j] == c.ctx[u] && c.rank[j] < c.rank[u] && c.root[j] == c.root[u])
    && (forall u {:trigger IsKind(h, u, Join)} | 0 <= u < |h| && IsKind(h, u, Join) ::
          Type(h, Pair(h, u)).Fork? && Pair(h, Pair(h, u)) == u && LoopStop(h, u) == Pair(h, u))
  }

  ghost predicate Nested(h: Heap, c: Cert)
    requires Sized(h, c)
  {
    forall u, k {:trigger c.ctx[u][k]} | 0 <= u < |h| && 0 <= k < |c.ctx[u]| ::
      var f := c.ctx[u][k];
      && IsKind(h, f, Fork) && c.ctx[f] == c.ctx[u][..k] && c.rank[u] < c.rank[f] && c.root[f] == c.root[u]
      && Pair(h, f) < |h| && c.rank[Pair(h, f)] < c.rank[u]
  }

  /** An END leads to its command alone, and nothing else leads to a command. */
  ghost predicate Leaves(h: Heap, c: Cert)
    requires Sized(h, c)
  {
    && (forall u | 0 <= u < |h| ::
          && (h[u].data.Cmd? ==> h[u].to == [] && c.ctx[u] == [])
          && (IsKind(h, u, End) ==> |h[u].to| == 1 && c.ctx[u] == []))
    && (forall u, i {:trigger h[u].to[i]} | 0 <= u < |h| && 0 <= i < |h[u].to| && h[u].to[i] < |h| ::
          h[h[u].to[i]].data.Cmd? <==> IsKind(h, u, End))
  }

  ghost predicate Shape(h: Heap, c: Cert) {
    Sized(h, c) && Edges(h, c) && Parents(h, c) && Pairs(h, c) && Nested(h, c) && Leaves(h, c)
  }

  lemma PairFacts(h: Heap, c: Cert, u: nat)
    requires Shape(h, c) && (IsKind(h, u, Fork) || IsKind(h, u, Join))
    ensures IsKind(h, u, Fork) ==> IsKind(h, Pair(h, u), Join) && c.rank[Pair(h, u)] < c.rank[u]
    ensures IsKind(h, u, Join) ==> IsKind(h, Pair(h, u), Fork) && c.rank[u] < c.rank[Pair(h, u)]
    ensures Pair(h, Pair(h, u)) == u && c.ctx[Pair(h, u)] == c.ctx[u] && c.root[Pair(h, u)] == c.root[u]
  {
    assert IsKind(h, Pair(h, u), Fork) || IsKind(h, Pair(h, u), Join);
  }
}
