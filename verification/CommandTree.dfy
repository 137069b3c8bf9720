/** The command graph as the matcher reads it, and one parser hop in it. */
module CommandTree {
  import opened Wrappers
  import opened Tokens

  datatype Data = Tok(token: Token) | Cmd(element: nat)

  datatype Node = Node(data: Data, to: seq<nat>)

  /** A command graph and its start node.  `rank` certifies that no cycle runs through
      transparent nodes only. */
  datatype Graph = Graph(nodes: seq<Node>, ghost rank: seq<nat>, start: nat) {

    predicate IsToken(u: nat) {
      u < |nodes| && nodes[u].data.Tok?
    }

    function TokenOf(u: nat): Token
      requires IsToken(u)
    {
      nodes[u].data.token
    }

    predicate IsEnd(u: nat) {
      IsToken(u) && TokenOf(u).kind.End?
    }

    /** START, FORK and JOIN nodes take no word. */
    predicate Transparent(u: nat) {
      IsToken(u) && IsSpecial(TokenOf(u).kind) && !TokenOf(u).kind.End?
    }

    ghost predicate Valid() {
      && |rank| == |nodes|
      && IsToken(start) && TokenOf(start).kind.Start?
      && (forall u, i {:trigger nodes[u].to[i]} | 0 <= u < |nodes| && 0 <= i < |nodes[u].to| && IsToken(u) && !IsEnd(u) ::
            && IsToken(nodes[u].to[i])
            && (Transparent(u) && Transparent(nodes[u].to[i]) ==> rank[nodes[u].to[i]] < rank[u]))
      && (forall u | 0 <= u < |nodes| && IsEnd(u) :: HasElement(u))
    }

    /** The END node leads to a command. */
    predicate HasElement(u: nat) {
      IsEnd(u) && |nodes[u].to| > 0 && nodes[u].to[0] < |nodes| && nodes[nodes[u].to[0]].data.Cmd?
    }

    /** The command an END node leads to. */
    function ElementAt(u: nat): nat
      requires HasElement(u)
    {
      nodes[nodes[u].to[0]].data.element
    }

    /** A node already on the stack may be entered again only if it repeats. */
    predicate Blocked(c: nat, stack: seq<nat>)
      requires IsToken(c)
    {
      !TokenOf(c).allowRepeat && c in stack
    }

    /** The hops that entering child `c` contributes. */
    function HopsVia(c: nat, stack: seq<nat>): (hops: seq<nat>)
      requires Valid() && IsToken(c)
      decreases 0, if Transparent(c) then rank[c] else 0, if Transparent(c) then |nodes[c].to| + 1 else 0
    {
      if Blocked(c, stack) then [] else if Transparent(c) then HopsFrom(c, stack, 0) else [c]
    }

    /** The hops through the children from index `i` on, in list order. */
    function HopsFrom(u: nat, stack: seq<nat>, i: nat): (hops: seq<nat>)
      requires Valid() && IsToken(u) && !IsEnd(u) && i <= |nodes[u].to|
      decreases if Transparent(u) then 0 else 1, rank[u], |nodes[u].to| - i
    {
      if i == |nodes[u].to| then []
      else HopsVia(nodes[u].to[i], stack) + HopsFrom(u, stack, i + 1)
    }

    lemma {:induction false} HopsTakeWords(u: nat, stack: seq<nat>, i: nat)
      requires Valid() && IsToken(u) && !IsEnd(u) && i <= |nodes[u].to|
      ensures forall v | v in HopsFrom(u, stack, i) :: IsToken(v) && !Transparent(v)
      decreases if Transparent(u) then 0 else 1, rank[u], |nodes[u].to| - i
    {
      if i < |nodes[u].to| {
        HopsTakeWords(u, stack, i + 1);
        if Transparent(nodes[u].to[i]) {
          HopsTakeWords(nodes[u].to[i], stack, 0);
        }
      }
    }

    /** All nodes one parser hop from `u`, once per transparent path. */
    function NextHops(u: nat): (hops: seq<nat>)
      requires Valid() && IsToken(u) && !IsEnd(u)
    {
      HopsFrom(u, [], 0)
    }

    /** A path of edges from `u` to `v` whose inner nodes are all transparent. */
    ghost predicate TransparentPath(u: nat, v: nat, path: seq<nat>) {
      && |path| >= 2 && path[0] == u && path[|path| - 1] == v
      && (forall k | 0 <= k < |path| :: path[k] < |nodes|)
      && (forall k | 0 <= k < |path| - 1 :: path[k + 1] in nodes[path[k]].to)
      && (forall k | 1 <= k < |path| - 1 :: Transparent(path[k]))
    }

    lemma {:induction false} HopHasPath(u: nat, i: nat, v: nat) returns (path: seq<nat>)
      requires Valid() && IsToken(u) && !IsEnd(u) && i <= |nodes[u].to|
      requires v in HopsFrom(u, [], i)
      ensures TransparentPath(u, v, path)
      decreases if Transparent(u) then 0 else 1, rank[u], |nodes[u].to| - i
    {
      var c := nodes[u].to[i];
      if v in HopsFrom(u, [], i + 1) {
        path := HopHasPath(u, i + 1, v);
      } else if Transparent(c) {
        var rest := HopHasPath(c, 0, v);
        path := [u] + rest;
      } else {
        path := [u, v];
      }
    }

    lemma {:induction false} ChildHops(u: nat, i: nat, j: nat, v: nat)
      requires Valid() && IsToken(u) && !IsEnd(u) && i <= j < |nodes[u].to|
      requires v in HopsVia(nodes[u].to[j], [])
      ensures v in HopsFrom(u, [], i)
      decreases j - i
    {
      if i < j {
        ChildHops(u, i + 1, j, v);
      }
    }

    lemma {:induction false} PathIsHop(u: nat, v: nat, path: seq<nat>)
      requires Valid() && IsToken(u) && !IsEnd(u) && !Transparent(v)
      requires TransparentPath(u, v, path)
      ensures v in NextHops(u)
      decreases |path|
    {
      var c := path[1];
      var j :| 0 <= j < |nodes[u].to| && nodes[u].to[j] == c;
      if |path| > 2 {
        PathIsHop(c, v, path[1..]);
      }
      ChildHops(u, 0, j, v);
    }

    /** The hop list holds exactly the nodes reached through transparent nodes. */
    lemma NextHopsExact(u: nat, v: nat)
      requires Valid() && IsToken(u) && !IsEnd(u)
      ensures v in NextHops(u) <==> (!Transparent(v) && exists path :: TransparentPath(u, v, path))
    {
      HopsTakeWords(u, [], 0);
      if v in NextHops(u) {
        var path := HopHasPath(u, 0, v);
      }
      if !Transparent(v) && exists path :: TransparentPath(u, v, path) {
        var path :| TransparentPath(u, v, path);
        PathIsHop(u, v, path);
      }
    }
  }

  /** `next` lists for every node nodes that take a word or end the line, and every
      END node leads to a command. */
  ghost predicate Table(g: Graph, next: seq<seq<nat>>) {
    && |next| == |g.nodes|
    && (forall u, i | 0 <= u < |next| && 0 <= i < |next[u]| :: g.IsToken(next[u][i]) && !g.Transparent(next[u][i]))
    && (forall u | g.IsEnd(u) :: g.HasElement(u))
  }

  /** `next` is the table of nexthops of a valid graph. */
  ghost predicate Linked(g: Graph, next: seq<seq<nat>>) {
    && g.Valid() && |next| == |g.nodes|
    && (forall u {:trigger g.NextHops(u)} | 0 <= u < |next| && g.IsToken(u) && !g.IsEnd(u) :: next[u] == g.NextHops(u))
  }

  ghost function HopTable(g: Graph): (next: seq<seq<nat>>)
    requires g.Valid()
    ensures Linked(g, next) && Table(g, next)
  {
    var next := seq(|g.nodes|, u requires 0 <= u < |g.nodes| => HopRow(g, u));
    TableRows(g, next);
    next
  }

  ghost function HopRow(g: Graph, u: nat): seq<nat>
    requires g.Valid() && u < |g.nodes|
  {
    if g.IsToken(u) && !g.IsEnd(u) then g.NextHops(u) else []
  }

  lemma TableRows(g: Graph, next: seq<seq<nat>>)
    requires g.Valid() && |next| == |g.nodes|
    requires forall u | 0 <= u < |next| :: next[u] == HopRow(g, u)
    ensures Linked(g, next) && Table(g, next)
  {
    forall u, i | 0 <= u < |next| && 0 <= i < |next[u]|
      ensures g.IsToken(next[u][i]) && !g.Transparent(next[u][i])
    {
      g.HopsTakeWords(u, [], 0);
      assert next[u][i] in HopRow(g, u);
    }
  }

  /** The nexthops of a node, looked up rather than walked. */
  method Nexthops(g: Graph, ghost next: seq<seq<nat>>, u: nat) returns (list: seq<nat>)
    requires Linked(g, next) && g.IsToken(u) && !g.IsEnd(u)
    ensures list == next[u]
  {
    var added;
    list, added := AddNexthops(g, [], u, []);
    assert list == g.NextHops(u);
  }

  /** Appends every hop from `u` to `list`; a null stack is the empty one. */
  method AddNexthops(g: Graph, list: seq<nat>, u: nat, stack: seq<nat>)
    returns (grown: seq<nat>, added: nat)
    requires g.Valid() && g.IsToken(u) && !g.IsEnd(u)
    ensures grown == list + g.HopsFrom(u, stack, 0)
    ensures added == |g.HopsFrom(u, stack, 0)|
    decreases if g.Transparent(u) then 0 else 1, g.rank[u]
  {
    added := 0;
    grown := list;
    var i := 0;
    while i < |g.nodes[u].to|
      invariant i <= |g.nodes[u].to|
      invariant grown + g.HopsFrom(u, stack, i) == list + g.HopsFrom(u, stack, 0)
      invariant |grown| == |list| + added
    {
      var child := g.nodes[u].to[i];
      ghost var before, here, rest := grown, g.HopsVia(child, stack), g.HopsFrom(u, stack, i + 1);
      if !g.Blocked(child, stack) {
        if g.Transparent(child) {
          var more;
          grown, more := AddNexthops(g, grown, child, stack);
          added := added + more;
        } else {
          grown := grown + [child];
          added := added + 1;
        }
      }
      assert grown == before + here;
      assert grown + rest == before + (here + rest);
      i := i + 1;
    }
  }
}
