/** The comparison of graph nodes that merging relies on. */
module MergeEqual {
  import opened Wrappers
  import opened Tokens
  import opened CommandTree
  import opened MergeShape

  /** Tokens that take the same words: all that is compared but the edges. */
  predicate SameLabel(a: Token, b: Token) {
    && a.kind == b.kind && a.allowRepeat == b.allowRepeat
    && (!IsSpecial(a.kind) ==> a.text == b.text)
    && a.varname == b.varname
    && (a.kind.Range? ==> a.min == b.min && a.max == b.max)
  }

  predicate LabelEqual(h: Heap, ga: nat, gb: nat)
    requires ga < |h| && gb < |h|
  {
    && h[ga].data.Tok? && h[gb].data.Tok? && SameLabel(h[ga].data.token, h[gb].data.token)
    && (ga in h[ga].to <==> gb in h[gb].to)
  }

  /** Two FORKs agree on being repeatable and on being optional. */
  predicate LinksAgree(h: Heap, ga: nat, gb: nat)
    requires ga < |h| && gb < |h| && Pair(h, ga) < |h| && Pair(h, gb) < |h|
  {
    && (ga in h[Pair(h, ga)].to <==> gb in h[Pair(h, gb)].to)
    && (Pair(h, ga) in h[ga].to <==> Pair(h, gb) in h[gb].to)
  }

  /** Deep comparison: a FORK is compared with all that lies up to its JOIN. */
  predicate NodesEqual(h: Heap, ghost c: Cert, ga: nat, gb: nat)
    requires Shape(h, c) && ga < |h| && gb < |h|
    decreases c.rank[ga], 2
  {
    && LabelEqual(h, ga, gb)
    && (IsKind(h, ga, Fork) ==>
          assert IsKind(h, gb, Fork);
          LinksAgree(h, ga, gb) && SubgraphEqual(h, c, ga, gb, Pair(h, ga)))
  }

  /** The successors of the two nodes compare equal position by position, down to
      the JOIN `aJoin`. */
  predicate SubgraphEqual(h: Heap, ghost c: Cert, ga: nat, gb: nat, aJoin: nat)
    requires Shape(h, c) && ga < |h| && gb < |h|
    decreases c.rank[ga], 1
  {
    |h[ga].to| == |h[gb].to| && forall i | 0 <= i < |h[ga].to| :: ChildEqual(h, c, ga, gb, aJoin, i)
  }

  predicate ChildEqual(h: Heap, ghost c: Cert, ga: nat, gb: nat, aJoin: nat, i: nat)
    requires Shape(h, c) && ga < |h| && gb < |h| && i < |h[ga].to| && i < |h[gb].to|
    decreases c.rank[ga], 0
  {
    var cga, cgb := h[ga].to[i], h[gb].to[i];
    if cga == LoopStop(h, ga) then cgb == LoopStop(h, gb)
    else NodesEqual(h, c, cga, cgb) && (cga == aJoin || SubgraphEqual(h, c, cga, cgb, aJoin))
  }

  /** Position `i` of the two lists agrees. */
  ghost predicate Agreed(h: Heap, c: Cert, ga: nat, gb: nat, aJoin: nat, i: nat)
    requires Shape(h, c) && ga < |h| && gb < |h| && |h[ga].to| == |h[gb].to| && i < |h[ga].to|
  {
    ChildEqual(h, c, ga, gb, aJoin, i)
  }

  lemma AgreedAll(h: Heap, c: Cert, ga: nat, gb: nat, aJoin: nat, all: bool)
    requires Shape(h, c) && ga < |h| && gb < |h| && all == SubgraphEqual(h, c, ga, gb, aJoin)
    ensures all <==> |h[ga].to| == |h[gb].to| && forall i | 0 <= i < |h[ga].to| :: Agreed(h, c, ga, gb, aJoin, i)
  {
    if all {
      forall i | 0 <= i < |h[ga].to|
        ensures Agreed(h, c, ga, gb, aJoin, i)
      {
        assert ChildEqual(h, c, ga, gb, aJoin, i);
      }
    } else if |h[ga].to| == |h[gb].to| {
      var i: nat :| i < |h[ga].to| && !ChildEqual(h, c, ga, gb, aJoin, i);
      assert !Agreed(h, c, ga, gb, aJoin, i);
    }
  }

  lemma AgreedAt(h: Heap, c: Cert, ga: nat, gb: nat, aJoin: nat, i: nat)
    requires Shape(h, c) && ga < |h| && gb < |h| && |h[ga].to| == |h[gb].to| && i < |h[ga].to|
    ensures |c.rank| == |h|
    ensures var cga, cgb := h[ga].to[i], h[gb].to[i];
            && cga < |h| && cgb < |h| && (cga != LoopStop(h, ga) ==> c.rank[cga] < c.rank[ga])
            && (Agreed(h, c, ga, gb, aJoin, i) <==>
                  if cga == LoopStop(h, ga) then cgb == LoopStop(h, gb)
                  else NodesEqual(h, c, cga, cgb) && (cga == aJoin || SubgraphEqual(h, c, cga, cgb, aJoin)))
  {
  }

  /** The inner comparison loop.  It looks at position `i` of the second list every
      time round, so it finds what it would find at once or nothing. */
  method FindEqual(h: Heap, ghost c: Cert, ga: nat, gb: nat, aJoin: nat, i: nat) returns (j: nat)
    requires Shape(h, c) && ga < |h| && gb < |h| && |h[ga].to| == |h[gb].to| && i < |h[ga].to|
    ensures j <= |h[gb].to| && (j < |h[gb].to| <==> Agreed(h, c, ga, gb, aJoin, i))
    decreases c.rank[ga], 0
  {
    hide Shape, Agreed, NodesEqual, SubgraphEqual;
    AgreedAt(h, c, ga, gb, aJoin, i);
    var cga := h[ga].to[i];
    j := 0;
    while j < |h[gb].to|
      invariant j <= |h[gb].to| && (j > 0 ==> !Agreed(h, c, ga, gb, aJoin, i))
    {
      var cgb := h[gb].to[i];
      if cga == LoopStop(h, ga) {
        if cgb == LoopStop(h, gb) {
          return;
        }
      } else {
        var equal := CmdNodesEqual(h, c, cga, cgb);
        if equal {
          if cga == aJoin {
            return;
          }
          equal := CmdSubgraphEqual(h, c, cga, cgb, aJoin);
          if equal {
            return;
          }
        }
      }
      j := j + 1;
    }
  }

  method CmdSubgraphEqual(h: Heap, ghost c: Cert, ga: nat, gb: nat, aJoin: nat) returns (r: bool)
    requires Shape(h, c) && ga < |h| && gb < |h|
    ensures r <==> SubgraphEqual(h, c, ga, gb, aJoin)
    decreases c.rank[ga], 1
  {
    hide Shape, Agreed, SubgraphEqual;
    AgreedAll(h, c, ga, gb, aJoin, SubgraphEqual(h, c, ga, gb, aJoin));
    if |h[ga].to| != |h[gb].to| {
      return false;
    }
    var i := 0;
    while i < |h[ga].to|
      invariant i <= |h[ga].to|
      invariant forall k | 0 <= k < i :: Agreed(h, c, ga, gb, aJoin, k)
    {
      var j := FindEqual(h, c, ga, gb, aJoin, i);
      if j == |h[gb].to| {
        return false;
      }
      i := i + 1;
    }
    r := true;
  }

  method CmdNodesEqual(h: Heap, ghost c: Cert, ga: nat, gb: nat) returns (r: bool)
    requires Shape(h, c) && ga < |h| && gb < |h|
    ensures r <==> NodesEqual(h, c, ga, gb)
    decreases c.rank[ga], 2
  {
    if !LabelEqual(h, ga, gb) {
      return false;
    }
    if IsKind(h, ga, Fork) {
      assert IsKind(h, gb, Fork);
      if !LinksAgree(h, ga, gb) {
        return false;
      }
      r := CmdSubgraphEqual(h, c, ga, gb, Pair(h, ga));
    } else {
      r := true;
    }
  }
}
