/** A small command graph of the assumed shape: `show <a|b>`. */
module MergeExample {
  import opened Wrappers
  import opened Tokens
  import opened CommandTree
  import opened MergeShape
  import opened MergeMatch
  import opened MergeKeeps
  import opened CommandMerge
  import opened CommandInstall

  function Plain(k: Kind, text: string, pair: Option<nat>, to: seq<nat>): Node {
    Node(Tok(Token(k, Normal, false, 1, text, 0, 0, None, None, pair)), to)
  }

  /** Start, `show`, FORK, `a`, `b`, JOIN, END and the command. */
  function Show(): Heap {
    [Plain(Start, "", None, [1]), Plain(Word, "show", None, [2]), Plain(Fork, "", Some(5), [3, 4]),
     Plain(Word, "a", None, [5]), Plain(Word, "b", None, [5]), Plain(Join, "", Some(2), [6]),
     Plain(End, "", None, [7]), Node(Cmd(0), [])]
  }

  function ShowCert(): Cert {
    Cert([[], [], [], [2], [2], [], [], []], [7, 6, 5, 4, 4, 2, 1, 0], [0, 0, 1, 2, 2, 3, 5, 6], [0, 0, 0, 0, 1, 0, 0, 0],
         [0, 0, 0, 0, 0, 0, 0, 0], 7)
  }

  lemma ShowLists()
    ensures var h := Show();
            && |h| == 8 && h[0].to == [1] && h[1].to == [2] && h[2].to == [3, 4] && h[3].to == [5] && h[4].to == [5]
            && h[5].to == [6] && h[6].to == [7] && h[7].to == []
    ensures Sized(Show(), ShowCert())
  {
  }

  lemma ShowKinds()
    ensures forall u | 0 <= u < 8 :: (IsKind(Show(), u, Fork) <==> u == 2) && (IsKind(Show(), u, Join) <==> u == 5)
    ensures forall u | 0 <= u < 8 :: (IsKind(Show(), u, Start) <==> u == 0)
    ensures forall u | 0 <= u < 8 :: LoopStop(Show(), u) == if u == 5 then 2 else u
    ensures Pair(Show(), 2) == 5 && Pair(Show(), 5) == 2
  {
  }

  lemma ShowEdge(u: nat, i: nat)
    requires u < 8 && i < |Show()[u].to|
    ensures Sized(Show(), ShowCert()) && EdgeGood(Show(), ShowCert(), u, i)
  {
    ShowLists();
    ShowKinds();
    hide Show;
  }

  lemma ShowEdges()
    ensures Sized(Show(), ShowCert()) && Edges(Show(), ShowCert())
  {
    hide Show, ShowCert, EdgeGood;
    ShowLists();
    var h, c := Show(), ShowCert();
    forall u, i | 0 <= u < |h| && 0 <= i < |h[u].to|
      ensures EdgeGood(h, c, u, i)
    {
      ShowEdge(u, i);
    }
    EdgesFrom(h, c);
  }

  lemma ShowParents()
    ensures Sized(Show(), ShowCert()) && Parents(Show(), ShowCert())
  {
    hide Show;
    ShowLists();
    ShowKinds();
    var h, c := Show(), ShowCert();
    assert HasParent(h, c, 0) && HasParent(h, c, 1) && HasParent(h, c, 2) && HasParent(h, c, 3);
    assert HasParent(h, c, 4) && HasParent(h, c, 5) && HasParent(h, c, 6) && HasParent(h, c, 7);
  }

  lemma ShowPairs()
    ensures Sized(Show(), ShowCert()) && Pairs(Show(), ShowCert()) && Nested(Show(), ShowCert())
  {
    ShowLists();
    ShowKinds();
    var h, c := Show(), ShowCert();
    assert Type(h, 5).Join? && Type(h, 2).Fork?;
    assert c.ctx[3] == [2] && c.ctx[4] == [2];
  }

  /** The certificate holds. */
  lemma ShowShape()
    ensures Shape(Show(), ShowCert())
  {
    ShowEdges();
    ShowParents();
    ShowPairs();
    ShowLeaves();
    hide Show, ShowCert, Edges, Parents, Pairs, Nested;
  }

  lemma ShowLeaves()
    ensures Sized(Show(), ShowCert()) && Leaves(Show(), ShowCert())
  {
  }

  /** The graph can be merged. */
  lemma ShowReady()
    ensures StartNode(Show(), 0) && Lone(Show(), ShowCert(), 0)
  {
    hide Show;
    ShowLists();
    ShowKinds();
    ShowStart();
    var h := Show();
    assert Way(h, 0, 1) && OnlyNext(h, 0, 1);
    assert Way(h, 1, 2) && OnlyNext(h, 1, 2);
    assert Way(h, 5, 6) && OnlyNext(h, 5, 6);
  }

  lemma ShowStart()
    ensures StartNode(Show(), 0) && Show()[7].data.Cmd? && IsKind(Show(), 6, End)
  {
  }

  /** It has no silent cycle, so lines can be matched against it. */
  lemma ShowTame()
    ensures Quiet(Show(), [0, 0, 0, 0, 0, 0, 0, 0])
  {
  }
}
