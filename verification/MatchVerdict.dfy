/** The matcher's entry point, with its verdicts stated over whole derivations:
    flat sequences of nodes and nexthop choices, one per input word. */
module MatchVerdict {
  import opened Wrappers
  import opened Tokens
  import opened Ordering
  import opened CommandTree
  import opened Matcher

  /** The nodes that take the words and the choice of nexthop made at each. */
  datatype Derivation = Derivation(nodes: seq<nat>, hops: seq<nat>)

  /** Every node takes its word without repeating an unrepeatable node, and the
      choice made at it leads to the next node, starting from `u` after `pre`. */
  ghost predicate Walk(p: Search, pre: seq<nat>, u: nat, d: Derivation)
    requires p.Valid()
  {
    && |d.nodes| == |p.line| - |pre| && |d.nodes| > 0 && d.nodes[0] == u
    && (forall k | 0 <= k < |d.nodes| :: p.Admits(pre + d.nodes[..k], d.nodes[k]) && !p.g.IsEnd(d.nodes[k]))
    && (|d.hops| == |d.nodes| || |d.hops| == |d.nodes| - 1)
    && (forall k | 0 <= k < |d.hops| :: d.hops[k] < |p.Next(d.nodes[k])|)
    && (forall k | 0 <= k < |d.nodes| - 1 :: d.nodes[k + 1] == p.Next(d.nodes[k])[d.hops[k]])
  }

  /** A walk over the whole line that ends in an END node. */
  ghost predicate Complete(p: Search, pre: seq<nat>, u: nat, d: Derivation)
    requires p.Valid()
  {
    && Walk(p, pre, u, d) && |d.hops| == |d.nodes|
    && p.g.IsEnd(p.Next(d.nodes[|d.nodes| - 1])[d.hops[|d.nodes| - 1]])
  }

  ghost function Key(p: Search, pre: seq<nat>, d: Derivation): seq<nat>
    requires p.Valid() && |d.nodes| == |p.line| - |pre|
    requires forall k | 0 <= k < |d.nodes| :: p.g.IsToken(d.nodes[k])
  {
    seq(|d.nodes|, k requires 0 <= k < |d.nodes| => Rating(p.lex, p.g.TokenOf(d.nodes[k]), p.line[|pre| + k]))
  }

  ghost predicate IsDerivation(p: Search, d: Derivation)
    requires p.Valid()
  {
    Complete(p, [], p.g.start, d)
  }

  /** No derivation rates better. */
  ghost predicate Least(p: Search, d: Derivation)
    requires p.Valid()
  {
    && IsDerivation(p, d)
    && forall d' | IsDerivation(p, d') :: !LexLess(Key(p, [], d'), Key(p, [], d))
  }

  /** Every other derivation rates worse. */
  ghost predicate Wins(p: Search, d: Derivation)
    requires p.Valid()
  {
    && IsDerivation(p, d)
    && forall d' | IsDerivation(p, d') && d' != d :: LexLess(Key(p, [], d), Key(p, [], d'))
  }

  /** A walk that takes every word and stops there. */
  ghost predicate Exhausts(p: Search, d: Derivation)
    requires p.Valid()
  {
    Walk(p, [], p.g.start, d) && |d.hops| == |d.nodes| - 1
  }

  ghost function Tail(d: Derivation): Derivation
    requires |d.nodes| > 0 && |d.hops| > 0
  {
    Derivation(d.nodes[1..], d.hops[1..])
  }

  ghost function Cons(u: nat, i: nat, d: Derivation): Derivation {
    Derivation([u] + d.nodes, [i] + d.hops)
  }

  lemma WalkTail(p: Search, pre: seq<nat>, u: nat, d: Derivation)
    requires p.Valid() && Walk(p, pre, u, d) && |d.nodes| > 1
    ensures Walk(p, pre + [u], d.nodes[1], Tail(d))
  {
    forall k | 0 <= k < |d.nodes| - 1
      ensures (pre + [u]) + Tail(d).nodes[..k] == pre + d.nodes[..k + 1]
    {
    }
  }

  lemma WalkCons(p: Search, pre: seq<nat>, u: nat, i: nat, d: Derivation)
    requires p.Valid() && p.Admits(pre, u) && !p.g.IsEnd(u) && i < |p.Next(u)|
    requires Walk(p, pre + [u], p.Next(u)[i], d)
    ensures Walk(p, pre, u, Cons(u, i, d))
  {
    var c := Cons(u, i, d);
    forall k | 0 <= k < |c.nodes|
      ensures p.Admits(pre + c.nodes[..k], c.nodes[k]) && !p.g.IsEnd(c.nodes[k])
    {
      if k == 0 {
        assert pre + c.nodes[..0] == pre;
      } else {
        assert pre + c.nodes[..k] == (pre + [u]) + d.nodes[..k - 1];
      }
    }
  }

  lemma CompleteCons(p: Search, pre: seq<nat>, u: nat, i: nat, d: Derivation)
    requires p.Valid() && p.Admits(pre, u) && !p.g.IsEnd(u) && i < |p.Next(u)|
    requires Complete(p, pre + [u], p.Next(u)[i], d)
    ensures Complete(p, pre, u, Cons(u, i, d))
  {
    WalkCons(p, pre, u, i, d);
    var c, m := Cons(u, i, d), |d.nodes|;
    assert c.nodes[m] == d.nodes[m - 1] && c.hops[m] == d.hops[m - 1];
  }

  /** Each complete walk is given by its choices alone. */
  lemma {:induction false} FlatDerives(p: Search, pre: seq<nat>, u: nat, d: Derivation)
    requires p.Valid() && Complete(p, pre, u, d)
    ensures p.Derives(pre, u, d.hops)
    decreases |d.nodes|
  {
    assert pre + d.nodes[..0] == pre;
    if |d.nodes| > 1 {
      WalkTail(p, pre, u, d);
      FlatDerives(p, pre + [u], d.nodes[1], Tail(d));
    }
  }

  lemma KeyCons(p: Search, pre: seq<nat>, u: nat, d: Derivation)
    requires p.Valid() && Walk(p, pre, u, d) && |d.nodes| > 1 && |d.hops| > 0
    ensures Walk(p, pre + [u], d.nodes[1], Tail(d))
    ensures Key(p, pre, d) == [Rating(p.lex, p.g.TokenOf(u), p.line[|pre|])] + Key(p, pre + [u], Tail(d))
  {
    WalkTail(p, pre, u, d);
    var a, b := Key(p, pre, d), [Rating(p.lex, p.g.TokenOf(u), p.line[|pre|])] + Key(p, pre + [u], Tail(d));
    forall k | 0 <= k < |d.nodes|
      ensures a[k] == b[k]
    {
    }
  }

  lemma {:induction false} FlatRatings(p: Search, pre: seq<nat>, u: nat, d: Derivation)
    requires p.Valid() && Complete(p, pre, u, d) && p.Derives(pre, u, d.hops)
    ensures p.Ratings(pre, u, d.hops) == Key(p, pre, d)
    decreases |d.nodes|
  {
    if |d.nodes| > 1 {
      KeyCons(p, pre, u, d);
      FlatRatings(p, pre + [u], d.nodes[1], Tail(d));
    }
  }

  ghost function Unflatten(p: Search, pre: seq<nat>, u: nat, hops: seq<nat>): Derivation
    requires p.Valid() && p.Derives(pre, u, hops)
    decreases |hops|
  {
    if |pre| + 1 == |p.line| then Derivation([u], hops)
    else Cons(u, hops[0], Unflatten(p, pre + [u], p.Next(u)[hops[0]], hops[1..]))
  }

  /** One step into the choices of a derivation. */
  lemma DerivesStep(p: Search, pre: seq<nat>, u: nat, hops: seq<nat>)
    requires p.Valid() && p.Derives(pre, u, hops)
    ensures p.Admits(pre, u) && !p.g.IsEnd(u) && |hops| > 0 && hops[0] < |p.Next(u)|
    ensures |pre| + 1 == |p.line| ==>
              p.g.IsEnd(p.Next(u)[hops[0]]) && hops == [hops[0]] && Unflatten(p, pre, u, hops) == Derivation([u], hops)
    ensures |pre| + 1 != |p.line| ==>
              && p.Derives(pre + [u], p.Next(u)[hops[0]], hops[1..])
              && Unflatten(p, pre, u, hops) == Cons(u, hops[0], Unflatten(p, pre + [u], p.Next(u)[hops[0]], hops[1..]))
  {
  }

  /** One step into a complete walk. */
  lemma CompleteStep(p: Search, pre: seq<nat>, u: nat, d: Derivation)
    requires p.Valid() && Complete(p, pre, u, d) && p.Derives(pre, u, d.hops)
    ensures |d.nodes| > 0 && |d.hops| == |d.nodes| && d.nodes[0] == u && |d.nodes| == |p.line| - |pre|
    ensures |d.nodes| > 1 ==>
              && p.g.IsToken(u) && d.hops[0] < |p.Next(u)| && d.nodes[1] == p.Next(u)[d.hops[0]]
              && Complete(p, pre + [u], d.nodes[1], Tail(d)) && p.Derives(pre + [u], d.nodes[1], d.hops[1..])
  {
    if |d.nodes| > 1 {
      WalkTail(p, pre, u, d);
    }
  }

  lemma {:induction false} FlatUnique(p: Search, pre: seq<nat>, u: nat, d: Derivation)
    requires p.Valid() && Complete(p, pre, u, d) && p.Derives(pre, u, d.hops)
    ensures Unflatten(p, pre, u, d.hops) == d
    decreases |d.nodes|
  {
    hide Walk, Complete, Search.Derives, Unflatten;
    CompleteStep(p, pre, u, d);
    DerivesStep(p, pre, u, d.hops);
    if |d.nodes| > 1 {
      FlatUnique(p, pre + [u], d.nodes[1], Tail(d));
      assert d.nodes == [u] + d.nodes[1..] && d.hops == [d.hops[0]] + d.hops[1..];
    } else {
      assert d.nodes == [u];
    }
  }

  lemma {:induction false} UnflattenHops(p: Search, pre: seq<nat>, u: nat, hops: seq<nat>)
    requires p.Valid() && p.Derives(pre, u, hops)
    ensures Unflatten(p, pre, u, hops).hops == hops
    decreases |hops|
  {
    if |pre| + 1 < |p.line| {
      UnflattenHops(p, pre + [u], p.Next(u)[hops[0]], hops[1..]);
    }
  }

  lemma {:induction false} DerivesFlat(p: Search, pre: seq<nat>, u: nat, hops: seq<nat>)
    requires p.Valid() && p.Derives(pre, u, hops)
    ensures Complete(p, pre, u, Unflatten(p, pre, u, hops))
    decreases |hops|
  {
    if |pre| + 1 < |p.line| {
      var v := p.Next(u)[hops[0]];
      DerivesFlat(p, pre + [u], v, hops[1..]);
      CompleteCons(p, pre, u, hops[0], Unflatten(p, pre + [u], v, hops[1..]));
    } else {
      assert pre + [u][..0] == pre;
    }
  }

  /** The walks that take every word, as choices and as whole walks. */
  lemma {:induction false} FlatConsumes(p: Search, pre: seq<nat>, u: nat, d: Derivation)
    requires p.Valid() && Walk(p, pre, u, d) && |d.hops| == |d.nodes| - 1
    ensures p.Consumes(pre, u, d.hops)
    decreases |d.nodes|
  {
    assert pre + d.nodes[..0] == pre;
    if |d.nodes| > 1 {
      WalkTail(p, pre, u, d);
      FlatConsumes(p, pre + [u], d.nodes[1], Tail(d));
    }
  }

  lemma {:induction false} ConsumesFlat(p: Search, pre: seq<nat>, u: nat, hops: seq<nat>) returns (d: Derivation)
    requires p.Valid() && p.Consumes(pre, u, hops)
    ensures Walk(p, pre, u, d) && |d.hops| == |d.nodes| - 1
    decreases |hops|
  {
    if |pre| + 1 < |p.line| {
      d := ConsumesFlat(p, pre + [u], p.Next(u)[hops[0]], hops[1..]);
      WalkCons(p, pre, u, hops[0], d);
      d := Cons(u, hops[0], d);
    } else {
      d := Derivation([u], []);
      assert pre + [u][..0] == pre;
    }
  }

  /** `list` copies the tokens of the nodes, each with its word, and ends with the
      command the END node leads to. */
  ghost predicate Copies(p: Search, pre: seq<nat>, d: Derivation, list: seq<Arg>)
    requires p.Valid() && |d.nodes| > 0 && Complete(p, pre, d.nodes[0], d)
  {
    && |list| == |d.nodes| + 1
    && (forall k | 0 <= k < |d.nodes| ::
          list[k] == Taken(Dup(p.g.TokenOf(d.nodes[k])).(arg := p.line[|pre| + k])))
    && list[|d.nodes|] == Command(p.g.ElementAt(p.Next(d.nodes[|d.nodes| - 1])[d.hops[|d.nodes| - 1]]))
  }

  lemma CopiesCons(p: Search, pre: seq<nat>, u: nat, d: Derivation, a: Arg, rest: seq<Arg>)
    requires p.Valid() && Complete(p, pre, u, d) && |d.nodes| > 1
    requires Complete(p, pre + [u], d.nodes[1], Tail(d)) && Copies(p, pre + [u], Tail(d), rest)
    requires a == Taken(Dup(p.g.TokenOf(u)).(arg := p.line[|pre|]))
    ensures Copies(p, pre, d, [a] + rest)
  {
    var list, t := [a] + rest, Tail(d);
    forall k | 0 < k < |d.nodes|
      ensures list[k] == Taken(Dup(p.g.TokenOf(d.nodes[k])).(arg := p.line[|pre| + k]))
    {
      assert list[k] == rest[k - 1] && t.nodes[k - 1] == d.nodes[k];
    }
    var m := |d.nodes| - 1;
    assert t.nodes[m - 1] == d.nodes[m] && t.hops[m - 1] == d.hops[m];
  }

  lemma {:induction false} RenderFlat(p: Search, pre: seq<nat>, u: nat, d: Derivation)
    requires p.Valid() && Complete(p, pre, u, d) && p.Derives(pre, u, d.hops)
    ensures Copies(p, pre, d, p.Render(pre, u, d.hops))
    decreases |d.nodes|
  {
    if |d.nodes| > 1 {
      WalkTail(p, pre, u, d);
      RenderFlat(p, pre + [u], d.nodes[1], Tail(d));
      CopiesCons(p, pre, u, d, p.Render(pre, u, d.hops)[0], p.Rest(pre, u, d.hops));
    }
  }

  /** A set of derivations given by choices, read over whole derivations. */
  lemma SummaryFlat(p: Search, h: seq<nat>, sole: bool) returns (d: Derivation)
    requires p.Valid() && p.Summary([], p.g.start, p.All([], p.g.start), h, sole)
    ensures Least(p, d) && d.hops == h
    ensures sole ==> Wins(p, d)
    ensures !sole ==> exists d' :: d' != d && Least(p, d')
  {
    d := LeastFlat(p, h);
    if sole {
      var w := WinsFlat(p, h);
    } else {
      var t :| t in p.All([], p.g.start) && t != h && !LexLess(p.Ratings([], p.g.start, h), p.Ratings([], p.g.start, t));
      LexTotal(p.Ratings([], p.g.start, h), p.Ratings([], p.g.start, t));
      var d' := LeastFlat(p, t);
    }
  }

  lemma Represent(p: Search, h: seq<nat>) returns (d: Derivation)
    requires p.Valid() && h in p.All([], p.g.start)
    ensures IsDerivation(p, d) && d.hops == h && d == Unflatten(p, [], p.g.start, h)
    ensures Key(p, [], d) == p.Ratings([], p.g.start, h)
  {
    DerivesFlat(p, [], p.g.start, h);
    UnflattenHops(p, [], p.g.start, h);
    d := Unflatten(p, [], p.g.start, h);
    FlatRatings(p, [], p.g.start, d);
  }

  lemma LeastFlat(p: Search, h: seq<nat>) returns (d: Derivation)
    requires p.Valid() && h in p.All([], p.g.start)
    requires forall t | t in p.All([], p.g.start) :: !LexLess(p.Ratings([], p.g.start, t), p.Ratings([], p.g.start, h))
    ensures Least(p, d) && d == Unflatten(p, [], p.g.start, h) && d.hops == h
  {
    d := Represent(p, h);
    forall e | IsDerivation(p, e)
      ensures !LexLess(Key(p, [], e), Key(p, [], d))
    {
      Against(p, h, false, d, e);
    }
  }

  lemma WinsFlat(p: Search, h: seq<nat>) returns (d: Derivation)
    requires p.Valid() && p.Summary([], p.g.start, p.All([], p.g.start), h, true)
    ensures Wins(p, d) && d == Unflatten(p, [], p.g.start, h)
  {
    d := Represent(p, h);
    forall e | IsDerivation(p, e) && e != d
      ensures LexLess(Key(p, [], d), Key(p, [], e))
    {
      Against(p, h, true, d, e);
    }
  }

  lemma Against(p: Search, h: seq<nat>, sole: bool, d: Derivation, e: Derivation)
    requires p.Valid() && h in p.All([], p.g.start)
    requires forall t | t in p.All([], p.g.start) :: !LexLess(p.Ratings([], p.g.start, t), p.Ratings([], p.g.start, h))
    requires sole ==> forall t | t in p.All([], p.g.start) && t != h ::
               LexLess(p.Ratings([], p.g.start, h), p.Ratings([], p.g.start, t))
    requires IsDerivation(p, d) && d == Unflatten(p, [], p.g.start, h) && Key(p, [], d) == p.Ratings([], p.g.start, h)
    requires IsDerivation(p, e)
    ensures !LexLess(Key(p, [], e), Key(p, [], d))
    ensures sole && e != d ==> LexLess(Key(p, [], d), Key(p, [], e))
  {
    Flat(p, e);
    assert e.hops in p.All([], p.g.start);
  }

  lemma Flat(p: Search, d: Derivation)
    requires p.Valid() && IsDerivation(p, d)
    ensures p.Derives([], p.g.start, d.hops)
    ensures p.Ratings([], p.g.start, d.hops) == Key(p, [], d)
    ensures Unflatten(p, [], p.g.start, d.hops) == d
  {
    FlatDerives(p, [], p.g.start, d);
    FlatRatings(p, [], p.g.start, d);
    FlatUnique(p, [], p.g.start, d);
  }

  /** A winner leaves no room for a second least derivation. */
  lemma WinnerIsAlone(p: Search, d: Derivation, e: Derivation)
    requires p.Valid() && Wins(p, d) && Least(p, e)
    ensures d == e
  {
  }

  /** The four verdicts, each exactly when the derivations say so. */
  lemma VerdictExact(p: Search, status: Verdict, best: Option<seq<Arg>>)
    requires p.Valid() && p.Answer([], p.g.start, status, best)
    ensures status.Ok? <==> exists d :: Wins(p, d)
    ensures status.Ambiguous? <==> exists d, e :: d != e && Least(p, d) && Least(p, e)
    ensures status.Incomplete? <==> (forall d :: !IsDerivation(p, d)) && exists d :: Exhausts(p, d)
    ensures status.NoMatching? <==> (forall d :: !IsDerivation(p, d)) && (forall d :: !Exhausts(p, d))
  {
    match best
    case Some(list) =>
      var h :| p.Summary([], p.g.start, p.All([], p.g.start), h, status.Ok?) && list == p.Render([], p.g.start, h);
      var d := SummaryFlat(p, h, status.Ok?);
      assert IsDerivation(p, d);
      if status.Ok? {
        forall e, f | Least(p, e) && Least(p, f)
          ensures e == f
        {
          WinnerIsAlone(p, d, e);
          WinnerIsAlone(p, d, f);
        }
      } else {
        var e :| e != d && Least(p, e);
        forall f
          ensures !Wins(p, f)
        {
          if Wins(p, f) {
            WinnerIsAlone(p, f, d);
            WinnerIsAlone(p, f, e);
          }
        }
      }
    case None =>
      forall d | IsDerivation(p, d)
        ensures d.hops in p.All([], p.g.start)
      {
        FlatDerives(p, [], p.g.start, d);
      }
      forall d | Exhausts(p, d)
        ensures p.CanConsume([], p.g.start)
      {
        FlatConsumes(p, [], p.g.start, d);
      }
      if p.CanConsume([], p.g.start) {
        var w :| p.Consumes([], p.g.start, w);
        var d := ConsumesFlat(p, [], p.g.start, w);
        assert Exhausts(p, d);
      }
  }

  /** `argv` and `element` are what derivation `d` says: one token copy per word,
      holding that word, and the command the derivation ends in. */
  ghost predicate Describes(p: Search, d: Derivation, argv: seq<Token>, element: nat)
    requires p.Valid() && IsDerivation(p, d)
  {
    && |argv| == |p.line| - 1
    && (forall k | 0 <= k < |argv| :: argv[k] == Dup(p.g.TokenOf(d.nodes[k + 1])).(arg := p.line[k + 1]))
    && element == p.g.ElementAt(p.Next(d.nodes[|argv|])[d.hops[|argv|]])
  }

  /** Finds the command for a line of words.  A null word is `None`. */
  method CommandMatch(g: Graph, lex: Lexer, vline: seq<Option<string>>)
    returns (status: Verdict, argv: Option<seq<Token>>, el: Option<nat>)
    requires g.Valid()
    ensures var p := Search(g, HopTable(g), lex, [Some("dummy")] + vline);
            && (status.Ok? <==> exists d :: Wins(p, d))
            && (status.Ambiguous? <==> exists d, e :: d != e && Least(p, d) && Least(p, e))
            && (status.Incomplete? <==> (forall d :: !IsDerivation(p, d)) && exists d :: Exhausts(p, d))
            && (status.NoMatching? <==> (forall d :: !IsDerivation(p, d)) && (forall d :: !Exhausts(p, d)))
            && (if status.Ok? then
                  argv.Some? && el.Some? && exists d :: Wins(p, d) && Describes(p, d, argv.value, el.value)
                else argv.None? && el.None?)
  {
    var p := Search(g, HopTable(g), lex, [Some("dummy")] + vline);
    var stack := new nat[CMD_ARGC_MAX];
    argv, el := None, None;
    var best;
    status, best := CommandMatchR(p, 0, g.start, stack);
    assert stack[..0] == [];
    VerdictExact(p, status, best);
    if status.Ok? {
      var list := best.value;
      Winner(p, list);
      argv := Some(Arguments(list[1..|list| - 1]));
      el := Some(list[|list| - 1].element);
    }
  }

  ghost predicate AllTaken(list: seq<Arg>) {
    forall a | a in list :: a.Taken?
  }

  /** Drops the list wrapping. */
  function Arguments(list: seq<Arg>): (argv: seq<Token>)
    requires AllTaken(list)
    ensures |argv| == |list| && forall k | 0 <= k < |list| :: argv[k] == list[k].token
  {
    if list == [] then [] else [list[0].token] + Arguments(list[1..])
  }

  lemma Winner(p: Search, list: seq<Arg>)
    requires p.Valid() && p.Answer([], p.g.start, Ok, Some(list)) && |p.line| > 0
    ensures |list| == |p.line| + 1 && list[|list| - 1].Command? && AllTaken(list[1..|list| - 1])
    ensures exists d :: Wins(p, d) && Describes(p, d, Arguments(list[1..|list| - 1]), list[|list| - 1].element)
  {
    var h :| p.Summary([], p.g.start, p.All([], p.g.start), h, true) && list == p.Render([], p.g.start, h);
    var d := SummaryFlat(p, h, true);
    Flat(p, d);
    RenderFlat(p, [], p.g.start, d);
    CopiesDescribe(p, d, list);
  }

  lemma CopiesDescribe(p: Search, d: Derivation, list: seq<Arg>)
    requires p.Valid() && IsDerivation(p, d) && Copies(p, [], d, list)
    ensures |list| == |p.line| + 1 && list[|list| - 1].Command? && AllTaken(list[1..|list| - 1])
    ensures Describes(p, d, Arguments(list[1..|list| - 1]), list[|list| - 1].element)
  {
    var mid := list[1..|list| - 1];
    assert forall k | 0 <= k < |mid| :: mid[k] == list[k + 1];
  }
}
