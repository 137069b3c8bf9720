/** The command matcher: a backtracking search for the best derivation of an
    input line, and what its four verdicts mean. */
module Matcher {
  import opened Wrappers
  import opened Tokens
  import opened Ordering
  import opened CommandTree

  /** Depth of the match stack. */
  const CMD_ARGC_MAX: nat := 256

  datatype Verdict = NoMatching | Incomplete | Ambiguous | Ok {
    function Rank(): nat {
      match this
      case NoMatching => 0
      case Incomplete => 1
      case Ambiguous => 2
      case Ok => 3
    }
  }

  /** One entry of an argument list: a token copy, or the command at its tail. */
  datatype Arg = Taken(token: Token) | Command(element: nat)

  /** A matching problem: the line includes the leading dummy word, and `next` is
      the table of nexthops. */
  datatype Search = Search(g: Graph, ghost next: seq<seq<nat>>, lex: Lexer, line: seq<Option<string>>) {

    ghost predicate Valid() {
      Table(g, next)
    }

    ghost function Next(u: nat): seq<nat>
      requires Valid() && g.IsToken(u)
    {
      next[u]
    }

    /** Node `u` can take the word after those taken by the nodes of `pre`. */
    predicate Admits(pre: seq<nat>, u: nat) {
      && |pre| < CMD_ARGC_MAX && |pre| < |line|
      && g.IsToken(u)
      && !g.Blocked(u, pre)
      && Accepts(lex, g.TokenOf(u), line[|pre|])
    }

    /** `hops` are the nexthop choices of a derivation of the rest of the line from
        `u`: every node takes its word, and the last choice is an END node. */
    ghost predicate Derives(pre: seq<nat>, u: nat, hops: seq<nat>)
      requires Valid()
      decreases |hops|
    {
      && Admits(pre, u) && !g.IsEnd(u) && |hops| > 0 && hops[0] < |Next(u)|
      && var v := Next(u)[hops[0]];
         if |pre| + 1 == |line| then |hops| == 1 && g.IsEnd(v)
         else Derives(pre + [u], v, hops[1..])
    }

    /** `hops` are the nexthop choices of a walk from `u` that takes every
        remaining word, whatever follows. */
    ghost predicate Consumes(pre: seq<nat>, u: nat, hops: seq<nat>)
      requires Valid()
      decreases |hops|
    {
      && Admits(pre, u) && !g.IsEnd(u)
      && if |pre| + 1 == |line| then hops == []
         else |hops| > 0 && hops[0] < |Next(u)|
              && Consumes(pre + [u], Next(u)[hops[0]], hops[1..])
    }

    ghost predicate CanConsume(pre: seq<nat>, u: nat)
      requires Valid()
    {
      exists w :: Consumes(pre, u, w)
    }

    /** Some such walk starts with a choice below `i`. */
    ghost predicate ConsumesBelow(pre: seq<nat>, u: nat, i: nat)
      requires Valid()
    {
      exists w :: Consumes(pre, u, w) && |w| > 0 && w[0] < i
    }

    /** The ratings of the tokens along a derivation. */
    ghost function Ratings(pre: seq<nat>, u: nat, hops: seq<nat>): (r: seq<nat>)
      requires Valid() && Derives(pre, u, hops)
      ensures |r| == |line| - |pre|
      decreases |hops|
    {
      [Rating(lex, g.TokenOf(u), line[|pre|])]
      + if |pre| + 1 == |line| then []
        else Ratings(pre + [u], Next(u)[hops[0]], hops[1..])
    }

    /** The argument list a derivation stands for. */
    ghost function Render(pre: seq<nat>, u: nat, hops: seq<nat>): (r: seq<Arg>)
      requires Valid() && Derives(pre, u, hops)
      ensures |r| == |line| - |pre| + 1
      decreases |hops|
    {
      [Taken(Dup(g.TokenOf(u)).(arg := line[|pre|]))] + Rest(pre, u, hops)
    }

    /** The argument list without the entry of `u` itself. */
    ghost function Rest(pre: seq<nat>, u: nat, hops: seq<nat>): (r: seq<Arg>)
      requires Valid() && Derives(pre, u, hops)
      ensures |r| == |line| - |pre|
      decreases |hops|, 0
    {
      var v := Next(u)[hops[0]];
      if |pre| + 1 == |line| then [Command(g.ElementAt(v))]
      else Render(pre + [u], v, hops[1..])
    }

    /** `best` is least in the set `d` of derivations, and `sole` tells whether it
        is strictly below all the others. */
    ghost predicate Summary(pre: seq<nat>, u: nat, d: iset<seq<nat>>, best: seq<nat>, sole: bool)
      requires Valid()
    {
      && best in d
      && (forall h | h in d :: Derives(pre, u, h))
      && (forall h | h in d :: !LexLess(Ratings(pre, u, h), Ratings(pre, u, best)))
      && (sole <==> forall h | h in d && h != best :: LexLess(Ratings(pre, u, best), Ratings(pre, u, h)))
    }

    ghost function All(pre: seq<nat>, u: nat): iset<seq<nat>>
      requires Valid()
    {
      iset h | Derives(pre, u, h)
    }

    /** The derivations whose first choice is below `i`. */
    ghost function Below(pre: seq<nat>, u: nat, i: nat): iset<seq<nat>>
      requires Valid()
    {
      iset h | Derives(pre, u, h) && h[0] < i
    }

    ghost function At(pre: seq<nat>, u: nat, i: nat): iset<seq<nat>>
      requires Valid()
    {
      iset h | Derives(pre, u, h) && h[0] == i
    }

    /** What the search from `u` must report. */
    ghost predicate Answer(pre: seq<nat>, u: nat, status: Verdict, best: Option<seq<Arg>>)
      requires Valid()
    {
      match best
      case None =>
        && All(pre, u) == iset{}
        && status == (if CanConsume(pre, u) then Incomplete else NoMatching)
      case Some(list) =>
        exists h ::
          && Summary(pre, u, All(pre, u), h, status.Ok?)
          && (status.Ok? || status.Ambiguous?)
          && list == Render(pre, u, h)
    }

    /** What is known after the first `i` nexthops of `u`. */
    ghost predicate Progress(pre: seq<nat>, u: nat, i: nat, status: Verdict, best: Option<seq<Arg>>, h: seq<nat>)
      requires Valid()
    {
      match best
      case None =>
        && Below(pre, u, i) == iset{}
        && (status.Incomplete? || status.NoMatching?)
        && (status.Incomplete? <==> ConsumesBelow(pre, u, i))
      case Some(list) =>
        && Summary(pre, u, Below(pre, u, i), h, status.Ok?)
        && (status.Ok? || status.Ambiguous?)
        && list == Rest(pre, u, h)
    }
  }

  /** The better of two summaries summarizes the union; equals are not sole. */
  lemma Combine(p: Search, pre: seq<nat>, u: nat, a: iset<seq<nat>>, ha: seq<nat>, sa: bool,
                b: iset<seq<nat>>, hb: seq<nat>, sb: bool)
    requires p.Valid() && a !! b
    requires p.Summary(pre, u, a, ha, sa) && p.Summary(pre, u, b, hb, sb)
    ensures LexLess(p.Ratings(pre, u, ha), p.Ratings(pre, u, hb)) ==> p.Summary(pre, u, a + b, ha, sa)
    ensures LexLess(p.Ratings(pre, u, hb), p.Ratings(pre, u, ha)) ==> p.Summary(pre, u, a + b, hb, sb)
    ensures p.Ratings(pre, u, ha) == p.Ratings(pre, u, hb) ==> p.Summary(pre, u, a + b, ha, false)
  {
    var ra, rb := p.Ratings(pre, u, ha), p.Ratings(pre, u, hb);
    if LexLess(ra, rb) {
      Absorb(p, pre, u, a, ha, sa, b, hb, sb);
    }
    if LexLess(rb, ra) {
      Absorb(p, pre, u, b, hb, sb, a, ha, sa);
      assert b + a == a + b;
    }
    LexTotal(ra, rb);
  }

  lemma Absorb(p: Search, pre: seq<nat>, u: nat, a: iset<seq<nat>>, ha: seq<nat>, sa: bool,
               b: iset<seq<nat>>, hb: seq<nat>, sb: bool)
    requires p.Valid() && a !! b
    requires p.Summary(pre, u, a, ha, sa) && p.Summary(pre, u, b, hb, sb)
    requires LexLess(p.Ratings(pre, u, ha), p.Ratings(pre, u, hb))
    ensures p.Summary(pre, u, a + b, ha, sa)
  {
    var ra, rb := p.Ratings(pre, u, ha), p.Ratings(pre, u, hb);
    forall h | h in b
      ensures LexLess(ra, p.Ratings(pre, u, h)) && !LexLess(p.Ratings(pre, u, h), ra)
    {
      var r := p.Ratings(pre, u, h);
      LexTotal(rb, r);
      if LexLess(rb, r) {
        LexTransitive(ra, rb, r);
      }
      LexTotal(ra, r);
    }
  }

  /** Putting the choice of a child in front of its derivation puts the rating of
      `u` in front of the ratings. */
  lemma LiftOne(p: Search, pre: seq<nat>, u: nat, i: nat, h: seq<nat>)
    requires p.Valid() && p.Admits(pre, u) && !p.g.IsEnd(u) && |pre| + 1 < |p.line|
    requires i < |p.Next(u)|
    requires p.Derives(pre + [u], p.Next(u)[i], h)
    ensures [i] + h in p.At(pre, u, i)
    ensures p.Ratings(pre, u, [i] + h)
            == [Rating(p.lex, p.g.TokenOf(u), p.line[|pre|])] + p.Ratings(pre + [u], p.Next(u)[i], h)
    ensures p.Rest(pre, u, [i] + h) == p.Render(pre + [u], p.Next(u)[i], h)
  {
    assert ([i] + h)[1..] == h;
  }

  lemma LexPrefixed(x: nat, a: seq<nat>, b: seq<nat>)
    requires |a| == |b|
    ensures LexLess([x] + a, [x] + b) <==> LexLess(a, b)
  {
    assert ([x] + a)[1..] == a && ([x] + b)[1..] == b;
  }

  lemma LiftOrder(p: Search, pre: seq<nat>, u: nat, i: nat, h: seq<nat>, h': seq<nat>)
    requires p.Valid() && p.Admits(pre, u) && !p.g.IsEnd(u) && |pre| + 1 < |p.line|
    requires i < |p.Next(u)|
    requires p.Derives(pre + [u], p.Next(u)[i], h) && p.Derives(pre + [u], p.Next(u)[i], h')
    ensures [i] + h in p.At(pre, u, i) && [i] + h' in p.At(pre, u, i)
    ensures LexLess(p.Ratings(pre, u, [i] + h), p.Ratings(pre, u, [i] + h'))
            <==> LexLess(p.Ratings(pre + [u], p.Next(u)[i], h), p.Ratings(pre + [u], p.Next(u)[i], h'))
  {
    LiftOne(p, pre, u, i, h);
    LiftOne(p, pre, u, i, h');
    LexPrefixed(Rating(p.lex, p.g.TokenOf(u), p.line[|pre|]),
                p.Ratings(pre + [u], p.Next(u)[i], h), p.Ratings(pre + [u], p.Next(u)[i], h'));
  }

  /** A child's best derivation, with the choice of that child in front, is the
      best of those that start with it. */
  lemma LiftSummary(p: Search, pre: seq<nat>, u: nat, i: nat, h: seq<nat>, sole: bool)
    requires p.Valid() && p.Admits(pre, u) && !p.g.IsEnd(u) && |pre| + 1 < |p.line|
    requires i < |p.Next(u)|
    requires p.Summary(pre + [u], p.Next(u)[i], p.All(pre + [u], p.Next(u)[i]), h, sole)
    ensures p.Summary(pre, u, p.At(pre, u, i), [i] + h, sole)
    ensures p.Rest(pre, u, [i] + h) == p.Render(pre + [u], p.Next(u)[i], h)
  {
    var v := p.Next(u)[i];
    LiftOne(p, pre, u, i, h);
    forall t | t in p.At(pre, u, i)
      ensures !LexLess(p.Ratings(pre, u, t), p.Ratings(pre, u, [i] + h))
      ensures sole && t != [i] + h ==> LexLess(p.Ratings(pre, u, [i] + h), p.Ratings(pre, u, t))
    {
      assert t[1..] in p.All(pre + [u], v) && t == [i] + t[1..];
      LiftOrder(p, pre, u, i, t[1..], h);
      LiftOrder(p, pre, u, i, h, t[1..]);
    }
    if !sole {
      var t :| t in p.All(pre + [u], v) && t != h && !LexLess(p.Ratings(pre + [u], v, h), p.Ratings(pre + [u], v, t));
      LiftOrder(p, pre, u, i, h, t);
      assert ([i] + t)[1..] == t && ([i] + h)[1..] == h;
    }
  }

  lemma LiftEmpty(p: Search, pre: seq<nat>, u: nat, i: nat)
    requires p.Valid() && p.Admits(pre, u) && !p.g.IsEnd(u) && |pre| + 1 < |p.line|
    requires i < |p.Next(u)|
    requires p.All(pre + [u], p.Next(u)[i]) == iset{}
    ensures p.At(pre, u, i) == iset{}
  {
    forall t | t in p.At(pre, u, i)
      ensures t[1..] in p.All(pre + [u], p.Next(u)[i])
    {
    }
  }

  lemma BelowStep(p: Search, pre: seq<nat>, u: nat, i: nat)
    requires p.Valid()
    ensures p.Below(pre, u, i + 1) == p.Below(pre, u, i) + p.At(pre, u, i)
    ensures p.Below(pre, u, i) !! p.At(pre, u, i)
    ensures p.Below(pre, u, 0) == iset{}
    ensures p.g.IsToken(u) && !p.g.IsEnd(u) ==> p.Below(pre, u, |p.Next(u)|) == p.All(pre, u)
  {
  }

  /** When the last word is taken, each END among the nexthops is a derivation. */
  lemma AtEnd(p: Search, pre: seq<nat>, u: nat, i: nat)
    requires p.Valid() && p.Admits(pre, u) && !p.g.IsEnd(u) && |pre| + 1 == |p.line|
    requires i < |p.Next(u)|
    ensures if p.g.IsEnd(p.Next(u)[i]) then p.Summary(pre, u, p.At(pre, u, i), [i], true)
            else p.At(pre, u, i) == iset{}
  {
    forall t | t in p.At(pre, u, i)
      ensures t == [i]
    {
    }
  }

  /** All derivations of the last word rate alike, so two stay a tie. */
  lemma TieStays(p: Search, pre: seq<nat>, u: nat, i: nat, h: seq<nat>)
    requires p.Valid() && p.Admits(pre, u) && !p.g.IsEnd(u) && |pre| + 1 == |p.line|
    requires i <= |p.Next(u)|
    requires p.Summary(pre, u, p.Below(pre, u, i), h, false)
    ensures p.Summary(pre, u, p.All(pre, u), h, false)
  {
    forall t | t in p.All(pre, u)
      ensures !LexLess(p.Ratings(pre, u, t), p.Ratings(pre, u, h))
      ensures !LexLess(p.Ratings(pre, u, h), p.Ratings(pre, u, t))
    {
      assert p.Ratings(pre, u, t) == p.Ratings(pre, u, h);
      LexTotal(p.Ratings(pre, u, t), p.Ratings(pre, u, h));
    }
    var t :| t in p.Below(pre, u, i) && t != h && !LexLess(p.Ratings(pre, u, h), p.Ratings(pre, u, t));
    assert t in p.All(pre, u);
  }

  lemma ConsumesStep(p: Search, pre: seq<nat>, u: nat, i: nat)
    requires p.Valid() && p.Admits(pre, u) && !p.g.IsEnd(u) && |pre| + 1 < |p.line|
    requires i < |p.Next(u)|
    ensures p.ConsumesBelow(pre, u, i + 1)
            <==> p.ConsumesBelow(pre, u, i) || p.CanConsume(pre + [u], p.Next(u)[i])
  {
    var v := p.Next(u)[i];
    if p.CanConsume(pre + [u], v) {
      var w :| p.Consumes(pre + [u], v, w);
      assert ([i] + w)[1..] == w;
      assert p.Consumes(pre, u, [i] + w);
    }
    if p.ConsumesBelow(pre, u, i + 1) {
      var w :| p.Consumes(pre, u, w) && |w| > 0 && w[0] < i + 1;
      assert w[0] == i ==> p.Consumes(pre + [u], v, w[1..]);
    }
  }

  /** `list` is an argument list for the words from `n` on, and `r` its ratings. */
  ghost predicate Rated(p: Search, list: seq<Arg>, n: nat, r: seq<nat>) {
    && n + |r| == |p.line| && |list| == |r| + 1
    && forall k | 0 <= k < |r| ::
         && list[k].Taken? && !IsSpecial(list[k].token.kind)
         && Accepts(p.lex, list[k].token, p.line[n + k])
         && r[k] == Rating(p.lex, list[k].token, p.line[n + k])
  }

  lemma RatedCons(p: Search, a: Arg, x: nat, list: seq<Arg>, n: nat, r: seq<nat>)
    requires Rated(p, list, n + 1, r)
    requires a.Taken? && !IsSpecial(a.token.kind) && Accepts(p.lex, a.token, p.line[n])
    requires x == Rating(p.lex, a.token, p.line[n])
    ensures Rated(p, [a] + list, n, [x] + r)
  {
    forall k | 0 < k < |r| + 1
      ensures ([a] + list)[k] == list[k - 1] && ([x] + r)[k] == r[k - 1]
    {
    }
  }

  lemma {:induction false} RenderRated(p: Search, pre: seq<nat>, u: nat, h: seq<nat>)
    requires p.Valid() && p.Derives(pre, u, h) && !p.g.Transparent(u)
    ensures Rated(p, p.Render(pre, u, h), |pre|, p.Ratings(pre, u, h))
    decreases |h|
  {
    DupMatchesAlike(p.lex, p.g.TokenOf(u), p.line[|pre|], p.line[|pre|]);
    if |pre| + 1 < |p.line| {
      RenderRated(p, pre + [u], p.Next(u)[h[0]], h[1..]);
      RatedCons(p, p.Render(pre, u, h)[0], p.Ratings(pre, u, h)[0],
                p.Rest(pre, u, h), |pre|, p.Ratings(pre + [u], p.Next(u)[h[0]], h[1..]));
    }
  }

  /** Picks the better of two argument lists for the words from `n` on: the first
      word on which the ratings differ decides. */
  method Disambiguate(p: Search, first: seq<Arg>, second: seq<Arg>, n: nat, ghost ra: seq<nat>, ghost rb: seq<nat>)
    returns (r: Choice)
    requires Rated(p, first, n, ra) && Rated(p, second, n, rb)
    ensures r.First? <==> LexLess(ra, rb)
    ensures r.Second? <==> LexLess(rb, ra)
    ensures r.Tie? <==> ra == rb
  {
    var i := n;
    while i < |p.line|
      invariant n <= i <= |p.line|
      invariant forall j | 0 <= j < i - n :: ra[j] == rb[j]
    {
      r := DisambiguateTokens(p.lex, first[i - n].token, second[i - n].token, p.line[i]);
      if !r.Tie? {
        if r.First? {
          LexAt(ra, rb, i - n);
        } else {
          LexAt(rb, ra, i - n);
        }
        LexTotal(ra, rb);
        return;
      }
      i := i + 1;
    }
    assert ra == rb;
    LexTotal(ra, rb);
    r := Tie;
  }

  /** One nexthop processed after the last word: an END either is the first
      derivation found or ties with it. */
  lemma EndStep(p: Search, pre: seq<nat>, u: nat, i: nat, status: Verdict, best: Option<seq<Arg>>, h: seq<nat>)
    requires p.Valid() && p.Admits(pre, u) && !p.g.IsEnd(u) && |pre| + 1 == |p.line|
    requires i < |p.Next(u)|
    requires p.Progress(pre, u, i, status, best, h)
    ensures !p.g.IsEnd(p.Next(u)[i]) ==> p.Progress(pre, u, i + 1, status, best, h)
    ensures p.g.IsEnd(p.Next(u)[i]) && best.None? ==>
              p.Progress(pre, u, i + 1, Ok, Some([Command(p.g.ElementAt(p.Next(u)[i]))]), [i])
    ensures p.g.IsEnd(p.Next(u)[i]) && best.Some? ==> p.Summary(pre, u, p.All(pre, u), h, false)
  {
    BelowStep(p, pre, u, i);
    AtEnd(p, pre, u, i);
    if p.g.IsEnd(p.Next(u)[i]) && best.Some? {
      assert p.Ratings(pre, u, h) == p.Ratings(pre, u, [i]);
      Combine(p, pre, u, p.Below(pre, u, i), h, status.Ok?, p.At(pre, u, i), [i], true);
      TieStays(p, pre, u, i + 1, h);
    } else if best.None? {
      assert p.Below(pre, u, i + 1) == p.At(pre, u, i);
    } else {
      assert p.Below(pre, u, i + 1) == p.Below(pre, u, i);
    }
  }

  /** A nexthop from which nothing derives changes at most the status. */
  lemma DeadStep(p: Search, pre: seq<nat>, u: nat, i: nat, status: Verdict, best: Option<seq<Arg>>, h: seq<nat>, rstat: Verdict)
    requires p.Valid() && p.Admits(pre, u) && !p.g.IsEnd(u) && |pre| + 1 < |p.line|
    requires i < |p.Next(u)|
    requires p.Progress(pre, u, i, status, best, h)
    requires p.Answer(pre + [u], p.Next(u)[i], rstat, None)
    ensures best.Some? ==> p.Progress(pre, u, i + 1, status, best, h)
    ensures best.None? ==> p.Progress(pre, u, i + 1, if rstat.Rank() > status.Rank() then rstat else status, None, h)
  {
    BelowStep(p, pre, u, i);
    LiftEmpty(p, pre, u, i);
    assert p.Below(pre, u, i + 1) == p.Below(pre, u, i);
    ConsumesStep(p, pre, u, i);
  }

  /** The first nexthop from which something derives gives the current best. */
  lemma FirstStep(p: Search, pre: seq<nat>, u: nat, i: nat, status: Verdict, h: seq<nat>, rstat: Verdict, list: seq<Arg>)
    returns (h': seq<nat>)
    requires p.Valid() && p.Admits(pre, u) && !p.g.IsEnd(u) && |pre| + 1 < |p.line|
    requires i < |p.Next(u)|
    requires p.Progress(pre, u, i, status, None, h)
    requires p.Answer(pre + [u], p.Next(u)[i], rstat, Some(list))
    ensures p.Progress(pre, u, i + 1, rstat, Some(list), h')
  {
    h' := ChildBest(p, pre, u, i, rstat, list);
    BelowStep(p, pre, u, i);
    assert p.Below(pre, u, i + 1) == p.At(pre, u, i);
  }

  /** Two candidate lists and their ratings. */
  lemma PairRated(p: Search, pre: seq<nat>, u: nat, h: seq<nat>, best: seq<Arg>) returns (r: seq<nat>)
    requires p.Valid() && |pre| + 1 < |p.line| && p.Derives(pre, u, h) && best == p.Rest(pre, u, h)
    ensures Rated(p, best, |pre| + 1, r)
    ensures p.Ratings(pre, u, h) == [Rating(p.lex, p.g.TokenOf(u), p.line[|pre|])] + r
  {
    r := p.Ratings(pre + [u], p.Next(u)[h[0]], h[1..]);
    RenderRated(p, pre + [u], p.Next(u)[h[0]], h[1..]);
  }

  /** What follows from comparing the current best with a child's result. */
  lemma PairStep(p: Search, pre: seq<nat>, u: nat, i: nat, status: Verdict, best: seq<Arg>, h: seq<nat>,
                 rstat: Verdict, list: seq<Arg>)
    returns (ra: seq<nat>, rb: seq<nat>, h': seq<nat>)
    requires p.Valid() && p.Admits(pre, u) && !p.g.IsEnd(u) && |pre| + 1 < |p.line|
    requires i < |p.Next(u)|
    requires p.Progress(pre, u, i, status, Some(best), h)
    requires p.Answer(pre + [u], p.Next(u)[i], rstat, Some(list))
    ensures Rated(p, best, |pre| + 1, ra) && Rated(p, list, |pre| + 1, rb)
    ensures LexLess(ra, rb) ==> p.Progress(pre, u, i + 1, status, Some(best), h)
    ensures LexLess(rb, ra) ==> p.Progress(pre, u, i + 1, rstat, Some(list), h')
    ensures ra == rb ==> p.Progress(pre, u, i + 1, Ambiguous, Some(best), h)
  {
    h' := ChildBest(p, pre, u, i, rstat, list);
    ra := PairRated(p, pre, u, h, best);
    rb := PairRated(p, pre, u, h', list);
    BelowStep(p, pre, u, i);
    Combine(p, pre, u, p.Below(pre, u, i), h, status.Ok?, p.At(pre, u, i), h', rstat.Ok?);
    var x := Rating(p.lex, p.g.TokenOf(u), p.line[|pre|]);
    LexPrefixed(x, ra, rb);
    LexPrefixed(x, rb, ra);
  }

  /** The result of one child as a summary of the derivations through it. */
  lemma ChildBest(p: Search, pre: seq<nat>, u: nat, i: nat, rstat: Verdict, list: seq<Arg>) returns (h: seq<nat>)
    requires p.Valid() && p.Admits(pre, u) && !p.g.IsEnd(u) && |pre| + 1 < |p.line|
    requires i < |p.Next(u)|
    requires p.Answer(pre + [u], p.Next(u)[i], rstat, Some(list))
    ensures p.Summary(pre, u, p.At(pre, u, i), h, rstat.Ok?) && (rstat.Ok? || rstat.Ambiguous?)
    ensures list == p.Rest(pre, u, h)
  {
    var v := p.Next(u)[i];
    var t :| p.Summary(pre + [u], v, p.All(pre + [u], v), t, rstat.Ok?) && list == p.Render(pre + [u], v, t);
    LiftSummary(p, pre, u, i, t, rstat.Ok?);
    h := [i] + t;
  }

  lemma Begin(p: Search, pre: seq<nat>, u: nat)
    requires p.Valid() && p.g.IsToken(u) && !p.g.IsEnd(u)
    ensures p.Progress(pre, u, 0, NoMatching, None, [])
  {
    BelowStep(p, pre, u, 0);
  }

  /** After the last nexthop, what is known is the answer. */
  lemma Finish(p: Search, pre: seq<nat>, u: nat, status: Verdict, best: Option<seq<Arg>>, h: seq<nat>)
    requires p.Valid() && p.Admits(pre, u) && !p.g.IsEnd(u)
    requires p.Progress(pre, u, |p.Next(u)|, status, best, h)
    ensures best.Some? ==> p.Answer(pre, u, status, Some([Taken(Dup(p.g.TokenOf(u)).(arg := p.line[|pre|]))] + best.value))
    ensures best.None? ==> p.Answer(pre, u, if |pre| + 1 == |p.line| && status.NoMatching? then Incomplete else status, None)
  {
    BelowStep(p, pre, u, 0);
    if best.None? {
      if |pre| + 1 == |p.line| {
        assert p.Consumes(pre, u, []);
      } else if p.CanConsume(pre, u) {
        var w :| p.Consumes(pre, u, w);
        assert p.ConsumesBelow(pre, u, |p.Next(u)|);
      }
    }
  }

  /** Keeps the better of the current best list and the result of one child. */
  method SaveBest(p: Search, ghost pre: seq<nat>, u: nat, i: nat, status: Verdict, best: Option<seq<Arg>>,
                  ghost h: seq<nat>, rstat: Verdict, result: Option<seq<Arg>>)
    returns (status': Verdict, best': Option<seq<Arg>>, ghost h': seq<nat>)
    requires p.Valid() && p.Admits(pre, u) && !p.g.IsEnd(u) && |pre| + 1 < |p.line|
    requires i < |p.Next(u)|
    requires p.Progress(pre, u, i, status, best, h)
    requires p.Answer(pre + [u], p.Next(u)[i], rstat, result)
    ensures p.Progress(pre, u, i + 1, status', best', h')
  {
    status', best', h' := status, best, h;
    if result.Some? && best.Some? {
      var n := |p.line| + 1 - |result.value|;
      ghost var ra, rb, hr := PairStep(p, pre, u, i, status, best.value, h, rstat, result.value);
      var newbest := Disambiguate(p, best.value, result.value, n, ra, rb);
      if newbest.Tie? {
        status' := Ambiguous;
      } else if newbest.First? && status.Ambiguous? {
        status' := Ambiguous;
      } else if newbest.Second? && rstat.Ambiguous? {
        status' := Ambiguous;
      } else {
        status' := Ok;
      }
      if newbest.Second? {
        best', h' := result, hr;
      }
    } else if result.Some? {
      h' := FirstStep(p, pre, u, i, status, h, rstat, result.value);
      status', best' := rstat, result;
    } else {
      DeadStep(p, pre, u, i, status, best, h, rstat);
      if best.None? {
        status' := if rstat.Rank() > status.Rank() then rstat else status;
      }
    }
  }

  /** After the last word, the first END is the match and a second one stops the
      loop as a tie. */
  method SaveEnd(p: Search, ghost pre: seq<nat>, u: nat, ghost i: nat, gn: nat, status: Verdict,
                 best: Option<seq<Arg>>, ghost h: seq<nat>)
    returns (status': Verdict, best': Option<seq<Arg>>, ghost h': seq<nat>, stop: bool)
    requires p.Valid() && p.Admits(pre, u) && !p.g.IsEnd(u) && |pre| + 1 == |p.line|
    requires i < |p.Next(u)| && gn == p.Next(u)[i] && p.g.IsToken(gn)
    requires p.Progress(pre, u, i, status, best, h)
    ensures p.Progress(pre, u, if stop then |p.Next(u)| else i + 1, status', best', h')
  {
    status', best', h', stop := status, best, h, false;
    EndStep(p, pre, u, i, status, best, h);
    if p.g.TokenOf(gn).kind.End? {
      if best.Some? {
        BelowStep(p, pre, u, 0);
        status', stop := Ambiguous, true;
      } else {
        status', best', h' := Ok, Some([Command(p.g.ElementAt(gn))]), [i];
      }
    }
  }

  /** The node is on the current path. */
  method OnPath(stack: array<nat>, n: nat, u: nat) returns (found: bool)
    requires n <= stack.Length
    ensures found <==> u in stack[..n]
  {
    var s := 0;
    while s < n
      invariant s <= n && u !in stack[..s]
    {
      if stack[s] == u {
        return true;
      }
      s := s + 1;
    }
    return false;
  }

  lemma NothingHere(p: Search, pre: seq<nat>, u: nat)
    requires p.Valid() && !p.Admits(pre, u)
    ensures p.Answer(pre, u, NoMatching, None)
  {
  }

  /** Searches below `u`, the stack holding the current path.  The verdict and the
      list are exactly those of the set of derivations from `u`, and the path is
      left as it was. */
  method CommandMatchR(p: Search, n: nat, u: nat, stack: array<nat>) returns (status: Verdict, best: Option<seq<Arg>>)
    requires p.Valid() && Linked(p.g, p.next) && p.g.IsToken(u) && n < |p.line| && n <= CMD_ARGC_MAX
    requires stack.Length == CMD_ARGC_MAX
    modifies stack
    ensures stack[..n] == old(stack[..n])
    ensures p.Answer(old(stack[..n]), u, status, best)
    decreases |p.line| - n, 1
  {
    status, best := NoMatching, None;
    var token := p.g.TokenOf(u);
    if n == CMD_ARGC_MAX {
      NothingHere(p, stack[..n], u);
      return;
    }
    if !token.allowRepeat {
      var seen := OnPath(stack, n, u);
      if seen {
        NothingHere(p, stack[..n], u);
        return;
      }
    }
    if MatchToken(p.lex, token, p.line[n]).Level() < MinMatchLevel(token.kind).Level() {
      NothingHere(p, stack[..n], u);
      return;
    }
    ghost var pre := stack[..n];
    assert p.Admits(pre, u) && !p.g.IsEnd(u);
    stack[n] := u;
    assert stack[..n] == pre;
    ghost var h;
    status, best, h := MatchChildren(p, n, u, stack);
    Finish(p, pre, u, status, best, h);
    if best.Some? {
      best := Some([Taken(Dup(token).(arg := p.line[n]))] + best.value);
    } else if n + 1 == |p.line| && status.NoMatching? {
      status := Incomplete;
    }
  }

  /** The loop over the nexthops of the node on top of the path. */
  method MatchChildren(p: Search, n: nat, u: nat, stack: array<nat>)
    returns (status: Verdict, best: Option<seq<Arg>>, ghost h: seq<nat>)
    requires p.Valid() && Linked(p.g, p.next) && n < |p.line| && n < CMD_ARGC_MAX && stack.Length == CMD_ARGC_MAX && stack[n] == u
    requires p.Admits(stack[..n], u) && !p.g.IsEnd(u)
    modifies stack
    ensures stack[..n] == old(stack[..n])
    ensures p.Progress(old(stack[..n]), u, |p.Next(u)|, status, best, h)
    decreases |p.line| - n, 0
  {
    hide Search.Progress, Search.Answer, Accepts;
    ghost var pre := stack[..n];
    status, best, h := NoMatching, None, [];
    var next := Nexthops(p.g, p.next, u);
    Begin(p, pre, u);
    var i := 0;
    while i < |next|
      invariant i <= |next|
      invariant stack[..n + 1] == pre + [u]
      invariant p.Progress(pre, u, i, status, best, h)
    {
      var gn := next[i];
      if n + 1 == |p.line| {
        var stop;
        status, best, h, stop := SaveEnd(p, pre, u, i, gn, status, best, h);
        if stop {
          break;
        }
      } else {
        var rstat, result := CommandMatchR(p, n + 1, gn, stack);
        status, best, h := SaveBest(p, pre, u, i, status, best, h, rstat, result);
      }
      i := i + 1;
    }
    assert stack[..n + 1][..n] == pre;
  }
}
