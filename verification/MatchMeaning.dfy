/** What a match means in terms of kinds of tokens, texts and words. */
module MatchMeaning {
  import opened Wrappers
  import opened Tokens
  import opened Ordering
  import opened CommandTree
  import opened Matcher
  import opened MatchVerdict

  /** START, FORK and JOIN are passed through. */
  predicate Plumbing(k: Kind) {
    k.Start? || k.Fork? || k.Join?
  }

  /** A path of edges whose inner nodes are all passed through, and whose last node is
      not. */
  ghost predicate OneHop(g: Graph, path: seq<nat>) {
    && |path| >= 2 && (forall k | 0 <= k < |path| :: path[k] < |g.nodes|)
    && (forall k | 0 <= k < |path| - 1 :: path[k + 1] in g.nodes[path[k]].to)
    && (forall k | 1 <= k < |path| - 1 :: g.nodes[path[k]].data.Tok? && Plumbing(g.nodes[path[k]].data.token.kind))
    && g.nodes[path[|path| - 1]].data.Tok? && !Plumbing(g.nodes[path[|path| - 1]].data.token.kind)
  }

  /** The nodes one hop away, by kinds. */
  lemma HopExact(g: Graph, u: nat, v: nat)
    requires g.Valid() && g.IsToken(u) && !g.IsEnd(u)
    ensures v in g.NextHops(u) <==> exists path :: OneHop(g, path) && path[0] == u && path[|path| - 1] == v
  {
    g.NextHopsExact(u, v);
    g.HopsTakeWords(u, [], 0);
    if v in g.NextHops(u) {
      var path :| g.TransparentPath(u, v, path);
      assert OneHop(g, path);
    }
    if path :| OneHop(g, path) && path[0] == u && path[|path| - 1] == v {
      assert g.TransparentPath(u, v, path);
    }
  }

  /** Every word is there and is taken by its node, no node takes two words unless it
      repeats, and each hop leads to the next node.  At most 256 words are taken. */
  ghost predicate Spells(p: Search, d: Derivation)
    requires p.Valid()
  {
    && 0 < |d.nodes| == |p.line| <= 256 && d.nodes[0] == p.g.start
    && |d.nodes| - 1 <= |d.hops| <= |d.nodes|
    && (forall k | 0 <= k < |d.nodes| ::
          && d.nodes[k] < |p.g.nodes| && p.g.nodes[d.nodes[k]].data.Tok? && p.line[k].Some?
          && Suits(p.lex, p.g.nodes[d.nodes[k]].data.token, p.line[k].value))
    && (forall i, k | 0 <= i < k < |d.nodes| && d.nodes[i] == d.nodes[k] :: p.g.nodes[d.nodes[k]].data.token.allowRepeat)
    && (forall k | 0 <= k < |d.hops| :: d.hops[k] < |p.Next(d.nodes[k])|)
    && (forall k | 0 <= k < |d.nodes| - 1 :: d.nodes[k + 1] == p.Next(d.nodes[k])[d.hops[k]])
  }

  /** After the last word an END. */
  ghost predicate SpellsCommand(p: Search, d: Derivation)
    requires p.Valid()
  {
    && Spells(p, d) && |d.hops| == |d.nodes|
    && var v := p.Next(d.nodes[|d.nodes| - 1])[d.hops[|d.nodes| - 1]];
       p.g.nodes[v].data.Tok? && p.g.nodes[v].data.token.kind.End?
  }

  lemma AdmitsExact(p: Search, pre: seq<nat>, u: nat)
    ensures p.Admits(pre, u) && !p.g.IsEnd(u) <==>
              && |pre| < 256 && |pre| < |p.line| && u < |p.g.nodes| && p.g.nodes[u].data.Tok? && p.line[|pre|].Some?
              && Suits(p.lex, p.g.nodes[u].data.token, p.line[|pre|].value)
              && (u in pre ==> p.g.nodes[u].data.token.allowRepeat)
  {
    if u < |p.g.nodes| && p.g.nodes[u].data.Tok? && |pre| < |p.line| {
      AcceptsExact(p.lex, p.g.nodes[u].data.token, if p.line[|pre|].Some? then p.line[|pre|].value else "");
    }
  }

  lemma WalkSpells(p: Search, d: Derivation)
    requires p.Valid() && Walk(p, [], p.g.start, d)
    ensures Spells(p, d)
  {
    hide Suits, Search.Admits, Graph.IsEnd;
    forall k | 0 <= k < |d.nodes|
      ensures Taken(p, d.nodes, k)
    {
      TakenExact(p, d.nodes, k);
    }
    assert Taken(p, d.nodes, |d.nodes| - 1);
    forall k | 0 <= k < |d.nodes|
      ensures d.nodes[k] < |p.g.nodes| && p.g.nodes[d.nodes[k]].data.Tok? && p.line[k].Some?
      ensures Suits(p.lex, p.g.nodes[d.nodes[k]].data.token, p.line[k].value)
    {
      assert Taken(p, d.nodes, k);
    }
    forall i, k | 0 <= i < k < |d.nodes| && d.nodes[i] == d.nodes[k]
      ensures d.nodes[k] < |p.g.nodes| && p.g.nodes[d.nodes[k]].data.Tok? && p.g.nodes[d.nodes[k]].data.token.allowRepeat
    {
      assert Taken(p, d.nodes, k);
      assert d.nodes[..k][i] == d.nodes[k];
    }
  }

  /** Node `k` takes word `k`. */
  ghost predicate Taken(p: Search, nodes: seq<nat>, k: nat)
    requires k < |nodes|
  {
    && k < 256 && k < |p.line| && nodes[k] < |p.g.nodes| && p.g.nodes[nodes[k]].data.Tok? && p.line[k].Some?
    && Suits(p.lex, p.g.nodes[nodes[k]].data.token, p.line[k].value)
    && (nodes[k] in nodes[..k] ==> p.g.nodes[nodes[k]].data.token.allowRepeat)
  }

  lemma TakenExact(p: Search, nodes: seq<nat>, k: nat)
    requires k < |nodes|
    ensures Taken(p, nodes, k) <==> p.Admits([] + nodes[..k], nodes[k]) && !p.g.IsEnd(nodes[k])
  {
    hide Suits, Search.Admits, Graph.IsEnd;
    assert [] + nodes[..k] == nodes[..k];
    AdmitsExact(p, nodes[..k], nodes[k]);
  }

  lemma SpellsTaken(p: Search, d: Derivation, k: nat)
    requires p.Valid() && Spells(p, d) && k < |d.nodes|
    ensures Taken(p, d.nodes, k)
  {
    hide Suits;
    if d.nodes[k] in d.nodes[..k] {
      var i :| 0 <= i < k && d.nodes[..k][i] == d.nodes[k];
      assert d.nodes[i] == d.nodes[k];
    }
  }

  lemma SpellsWalk(p: Search, d: Derivation)
    requires p.Valid() && Spells(p, d)
    ensures Walk(p, [], p.g.start, d)
  {
    hide Suits, Search.Admits, Graph.IsEnd, Taken;
    forall k | 0 <= k < |d.nodes|
      ensures p.Admits([] + d.nodes[..k], d.nodes[k]) && !p.g.IsEnd(d.nodes[k])
    {
      SpellsTaken(p, d, k);
      TakenExact(p, d.nodes, k);
    }
  }

  /** A derivation is a way to spell the line to a command, and a walk that takes every
      word one to spell the line. */
  lemma DerivationExact(p: Search, d: Derivation)
    requires p.Valid()
    ensures IsDerivation(p, d) <==> SpellsCommand(p, d)
    ensures Exhausts(p, d) <==> Spells(p, d) && |d.hops| == |d.nodes| - 1
  {
    hide Suits, Search.Admits;
    if Walk(p, [], p.g.start, d) {
      WalkSpells(p, d);
    }
    if Spells(p, d) {
      SpellsWalk(p, d);
    }
  }

  // ---- which derivation is better ----

  /** Where two ways to spell a line first differ in preference, `d` is the better. */
  ghost predicate Better(p: Search, d: Derivation, e: Derivation)
    requires p.Valid() && Spells(p, d) && Spells(p, e)
  {
    exists k | 0 < k < |p.line| ::
      && PreferredAt(p, d, e, k)
      && forall j | 0 < j < k :: !PreferredAt(p, d, e, j) && !PreferredAt(p, e, d, j)
  }

  /** The node of `d` is the better one for word `k`. */
  ghost predicate PreferredAt(p: Search, d: Derivation, e: Derivation, k: nat)
    requires p.Valid() && Spells(p, d) && Spells(p, e) && k < |p.line|
  {
    Preferred(p.g.nodes[d.nodes[k]].data.token, p.g.nodes[e.nodes[k]].data.token, p.line[k].value)
  }

  /** After the start only nodes that take words are met. */
  lemma NotSpecial(p: Search, d: Derivation, k: nat)
    requires p.Valid() && Spells(p, d) && 0 < k < |p.line|
    ensures p.g.IsToken(d.nodes[k]) && !IsSpecial(p.g.TokenOf(d.nodes[k]).kind)
    ensures Accepts(p.lex, p.g.TokenOf(d.nodes[k]), p.line[k])
  {
    hide Search.Admits, Walk;
    var u := d.nodes[k - 1];
    assert d.nodes[k - 1 + 1] == p.Next(u)[d.hops[k - 1]];
    AcceptsExact(p.lex, p.g.TokenOf(d.nodes[k]), p.line[k].value);
  }

  lemma RatedAt(p: Search, d: Derivation, e: Derivation, k: nat)
    requires p.Valid() && SpellsCommand(p, d) && SpellsCommand(p, e) && 0 < k < |p.line|
    ensures Key(p, [], d)[k] < Key(p, [], e)[k] <==> PreferredAt(p, d, e, k)
  {
    hide Suits, Rating, Preferred, Accepts;
    NotSpecial(p, d, k);
    NotSpecial(p, e, k);
    ChoiceExact(p.lex, p.g.TokenOf(d.nodes[k]), p.g.TokenOf(e.nodes[k]), p.line[k].value);
  }

  /** One key is less than another exactly when its derivation is the better. */
  lemma KeyExact(p: Search, d: Derivation, e: Derivation)
    requires p.Valid() && SpellsCommand(p, d) && SpellsCommand(p, e)
    ensures LexLess(Key(p, [], d), Key(p, [], e)) <==> Better(p, d, e)
  {
    hide Suits, Rating, PreferredAt, LexLess, Better;
    var a, b := Key(p, [], d), Key(p, [], e);
    assert a[0] == b[0];
    forall k | 0 < k < |p.line|
      ensures (a[k] < b[k] <==> PreferredAt(p, d, e, k)) && (b[k] < a[k] <==> PreferredAt(p, e, d, k))
    {
      RatedAt(p, d, e, k);
      RatedAt(p, e, d, k);
    }
    OrderExact(p, d, e, a, b);
  }

  lemma OrderExact(p: Search, d: Derivation, e: Derivation, a: seq<nat>, b: seq<nat>)
    requires p.Valid() && Spells(p, d) && Spells(p, e) && |a| == |b| == |p.line| > 0 && a[0] == b[0]
    requires forall k | 0 < k < |p.line| ::
               (a[k] < b[k] <==> PreferredAt(p, d, e, k)) && (b[k] < a[k] <==> PreferredAt(p, e, d, k))
    ensures LexLess(a, b) <==> Better(p, d, e)
  {
    hide Spells, PreferredAt, LexLess;
    if LexLess(a, b) {
      var k := LexDiffers(a, b);
    }
    if k :| 0 < k < |p.line| && PreferredAt(p, d, e, k)
            && forall j | 0 < j < k :: !PreferredAt(p, d, e, j) && !PreferredAt(p, e, d, j) {
      LexAt(a, b, k);
    }
  }

  /** A derivation wins exactly when it is better than every other way to spell the line
      to a command, and is among the best exactly when none is better. */
  lemma WinsExact(p: Search, d: Derivation)
    requires p.Valid()
    ensures Wins(p, d) <==> SpellsCommand(p, d) && forall e | SpellsCommand(p, e) && e != d :: Better(p, d, e)
    ensures Least(p, d) <==> SpellsCommand(p, d) && forall e | SpellsCommand(p, e) :: !Better(p, e, d)
  {
    hide Suits, Search.Admits, Better, LexLess, Rating;
    forall e
      ensures IsDerivation(p, e) <==> SpellsCommand(p, e)
    {
      DerivationExact(p, e);
    }
    forall e | SpellsCommand(p, e) && SpellsCommand(p, d)
      ensures LexLess(Key(p, [], d), Key(p, [], e)) <==> Better(p, d, e)
      ensures LexLess(Key(p, [], e), Key(p, [], d)) <==> Better(p, e, d)
    {
      KeyExact(p, d, e);
      KeyExact(p, e, d);
    }
  }

  // ---- the verdict and the arguments ----

  /** `d` is better than every other way to spell the line to a command. */
  ghost predicate Best(p: Search, d: Derivation)
    requires p.Valid()
  {
    SpellsCommand(p, d) && forall e | SpellsCommand(p, e) && e != d :: Better(p, d, e)
  }

  /** No way to spell the line to a command is better than `d`. */
  ghost predicate Unbeaten(p: Search, d: Derivation)
    requires p.Valid()
  {
    SpellsCommand(p, d) && forall e | SpellsCommand(p, e) :: !Better(p, e, d)
  }

  /** The argument is the token that took the word, holding the word. */
  predicate Stands(a: Token, t: Token, word: Option<string>) {
    && a.kind == t.kind && a.text == t.text && a.varname == t.varname && a.attr == t.attr && a.min == t.min && a.max == t.max
    && a.arg == word && !a.allowRepeat && a.refcnt == 1 && a.forkjoin.None?
  }

  /** One argument for each word, and the command after the END that is reached. */
  ghost predicate Argued(p: Search, d: Derivation, argv: seq<Token>, element: nat)
    requires p.Valid() && SpellsCommand(p, d)
  {
    && |argv| == |p.line| - 1
    && (forall k | 0 <= k < |argv| :: Stands(argv[k], p.g.nodes[d.nodes[k + 1]].data.token, p.line[k + 1]))
    && var v := p.Next(d.nodes[|argv|])[d.hops[|argv|]];
       && v < |p.g.nodes| && |p.g.nodes[v].to| > 0 && p.g.nodes[v].to[0] < |p.g.nodes|
       && p.g.nodes[p.g.nodes[v].to[0]].data == Cmd(element)
  }

  lemma DescribedExact(p: Search, d: Derivation, argv: seq<Token>, element: nat)
    requires p.Valid() && SpellsCommand(p, d) && IsDerivation(p, d) && Describes(p, d, argv, element)
    ensures Argued(p, d, argv, element)
  {
  }

  /** Some walk takes every word exactly when the line can be spelled at all. */
  lemma ExhaustsExact(p: Search)
    requires p.Valid()
    ensures (exists d :: Exhausts(p, d)) <==> exists d :: Spells(p, d)
  {
    hide Suits, Search.Admits;
    if d :| Exhausts(p, d) {
      DerivationExact(p, d);
    }
    if d :| Spells(p, d) {
      var e := Derivation(d.nodes, d.hops[..|d.nodes| - 1]);
      DerivationExact(p, e);
    }
  }

  /** The matcher, read as a whole.  It finds the one best way to spell the line to a
      command, with the tokens that take the words as arguments; or several are best; or
      the line can be spelled, but not to a command; or not at all. */
  method MatchLine(g: Graph, lex: Lexer, vline: seq<Option<string>>)
    returns (status: Verdict, argv: Option<seq<Token>>, el: Option<nat>)
    requires g.Valid()
    ensures var p := Search(g, HopTable(g), lex, [Some("dummy")] + vline);
            && (status.Ok? <==> exists d :: Best(p, d))
            && (status.Ambiguous? <==> exists d, e :: d != e && Unbeaten(p, d) && Unbeaten(p, e))
            && (status.Incomplete? <==> (forall d :: !SpellsCommand(p, d)) && exists d :: Spells(p, d))
            && (status.NoMatching? <==> forall d :: !Spells(p, d))
            && (status.Ok? <==> argv.Some?) && (status.Ok? <==> el.Some?)
            && (status.Ok? ==> exists d :: Best(p, d) && Argued(p, d, argv.value, el.value))
  {
    hide Spells, SpellsCommand, IsDerivation, Exhausts, Describes, Least, Unbeaten, Argued;
    status, argv, el := CommandMatch(g, lex, vline);
    ghost var p := Search(g, HopTable(g), lex, [Some("dummy")] + vline);
    VerdictMeans(p);
    if status.Ok? {
      ghost var d :| Wins(p, d) && Describes(p, d, argv.value, el.value);
      DescribedExact(p, d, argv.value, el.value);
    }
  }

  lemma VerdictMeans(p: Search)
    requires p.Valid()
    ensures forall d :: Wins(p, d) <==> Best(p, d)
    ensures forall d :: Least(p, d) <==> Unbeaten(p, d)
    ensures forall d :: IsDerivation(p, d) <==> SpellsCommand(p, d)
    ensures forall d | SpellsCommand(p, d) :: Spells(p, d)
    ensures (exists d :: Exhausts(p, d)) <==> exists d :: Spells(p, d)
  {
    hide Spells, Exhausts, Wins, Least, IsDerivation;
    forall d
      ensures (Wins(p, d) <==> Best(p, d)) && (Least(p, d) <==> Unbeaten(p, d)) && (IsDerivation(p, d) <==> SpellsCommand(p, d))
    {
      WinsExact(p, d);
      DerivationExact(p, d);
    }
    ExhaustsExact(p);
  }
}
