/** Command completion: the level-by-level search for the tokens that may come
    next, and what its list holds. */
module Completer {
  import opened Wrappers
  import opened Tokens
  import opened CommandTree

  /** A completion problem, `next` being the table of nexthops.  A null word, for
      trailing blanks, may only be last. */
  datatype Query = Query(g: Graph, ghost next: seq<seq<nat>>, lex: Lexer, line: seq<Option<string>>) {

    ghost predicate Valid() {
      g.IsToken(g.start) && Table(g, next) && forall j | 0 <= j < |line| - 1 :: line[j].Some?
    }

    function Fit(u: nat, k: nat): MatchType
      requires g.IsToken(u) && k < |line|
    {
      MatchToken(lex, g.TokenOf(u), line[k])
    }

    /** A non-repeating path from the start, newest node first, whose earlier nodes
        all got past their words.  Its newest node faces word `|st| - 1`. */
    ghost predicate Open(st: seq<nat>)
      requires Valid()
      decreases |st|, 0
    {
      && 1 <= |st| <= |line|
      && g.IsToken(st[0])
      && if |st| == 1 then st[0] in next[g.start]
         else
           && Open(st[1..]) && Passes(st[1..])
           && st[0] in next[st[1]] && !g.Blocked(st[0], st[1..])
    }

    /** Some open path faces word `k` with a node that matches it exactly. */
    ghost predicate ExactAt(k: nat)
      requires Valid() && k < |line|
      decreases k + 1, 1
    {
      exists q :: |q| == k + 1 && Open(q) && Fit(q[0], k).Exact?
    }

    /** The newest node gets past its word: it is not hidden or deprecated, it
        matches at its minimum level, and an abbreviation counts only where no open
        path matches the word exactly. */
    ghost predicate Passes(st: seq<nat>)
      requires Valid() && 1 <= |st| <= |line| && g.IsToken(st[0])
      ensures Passes(st) ==> !g.IsEnd(st[0])
      decreases |st|, 2
    {
      var k := |st| - 1;
      && g.TokenOf(st[0]).attr.Normal?
      && Accepts(lex, g.TokenOf(st[0]), line[k])
      && (Fit(st[0], k).Exact? || (Fit(st[0], k).Partly? && !ExactAt(k)))
    }

    /** An open path whose newest node at least partly matches the last word. */
    ghost predicate Completes(st: seq<nat>)
      requires Valid()
    {
      && |st| == |line| && Open(st)
      && g.TokenOf(st[0]).attr.Normal?
      && !Fit(st[0], |st| - 1).NoMatch?
    }

    /** What one path adds to the next list. */
    ghost function Contribution(st: seq<nat>, exact: bool): (r: seq<seq<nat>>)
      requires Valid() && 1 <= |st| <= |line| && g.IsToken(st[0])
    {
      var m, last := Fit(st[0], |st| - 1), |st| == |line|;
      if !g.TokenOf(st[0]).attr.Normal? || m.NoMatch? then []
      else if last then [[st[0]]]
      else if (m.Partly? && exact) || !Accepts(lex, g.TokenOf(st[0]), line[|st| - 1]) then []
      else Stacked(Unblocked(g, next[st[0]], st), st)
    }
  }

  /** The hops that `stack` does not block. */
  ghost function Unblocked(g: Graph, hops: seq<nat>, stack: seq<nat>): (r: seq<nat>)
    requires forall v | v in hops :: g.IsToken(v)
  {
    if hops == [] then [] else (if g.Blocked(hops[0], stack) then [] else [hops[0]]) + Unblocked(g, hops[1..], stack)
  }

  lemma {:induction false} UnblockedExact(g: Graph, hops: seq<nat>, stack: seq<nat>, v: nat)
    requires forall v | v in hops :: g.IsToken(v)
    ensures v in Unblocked(g, hops, stack) <==> v in hops && !g.Blocked(v, stack)
  {
    if hops != [] {
      UnblockedExact(g, hops[1..], stack, v);
    }
  }

  lemma {:induction false} UnblockedConcat(g: Graph, a: seq<nat>, b: seq<nat>, stack: seq<nat>)
    requires (forall v | v in a :: g.IsToken(v)) && (forall v | v in b :: g.IsToken(v))
    ensures Unblocked(g, a + b, stack) == Unblocked(g, a, stack) + Unblocked(g, b, stack)
  {
    if a == [] {
      assert a + b == b;
    } else {
      assert (a + b)[0] == a[0] && (a + b)[1..] == a[1..] + b;
      UnblockedConcat(g, a[1..], b, stack);
      var here := if g.Blocked(a[0], stack) then [] else [a[0]];
      assert Unblocked(g, a, stack) == here + Unblocked(g, a[1..], stack);
    }
  }

  /** Puts `stack` under each hop. */
  function Stacked(hops: seq<nat>, stack: seq<nat>): (r: seq<seq<nat>>)
    ensures |r| == |hops|
    ensures forall k | 0 <= k < |hops| :: r[k] == [hops[k]] + stack
  {
    if hops == [] then [] else [[hops[0]] + stack] + Stacked(hops[1..], stack)
  }

  /** Checking against a stack of word-taking nodes only removes blocked hops. */
  lemma {:induction false} StackFilters(g: Graph, u: nat, stack: seq<nat>, i: nat)
    requires g.Valid() && g.IsToken(u) && !g.IsEnd(u) && i <= |g.nodes[u].to|
    requires forall s | s in stack :: !g.Transparent(s)
    requires forall v | v in g.HopsFrom(u, [], i) :: g.IsToken(v)
    ensures g.HopsFrom(u, stack, i) == Unblocked(g, g.HopsFrom(u, [], i), stack)
    decreases if g.Transparent(u) then 0 else 1, g.rank[u], |g.nodes[u].to| - i
  {
    if i < |g.nodes[u].to| {
      var c := g.nodes[u].to[i];
      StackFilters(g, u, stack, i + 1);
      if g.Transparent(c) {
        g.HopsTakeWords(c, [], 0);
        StackFilters(g, c, stack, 0);
      }
      UnblockedConcat(g, g.HopsVia(c, []), g.HopsFrom(u, [], i + 1), stack);
    }
  }

  /** The hops from `u` above `stack`, through the table. */
  method StackedHops(g: Graph, ghost next: seq<seq<nat>>, u: nat, stack: seq<nat>) returns (hops: seq<nat>)
    requires Linked(g, next) && Table(g, next) && g.IsToken(u) && !g.IsEnd(u)
    requires forall s | s in stack :: !g.Transparent(s)
    ensures hops == Unblocked(g, next[u], stack)
  {
    var added;
    hops, added := AddNexthops(g, [], u, stack);
    assert next[u] == g.NextHops(u);
    StackFilters(g, u, stack, 0);
  }

  lemma {:induction false} OpenTakesWords(p: Query, st: seq<nat>)
    requires p.Valid() && p.Open(st)
    ensures forall s | s in st :: p.g.IsToken(s) && !p.g.Transparent(s)
    decreases |st|
  {
    if |st| > 1 {
      OpenTakesWords(p, st[1..]);
      assert st == [st[0]] + st[1..];
    }
  }

  /** An open path read as a whole: it leaves the start by one hop, goes on hop by
      hop, repeats only repeatable nodes, and every earlier node matches its word. */
  lemma {:induction false} OpenPath(p: Query, st: seq<nat>)
    requires p.Valid() && p.Open(st)
    ensures st[|st| - 1] in p.next[p.g.start] && (forall s | s in st :: p.g.IsToken(s))
    ensures forall j | 0 <= j < |st| :: st[j] < |p.next|
    ensures forall j | 0 <= j < |st| - 1 :: st[j] in p.next[st[j + 1]]
    ensures forall j | 1 <= j < |st| :: Accepts(p.lex, p.g.TokenOf(st[j]), p.line[|st| - 1 - j])
    ensures forall j, k | 0 <= j < k < |st| && st[j] == st[k] :: p.g.TokenOf(st[j]).allowRepeat
    decreases |st|
  {
    if |st| > 1 {
      OpenPath(p, st[1..]);
      assert st == [st[0]] + st[1..];
    }
  }

  /** The node matches its word exactly, kind by kind. */
  lemma FitExact(p: Query, u: nat, k: nat)
    requires p.g.IsToken(u) && k < |p.line| && p.line[k].Some?
    ensures var t, w := p.g.TokenOf(u), p.line[k].value;
            p.Fit(u, k).Exact? <==>
              || (t.kind.Word? && w != "" && t.text == w) || t.kind.Variable?
              || (Typed(t.kind) && Suits(p.lex, t, w))
  {
  }

  /** What it takes to get past a word, kind by kind: a visible node that takes the word,
      and that spells it out if some open path matches it exactly. */
  lemma PassesExact(p: Query, st: seq<nat>)
    requires p.Valid() && 1 <= |st| <= |p.line| && p.g.IsToken(st[0]) && p.line[|st| - 1].Some?
    ensures var t, w := p.g.TokenOf(st[0]), p.line[|st| - 1].value;
            p.Passes(st) <==>
              && t.attr.Normal? && !IsSpecial(t.kind) && Suits(p.lex, t, w)
              && (t.kind.Word? && (w == "" || t.text != w) ==> !p.ExactAt(|st| - 1))
  {
    hide Query.ExactAt, Query.Open;
    AcceptsExact(p.lex, p.g.TokenOf(st[0]), p.line[|st| - 1].value);
  }

  /** What it takes to complete, kind by kind: any visible node when no word is begun, a
      keyword that begins with the word, a variable, or a typed node its lexer does not
      refuse. */
  lemma CompletesExact(p: Query, st: seq<nat>)
    requires p.Valid() && |st| == |p.line| && p.Open(st)
    ensures var t, w := p.g.TokenOf(st[0]), p.line[|st| - 1];
            p.Completes(st) <==>
              && t.attr.Normal?
              && (w.Some? ==>
                    || (t.kind.Word? && w.value <= t.text) || t.kind.Variable?
                    || (t.kind.Range? && !p.lex(Range, t.min, t.max, w.value).NoMatch?)
                    || (Typed(t.kind) && !t.kind.Range? && !p.lex(t.kind, 0, 0, w.value).NoMatch?))
  {
    hide Query.ExactAt, Query.Passes;
  }

  /** Before the last word, a path contributes its open extensions. */
  lemma ContributionExact(p: Query, st: seq<nat>, x: seq<nat>)
    requires p.Valid() && p.Open(st) && |st| < |p.line|
    ensures From(p, st, p.ExactAt(|st| - 1), x) <==> |x| == |st| + 1 && x[1..] == st && p.Open(x)
  {
    Contributes(p, st);
    if p.Passes(st) {
      Extends(p, st, x);
    } else if |x| == |st| + 1 && x[1..] == st && p.Open(x) {
      PassesBelow(p, x);
    }
    hide Query.ExactAt, Query.Open, Query.Passes, Query.Contribution;
  }

  lemma Contributes(p: Query, st: seq<nat>)
    requires p.Valid() && 1 <= |st| < |p.line| && p.g.IsToken(st[0])
    ensures p.Contribution(st, p.ExactAt(|st| - 1)) ==
            if p.Passes(st) then Stacked(Unblocked(p.g, p.next[st[0]], st), st) else []
  {
    hide Query.ExactAt;
  }

  lemma PassesBelow(p: Query, x: seq<nat>)
    requires p.Valid() && |x| > 1 && p.Open(x)
    ensures p.Open(x[1..]) && p.Passes(x[1..]) && p.g.IsToken(x[1])
  {
    hide Query.ExactAt;
  }

  lemma Extends(p: Query, st: seq<nat>, x: seq<nat>)
    requires p.Valid() && p.Open(st) && |st| < |p.line| && p.Passes(st)
    ensures x in Stacked(Unblocked(p.g, p.next[st[0]], st), st) <==> |x| == |st| + 1 && x[1..] == st && p.Open(x)
  {
    InStacked(Unblocked(p.g, p.next[st[0]], st), st, x);
    if |x| > 0 {
      UnblockedExact(p.g, p.next[st[0]], st, x[0]);
    }
  }

  lemma InStacked(hops: seq<nat>, stack: seq<nat>, x: seq<nat>)
    ensures x in Stacked(hops, stack) <==> |x| > 0 && x[0] in hops && x[1..] == stack
  {
    if |x| > 0 && x[0] in hops && x[1..] == stack {
      var k :| 0 <= k < |hops| && hops[k] == x[0];
      assert Stacked(hops, stack)[k] == x;
    }
  }

  /** At the last word, a path contributes its newest node if it completes. */
  lemma LastExact(p: Query, st: seq<nat>, exact: bool, x: seq<nat>)
    requires p.Valid() && p.Open(st) && |st| == |p.line|
    ensures From(p, st, exact, x) <==> p.Completes(st) && x == [st[0]]
  {
  }

  /** Every open path extends an open path of each smaller length. */
  lemma {:induction false} OpenSuffix(p: Query, st: seq<nat>, n: nat)
    requires p.Valid() && p.Open(st) && 1 <= n <= |st|
    ensures p.Open(st[|st| - n..])
    decreases |st|
  {
    if n < |st| {
      OpenSuffix(p, st[1..], n);
      assert st[1..][|st| - 1 - n..] == st[|st| - n..];
    } else {
      assert st[0..] == st;
    }
  }

  /** The list holds exactly the open paths that face word `k`. */
  ghost predicate Level(p: Query, list: seq<seq<nat>>, k: nat)
    requires p.Valid()
  {
    forall st :: st in list <==> |st| == k + 1 && p.Open(st)
  }

  /** The list holds exactly the newest nodes of the completing paths. */
  ghost predicate Ends(p: Query, list: seq<seq<nat>>)
    requires p.Valid()
  {
    forall x :: x in list <==> exists st :: p.Completes(st) && x == [st[0]]
  }

  /** Looks for an exact match of word `idx` among the current nodes. */
  method ExactExists(p: Query, current: seq<seq<nat>>, idx: nat) returns (found: bool)
    requires p.Valid() && idx < |p.line| && Level(p, current, idx)
    ensures found <==> p.ExactAt(idx)
  {
    found := false;
    forall k | 0 <= k < |current|
      ensures |current[k]| == idx + 1 && p.Open(current[k])
    {
      assert current[k] in current;
    }
    var i := 0;
    while i < |current| && !found
      invariant i <= |current|
      invariant found ==> p.ExactAt(idx)
      invariant !found ==> forall k | 0 <= k < i :: !p.Fit(current[k][0], idx).Exact?
    {
      assert current[i] in current;
      found := p.Fit(current[i][0], idx).Exact?;
      i := i + 1;
    }
  }

  /** What one current path adds to the next list. */
  method Contribute(p: Query, st: seq<nat>, exact: bool) returns (add: seq<seq<nat>>)
    requires p.Valid() && Linked(p.g, p.next) && 1 <= |st| <= |p.line| && p.g.IsToken(st[0])
    requires forall s | s in st :: !p.g.Transparent(s)
    ensures add == p.Contribution(st, exact)
  {
    add := [];
    var idx, token := |st| - 1, p.g.TokenOf(st[0]);
    if !token.attr.Normal? {
      return;
    }
    var last := |p.line| - 1 == idx;
    var m := MatchToken(p.lex, token, p.line[idx]);
    if m.Trivial? {
      assert last;
      add := [[st[0]]];
    } else if m.Partly? && exact && !last {
    } else if !m.NoMatch? {
      if last {
        add := [[st[0]]];
      } else if m.Level() >= MinMatchLevel(token.kind).Level() {
        var hops := StackedHops(p.g, p.next, st[0], st);
        add := Stacked(hops, st);
      }
    }
  }

  ghost predicate From(p: Query, st: seq<nat>, exact: bool, x: seq<nat>)
    requires p.Valid() && 1 <= |st| <= |p.line| && p.g.IsToken(st[0])
  {
    x in p.Contribution(st, exact)
  }

  /** `x` was contributed by one of the first `n` current paths. */
  ghost predicate Contributed(p: Query, current: seq<seq<nat>>, n: nat, exact: bool, x: seq<nat>)
    requires p.Valid() && n <= |current|
    requires forall k | 0 <= k < n :: 1 <= |current[k]| <= |p.line| && p.g.IsToken(current[k][0])
  {
    exists k | 0 <= k < n :: From(p, current[k], exact, x)
  }

  lemma ContributedStep(p: Query, current: seq<seq<nat>>, n: nat, exact: bool)
    requires p.Valid() && n < |current|
    requires forall k | 0 <= k < |current| :: 1 <= |current[k]| <= |p.line| && p.g.IsToken(current[k][0])
    ensures forall x :: Contributed(p, current, n + 1, exact, x)
                        <==> Contributed(p, current, n, exact, x) || x in p.Contribution(current[n], exact)
  {
    hide Query.Contribution;
    forall x
      ensures Contributed(p, current, n + 1, exact, x)
              <==> Contributed(p, current, n, exact, x) || x in p.Contribution(current[n], exact)
    {
      if x in p.Contribution(current[n], exact) {
        assert From(p, current[n], exact, x);
      }
    }
  }

  /** Moves every current path past word `idx`, or collects the completions when
      that is the last word. */
  method Advance(p: Query, current: seq<seq<nat>>, idx: nat) returns (next: seq<seq<nat>>)
    requires p.Valid() && Linked(p.g, p.next) && idx < |p.line| && Level(p, current, idx)
    ensures idx + 1 < |p.line| ==> Level(p, next, idx + 1)
    ensures idx + 1 == |p.line| ==> Ends(p, next)
  {
    next := [];
    var exact := ExactExists(p, current, idx);
    assert forall k | 0 <= k < |current| :: current[k] in current;
    var i := 0;
    while i < |current|
      invariant i <= |current|
      invariant forall x :: x in next <==> Contributed(p, current, i, exact, x)
    {
      OpenTakesWords(p, current[i]);
      var add := Contribute(p, current[i], exact);
      ContributedStep(p, current, i, exact);
      next := next + add;
      i := i + 1;
    }
    if idx + 1 < |p.line| {
      forall x
        ensures x in next <==> |x| == idx + 2 && p.Open(x)
      {
        NextLevel(p, current, idx, x);
      }
    } else {
      forall x
        ensures x in next <==> exists st :: p.Completes(st) && x == [st[0]]
      {
        LastLevel(p, current, idx, exact, x);
      }
    }
  }

  lemma NextLevel(p: Query, current: seq<seq<nat>>, idx: nat, x: seq<nat>)
    requires p.Valid() && idx + 1 < |p.line| && Level(p, current, idx)
    requires forall k | 0 <= k < |current| :: current[k] in current
    ensures Contributed(p, current, |current|, p.ExactAt(idx), x) <==> |x| == idx + 2 && p.Open(x)
  {
    forall k | 0 <= k < |current| && From(p, current[k], p.ExactAt(idx), x)
      ensures |x| == idx + 2 && p.Open(x)
    {
      IsOpen(p, current[k], idx, x);
    }
    if |x| == idx + 2 && p.Open(x) {
      IsContributed(p, current, idx, x);
    }
  }

  lemma IsOpen(p: Query, st: seq<nat>, idx: nat, x: seq<nat>)
    requires p.Valid() && idx + 1 < |p.line| && |st| == idx + 1 && p.Open(st)
    requires From(p, st, p.ExactAt(idx), x)
    ensures |x| == idx + 2 && p.Open(x)
  {
    hide Query.ExactAt, Query.Open, Query.Passes, From;
    ContributionExact(p, st, x);
  }

  lemma IsContributed(p: Query, current: seq<seq<nat>>, idx: nat, x: seq<nat>)
    requires p.Valid() && idx + 1 < |p.line| && Level(p, current, idx)
    requires forall k | 0 <= k < |current| :: current[k] in current
    requires |x| == idx + 2 && p.Open(x)
    ensures Contributed(p, current, |current|, p.ExactAt(idx), x)
  {
    hide Query.ExactAt, Query.Open, Query.Passes, From;
    PassesBelow(p, x);
    var st := x[1..];
    assert st in current;
    var k :| 0 <= k < |current| && current[k] == st;
    ContributionExact(p, st, x);
    assert From(p, current[k], p.ExactAt(idx), x);
  }

  lemma LastLevel(p: Query, current: seq<seq<nat>>, idx: nat, exact: bool, x: seq<nat>)
    requires p.Valid() && idx + 1 == |p.line| && Level(p, current, idx)
    requires forall k | 0 <= k < |current| :: current[k] in current
    ensures Contributed(p, current, |current|, exact, x) <==> exists st :: p.Completes(st) && x == [st[0]]
  {
    if Contributed(p, current, |current|, exact, x) {
      var k :| 0 <= k < |current| && From(p, current[k], exact, x);
      LastExact(p, current[k], exact, x);
    }
    if st :| p.Completes(st) && x == [st[0]] {
      assert st in current;
      var k :| 0 <= k < |current| && current[k] == st;
      LastExact(p, current[k], exact, x);
    }
  }

  /** The tokens of the newest nodes. */
  function Heads(g: Graph, list: seq<seq<nat>>): (r: seq<Token>)
    requires forall x | x in list :: |x| > 0 && g.IsToken(x[0])
    ensures |r| == |list| && forall k | 0 <= k < |list| :: r[k] == g.TokenOf(list[k][0])
  {
    if list == [] then [] else [g.TokenOf(list[0][0])] + Heads(g, list[1..])
  }

  /** The tokens that may complete the last word, or may start a command when
      there is no word.  The list is missing when nothing completes. */
  method CommandComplete(g: Graph, lex: Lexer, vline: seq<Option<string>>) returns (completions: Option<seq<Token>>)
    requires g.Valid() && Query(g, HopTable(g), lex, vline).Valid()
    ensures vline == [] ==> (completions.Some? <==> HopTable(g)[g.start] != [])
    ensures vline == [] && completions.Some? ==>
              forall t :: t in completions.value <==> exists v | v in HopTable(g)[g.start] && g.IsToken(v) :: t == g.TokenOf(v)
    ensures var p := Query(g, HopTable(g), lex, vline);
            vline != [] ==>
              && (completions.Some? <==> exists st :: p.Completes(st))
              && (completions.Some? ==>
                    forall t :: t in completions.value <==> exists st | p.Completes(st) :: t == g.TokenOf(st[0]))
  {
    var p := Query(g, HopTable(g), lex, vline);
    var hops := Nexthops(g, p.next, g.start);
    var next := Stacked(hops, []);
    FirstLevel(p, hops);
    var idx := 0;
    while idx < |vline| && |next| > 0
      invariant idx <= |vline|
      invariant idx < |vline| ==> Level(p, next, idx)
      invariant idx == |vline| > 0 ==> Ends(p, next)
      invariant |vline| == 0 ==> next == Stacked(hops, [])
    {
      next := Advance(p, next, idx);
      idx := idx + 1;
    }
    if idx == |vline| && |next| > 0 {
      forall x | x in next
        ensures |x| > 0 && g.IsToken(x[0])
      {
      }
      completions := Some(Heads(g, next));
      if vline == [] {
        AllStarts(g, hops, completions.value);
      } else {
        AllEnds(p, next, completions.value);
      }
    } else {
      completions := None;
      if vline != [] {
        NoneLeft(p, next, idx);
      }
    }
  }

  lemma FirstLevel(p: Query, hops: seq<nat>)
    requires p.Valid() && hops == p.next[p.g.start]
    ensures |p.line| > 0 ==> Level(p, Stacked(hops, []), 0)
  {
    if |p.line| > 0 {
      forall st
        ensures st in Stacked(hops, []) <==> |st| == 1 && p.Open(st)
      {
        InStacked(hops, [], st);
      }
    }
  }

  lemma AllStarts(g: Graph, hops: seq<nat>, list: seq<Token>)
    requires forall v | v in hops :: g.IsToken(v)
    requires |list| == |hops| && forall k | 0 <= k < |list| :: list[k] == g.TokenOf(hops[k])
    ensures forall t :: t in list <==> exists v | v in hops && g.IsToken(v) :: t == g.TokenOf(v)
  {
    forall v | v in hops
      ensures g.TokenOf(v) in list
    {
      var k :| 0 <= k < |hops| && hops[k] == v;
      assert list[k] == g.TokenOf(v);
    }
  }

  lemma AllEnds(p: Query, next: seq<seq<nat>>, list: seq<Token>)
    requires p.Valid() && |p.line| > 0 && Ends(p, next) && |next| > 0
    requires forall x | x in next :: |x| > 0 && p.g.IsToken(x[0])
    requires |list| == |next| && forall k | 0 <= k < |list| :: list[k] == p.g.TokenOf(next[k][0])
    ensures exists st :: p.Completes(st)
    ensures forall t :: t in list <==> exists st | p.Completes(st) :: t == p.g.TokenOf(st[0])
  {
    assert next[0] in next;
    forall t | t in list
      ensures exists st | p.Completes(st) :: t == p.g.TokenOf(st[0])
    {
      var k :| 0 <= k < |list| && list[k] == t;
      assert next[k] in next;
      var st :| p.Completes(st) && next[k] == [st[0]];
    }
    forall st | p.Completes(st)
      ensures p.g.TokenOf(st[0]) in list
    {
      assert [st[0]] in next;
      var k :| 0 <= k < |next| && next[k] == [st[0]];
      assert list[k] == p.g.TokenOf(st[0]);
    }
  }

  lemma NoneLeft(p: Query, next: seq<seq<nat>>, idx: nat)
    requires p.Valid() && |p.line| > 0 && idx <= |p.line| && next == []
    requires idx < |p.line| ==> Level(p, next, idx)
    requires idx == |p.line| ==> Ends(p, next)
    ensures !exists st :: p.Completes(st)
  {
    forall st | p.Completes(st)
      ensures if idx < |p.line| then st[|st| - (idx + 1)..] in next else [st[0]] in next
    {
      if idx < |p.line| {
        OpenSuffix(p, st, idx + 1);
      }
    }
  }
}
