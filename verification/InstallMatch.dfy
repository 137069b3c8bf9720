/** Matching against installed commands: the derivations of any line on the merged graph
    are, one for one and key for key, those on the commands' own graphs. */
module InstallMatch {
  import opened Wrappers
  import opened Lists
  import opened Tokens
  import opened Ordering
  import opened CommandTree
  import opened Matcher
  import opened MatchVerdict
  import opened MergeShape
  import opened MergeEqual
  import opened MergeMatch
  import opened MergePaths
  import opened MergeKeeps
  import opened MergeReach
  import opened CommandMerge
  import opened CommandInstall
  import opened MatchPaths

  // ---- like paths take the same words ----

  /** The positions on a path of the nodes that take words. */
  ghost function Places(h: Heap, q: seq<nat>): seq<nat> {
    if q == [] then [] else Places(h, q[..|q| - 1]) + if Taker(h, Last(q)) then [|q| - 1] else []
  }

  lemma {:induction false} WordsAt(h: Heap, q: seq<nat>)
    ensures |Places(h, q)| == |Words(h, q)|
    ensures forall k | 0 <= k < |Places(h, q)| :: Places(h, q)[k] < |q| && Words(h, q)[k] == q[Places(h, q)[k]]
  {
    if q != [] {
      WordsAt(h, q[..|q| - 1]);
    }
  }

  lemma {:induction false} AlikePlaces(h: Heap, q: seq<nat>, h': Heap, q': seq<nat>)
    requires Alike(h, q, h', q')
    ensures Places(h, q) == Places(h', q')
  {
    if q != [] {
      var n := |q| - 1;
      AlikePlaces(h, q[..n], h', q'[..n]);
      assert SameData(h[q[n]].data, h'[q'[n]].data);
    }
  }

  /** Two lists of nodes that take the same words: the same labels, and the same places
      repeated. */
  ghost predicate SameWords(h: Heap, ws: seq<nat>, h': Heap, ws': seq<nat>) {
    && |ws| == |ws'|
    && (forall k | 0 <= k < |ws| ::
          && ws[k] < |h| && ws'[k] < |h'| && h[ws[k]].data.Tok? && h'[ws'[k]].data.Tok?
          && SameLabel(h[ws[k]].data.token, h'[ws'[k]].data.token))
    && (forall i, k | 0 <= i < |ws| && 0 <= k < |ws| :: ws[i] == ws[k] <==> ws'[i] == ws'[k])
  }

  lemma {:induction false} WordsTake(h: Heap, q: seq<nat>)
    ensures forall k | 0 <= k < |Words(h, q)| :: Taker(h, Words(h, q)[k])
  {
    if q != [] {
      WordsTake(h, q[..|q| - 1]);
    }
  }

  lemma AlikeWords(h: Heap, q: seq<nat>, h': Heap, q': seq<nat>)
    requires Alike(h, q, h', q')
    ensures SameWords(h, Words(h, q), h', Words(h', q'))
  {
    hide Words, Places;
    AlikePlaces(h, q, h', q');
    WordsAt(h, q);
    WordsAt(h', q');
    WordsTake(h, q);
    WordsTake(h', q');
  }

  lemma SameMatch(lex: Lexer, a: Token, b: Token, word: Option<string>)
    requires SameLabel(a, b)
    ensures Accepts(lex, a, word) == Accepts(lex, b, word) && Rating(lex, a, word) == Rating(lex, b, word)
  {
  }

  lemma SameTakes(p: Search, ws: seq<nat>, p': Search, ws': seq<nat>)
    requires p.lex == p'.lex && p.line == p'.line && SameWords(p.g.nodes, ws, p'.g.nodes, ws') && Takes(p, [], ws)
    ensures Takes(p', [], ws')
  {
    forall k | 0 <= k < |ws'|
      ensures p'.Admits([] + ws'[..k], ws'[k])
    {
      assert p.Admits([] + ws[..k], ws[k]);
      SameMatch(p.lex, p.g.TokenOf(ws[k]), p'.g.TokenOf(ws'[k]), p.line[k]);
      if ws'[k] in ws'[..k] {
        var i :| 0 <= i < k && ws'[..k][i] == ws'[k];
        assert ws[..k][i] == ws[i] == ws[k];
      }
    }
  }

  /** A path like one that takes the line takes the line. */
  lemma AlikeSpelled(p: Search, q: seq<nat>, p': Search, q': seq<nat>)
    requires p.lex == p'.lex && p.line == p'.line && Spelled(p, q)
    requires Alike(p.g.nodes, q, p'.g.nodes, q') && Path(p'.g.nodes, p'.g.start, q')
    ensures Spelled(p', q') && SameWords(p.g.nodes, Words(p.g.nodes, q), p'.g.nodes, Words(p'.g.nodes, q'))
  {
    hide Words, Takes, SameWords;
    AlikeWords(p.g.nodes, q, p'.g.nodes, q');
    SameTakes(p, Words(p.g.nodes, q), p', Words(p'.g.nodes, q'));
    var n := |q| - 1;
    assert SameData(p.g.nodes[q[n]].data, p'.g.nodes[q'[n]].data);
  }

  /** Derivations along like paths have the same key. */
  lemma AlikeKeys(p: Search, d: Derivation, p': Search, d': Derivation)
    requires p.lex == p'.lex && p.line == p'.line && p.Valid() && p'.Valid()
    requires IsDerivation(p, d) && IsDerivation(p', d') && SameWords(p.g.nodes, d.nodes, p'.g.nodes, d'.nodes)
    ensures Key(p, [], d) == Key(p', [], d')
  {
    forall k | 0 <= k < |d.nodes|
      ensures Key(p, [], d)[k] == Key(p', [], d')[k]
    {
      SameMatch(p.lex, p.g.TokenOf(d.nodes[k]), p'.g.TokenOf(d'.nodes[k]), p.line[k]);
    }
  }

  // ---- matching problems on heaps ----

  /** The graph that starts at `s` can be matched against. */
  ghost predicate Ready(h: Heap, rk: seq<nat>, s: nat) {
    Graph(h, rk, s).Valid() && Simple(h)
  }

  ghost function Pose(h: Heap, rk: seq<nat>, s: nat, lex: Lexer, line: seq<Option<string>>): (p: Search)
    requires Ready(h, rk, s)
    ensures Posed(p) && p.Valid() && p.g.nodes == h && p.g.start == s && p.lex == lex && p.line == line
  {
    Search(Graph(h, rk, s), HopTable(Graph(h, rk, s)), lex, line)
  }

  /** A derivation on the graph that starts at `start`. */
  datatype Share = Share(start: nat, d: Derivation)

  /** A matching problem on one heap and many on another. */
  datatype Case = Case(h: Heap, rk: seq<nat>, so: nat, h0: Heap, rk0: seq<nat>, starts: seq<nat>, lex: Lexer,
                       line: seq<Option<string>>) {

    ghost predicate Valid() {
      Ready(h, rk, so) && forall s | s in starts :: Ready(h0, rk0, s)
    }

    ghost function Whole(): (p: Search)
      requires Valid()
      ensures Posed(p) && p.Valid() && p.g.nodes == h && p.g.start == so && p.lex == lex && p.line == line
    {
      Pose(h, rk, so, lex, line)
    }

    ghost function Part(s: nat): (p: Search)
      requires Valid() && s in starts
      ensures Posed(p) && p.Valid() && p.g.nodes == h0 && p.g.start == s && p.lex == lex && p.line == line
    {
      Pose(h0, rk0, s, lex, line)
    }

    /** A derivation of one of the parts. */
    ghost predicate Has(x: Share)
      requires Valid()
    {
      x.start in starts && IsDerivation(Part(x.start), x.d)
    }

    ghost function KeyOf(x: Share): (key: seq<nat>)
      requires Valid() && Has(x)
      ensures |key| == |line|
    {
      Key(Part(x.start), [], x.d)
    }

    ghost function WholeKey(d: Derivation): (key: seq<nat>)
      requires Valid() && IsDerivation(Whole(), d)
      ensures |key| == |line|
    {
      Key(Whole(), [], d)
    }

    ghost function CommandOf(x: Share): nat
      requires Valid() && Has(x)
    {
      Element(Part(x.start), x.d)
    }

    /** The derivations on the whole are those of the parts taken together, each with
        its key and its command. */
    ghost predicate Sum(to: Derivation -> Share, fro: Share -> Derivation)
      requires Valid()
    {
      && (forall d {:trigger IsDerivation(Whole(), d)} | IsDerivation(Whole(), d) ::
            && Has(to(d)) && fro(to(d)) == d
            && WholeKey(d) == KeyOf(to(d)) && Element(Whole(), d) == CommandOf(to(d))
            && SameWords(h, d.nodes, h0, to(d).d.nodes))
      && (forall x {:trigger Has(x)} | Has(x) :: IsDerivation(Whole(), fro(x)) && to(fro(x)) == x)
    }

    /** `argv` and `element` are what `x` says: one token per word, holding that word and
        labelled as the token that takes it on its part, and its command. */
    ghost predicate Says(x: Share, argv: seq<Token>, element: nat)
      requires Valid() && Has(x)
    {
      && |argv| == |line| - 1 == |x.d.nodes| - 1
      && (forall i | 0 <= i < |argv| ::
            && Part(x.start).g.IsToken(x.d.nodes[i + 1]) && argv[i].arg == line[i + 1]
            && SameLabel(argv[i], Dup(Part(x.start).g.TokenOf(x.d.nodes[i + 1]))))
      && element == CommandOf(x)
    }

    /** No derivation of any part rates better. */
    ghost predicate Best(x: Share)
      requires Valid()
    {
      Has(x) && forall y | Has(y) :: !LexLess(KeyOf(y), KeyOf(x))
    }

    /** Every other derivation of any part rates worse. */
    ghost predicate Beats(x: Share)
      requires Valid()
    {
      Has(x) && forall y | Has(y) && y != x :: LexLess(KeyOf(x), KeyOf(y))
    }

    /** The paths on the whole are, up to likeness, those of the parts. */
    ghost predicate Shared() {
      (forall s | s in starts :: Carried(h0, s, h, so)) && Sourced(h0, starts, h, so)
    }

    /** Some walk on some part takes every word. */
    ghost predicate PartExhausts()
      requires Valid()
    {
      exists s, d :: s in starts && Exhausts(Part(s), d)
    }

    /** Each command node `y` belongs to the part `root[y]`, and its paths on the whole
        are those on its part. */
    ghost predicate Linked(root: seq<nat>) {
      && |root| == |h0| == |h|
      && (forall q | Path(h, so, q) && Ends(h, q) ::
            Ends(h0, q) && h0[Last(q)].data == h[Last(q)].data && root[Last(q)] in starts)
      && (forall s, q | s in starts && Path(h0, s, q) && Ends(h0, q) :: h[Last(q)].data == h0[Last(q)].data && root[Last(q)] == s)
      && (forall y | 0 <= y < |h0| && h0[y].data.Cmd? && root[y] in starts :: Corresponds(h, so, h0, root[y], y))
    }
  }

  /** The path ends at a command. */
  predicate Ends(h: Heap, q: seq<nat>) {
    |q| > 0 && q[|q| - 1] < |h| && h[q[|q| - 1]].data.Cmd?
  }

  ghost function Pairing(h: Heap, s: nat, h': Heap, s': nat, y: nat): (r: (seq<nat> -> seq<nat>, seq<nat> -> seq<nat>))
    requires Corresponds(h, s, h', s', y)
    ensures Paired(h, s, h', s', y, r.0, r.1)
  {
    var to, fro :| Paired(h, s, h', s', y, to, fro);
    (to, fro)
  }

  /** The path on its part of a path on the whole. */
  ghost function There(k: Case, root: seq<nat>, q: seq<nat>): (r: seq<nat>)
    requires k.Linked(root) && Path(k.h, k.so, q) && Ends(k.h, q)
    ensures PathTo(k.h0, root[Last(q)], r, Last(q)) && Alike(k.h, q, k.h0, r) && Last(r) == Last(q)
  {
    var y := Last(q);
    assert PathTo(k.h, k.so, q, y);
    Pairing(k.h, k.so, k.h0, root[y], y).0(q)
  }

  ghost function Back(k: Case, root: seq<nat>, s: nat, r: seq<nat>): (q: seq<nat>)
    requires k.Linked(root) && s in k.starts && Path(k.h0, s, r) && Ends(k.h0, r)
    ensures PathTo(k.h, k.so, q, Last(r)) && Alike(k.h0, r, k.h, q) && Last(q) == Last(r)
  {
    var y := Last(r);
    assert PathTo(k.h0, s, r, y);
    Pairing(k.h, k.so, k.h0, s, y).1(r)
  }

  lemma ThereAndBack(k: Case, root: seq<nat>, q: seq<nat>)
    requires k.Linked(root) && Path(k.h, k.so, q) && Ends(k.h, q)
    ensures var r := There(k, root, q);
            root[Last(q)] in k.starts && Path(k.h0, root[Last(q)], r) && Ends(k.h0, r) && Back(k, root, root[Last(q)], r) == q
  {
    hide Paired, Alike, Corresponds;
    assert PathTo(k.h, k.so, q, Last(q));
    ReadPaired(k.h, k.so, k.h0, root[Last(q)], Last(q), q);
  }

  lemma BackAndThere(k: Case, root: seq<nat>, s: nat, r: seq<nat>)
    requires k.Linked(root) && s in k.starts && Path(k.h0, s, r) && Ends(k.h0, r)
    ensures var q := Back(k, root, s, r);
            Path(k.h, k.so, q) && Ends(k.h, q) && root[Last(q)] == s && There(k, root, q) == r
  {
    hide Paired, Alike, Corresponds;
    assert PathTo(k.h0, s, r, Last(r));
    ReadPairedBack(k.h, k.so, k.h0, s, Last(r), r);
  }

  lemma ReadPaired(h: Heap, s: nat, h': Heap, s': nat, y: nat, p: seq<nat>)
    requires Corresponds(h, s, h', s', y) && PathTo(h, s, p, y)
    ensures var t := Pairing(h, s, h', s', y); t.1(t.0(p)) == p
  {
  }

  lemma ReadPairedBack(h: Heap, s: nat, h': Heap, s': nat, y: nat, q: seq<nat>)
    requires Corresponds(h, s, h', s', y) && PathTo(h', s', q, y)
    ensures var t := Pairing(h, s, h', s', y); t.0(t.1(q)) == q
  {
  }

  // ---- the derivations of the whole are those of the parts ----

  lemma SpelledEnds(p: Search, q: seq<nat>)
    requires Spelled(p, q)
    ensures Path(p.g.nodes, p.g.start, q) && Ends(p.g.nodes, q) && Last(q) == q[|q| - 1]
  {
  }

  ghost function To(k: Case, root: seq<nat>, d: Derivation): (x: Share)
    requires k.Valid() && k.Linked(root) && IsDerivation(k.Whole(), d)
    ensures k.Has(x)
  {
    ToSpelled(k, root, d);
    var q := PathOf(k.Whole(), d);
    var s := root[Last(q)];
    Share(s, DerivationOf(k.Part(s), There(k, root, q)))
  }

  lemma ToSpelled(k: Case, root: seq<nat>, d: Derivation)
    requires k.Valid() && k.Linked(root) && IsDerivation(k.Whole(), d)
    ensures var q := PathOf(k.Whole(), d);
            && Spelled(k.Whole(), q) && Path(k.h, k.so, q) && Ends(k.h, q) && Last(q) < |root| && root[Last(q)] in k.starts
            && Spelled(k.Part(root[Last(q)]), There(k, root, q))
            && SameWords(k.h, Words(k.h, q), k.h0, Words(k.h0, There(k, root, q)))
  {
    hide IsDerivation, Posed, Spelled, Alike, SameWords, Words, Corresponds, Ready, PathOf;
    PathSpelled(k.Whole(), d);
    var q := PathOf(k.Whole(), d);
    SpelledEnds(k.Whole(), q);
    AlikeSpelled(k.Whole(), q, k.Part(root[Last(q)]), There(k, root, q));
  }

  ghost function Fro(k: Case, root: seq<nat>, x: Share): (d: Derivation)
    requires k.Valid() && k.Linked(root) && k.Has(x)
    ensures IsDerivation(k.Whole(), d)
  {
    FroSpelled(k, root, x);
    DerivationOf(k.Whole(), Back(k, root, x.start, PathOf(k.Part(x.start), x.d)))
  }

  lemma FroSpelled(k: Case, root: seq<nat>, x: Share)
    requires k.Valid() && k.Linked(root) && k.Has(x)
    ensures var r := PathOf(k.Part(x.start), x.d);
            Path(k.h0, x.start, r) && Ends(k.h0, r) && Spelled(k.Whole(), Back(k, root, x.start, r))
  {
    hide IsDerivation, Posed, Spelled, Alike, SameWords, Words, Corresponds, Ready, PathOf;
    PathSpelled(k.Part(x.start), x.d);
    var r := PathOf(k.Part(x.start), x.d);
    SpelledEnds(k.Part(x.start), r);
    AlikeSpelled(k.Part(x.start), r, k.Whole(), Back(k, root, x.start, r));
  }

  lemma ToFro(k: Case, root: seq<nat>, d: Derivation)
    requires k.Valid() && k.Linked(root) && IsDerivation(k.Whole(), d)
    ensures Fro(k, root, To(k, root, d)) == d
  {
    hide IsDerivation, Posed, Spelled, Alike, SameWords, Words, Corresponds, Ready, PathOf, Case.Linked;
    ToSpelled(k, root, d);
    var q := PathOf(k.Whole(), d);
    ThereAndBack(k, root, q);
    PathInjective(k.Whole(), d, Fro(k, root, To(k, root, d)));
  }

  lemma FroTo(k: Case, root: seq<nat>, x: Share)
    requires k.Valid() && k.Linked(root) && k.Has(x)
    ensures To(k, root, Fro(k, root, x)) == x
  {
    hide IsDerivation, Posed, Spelled, Alike, SameWords, Words, Corresponds, Ready, PathOf, Case.Linked;
    FroSpelled(k, root, x);
    var r := PathOf(k.Part(x.start), x.d);
    BackAndThere(k, root, x.start, r);
    var y := To(k, root, Fro(k, root, x));
    ToSpelled(k, root, Fro(k, root, x));
    PathInjective(k.Part(x.start), x.d, y.d);
  }

  /** Each keeps its key and its command. */
  lemma ToKeeps(k: Case, root: seq<nat>, d: Derivation)
    requires k.Valid() && k.Linked(root) && IsDerivation(k.Whole(), d)
    ensures var x := To(k, root, d); Key(k.Whole(), [], d) == k.KeyOf(x) && Element(k.Whole(), d) == k.CommandOf(x)
    ensures SameWords(k.h, d.nodes, k.h0, To(k, root, d).d.nodes)
  {
    ToSpelled(k, root, d);
    hide IsDerivation, Posed, Spelled, Alike, SameWords, Words, Corresponds, Ready, PathOf, Key, Element;
    var q, x := PathOf(k.Whole(), d), To(k, root, d);
    var p, e := k.Whole(), k.Part(x.start);
    PathSpelled(p, d);
    PathSpelled(e, x.d);
    AlikeKeys(p, d, e, x.d);
    PathCommand(p, d);
    PathCommand(e, x.d);
  }

  lemma SumExact(k: Case, root: seq<nat>) returns (to: Derivation -> Share, fro: Share -> Derivation)
    requires k.Valid() && k.Linked(root)
    ensures k.Sum(to, fro)
  {
    hide Case.Linked, To, Fro, Key, Element, Ready, SameWords;
    to := d => if k.Valid() && k.Linked(root) && IsDerivation(k.Whole(), d) then To(k, root, d) else Share(0, d);
    fro := x => if k.Valid() && k.Linked(root) && k.Has(x) then Fro(k, root, x) else x.d;
    forall d | IsDerivation(k.Whole(), d)
      ensures k.Has(to(d)) && fro(to(d)) == d && k.WholeKey(d) == k.KeyOf(to(d))
      ensures Element(k.Whole(), d) == k.CommandOf(to(d)) && SameWords(k.h, d.nodes, k.h0, to(d).d.nodes)
    {
      ToFro(k, root, d);
      ToKeeps(k, root, d);
    }
    forall x | k.Has(x)
      ensures IsDerivation(k.Whole(), fro(x)) && to(fro(x)) == x
    {
      FroTo(k, root, x);
    }
  }

  // ---- walks that take every word ----

  /** A path like one whose nodes take the words takes them too. */
  lemma AlikeWorded(p: Search, q: seq<nat>, p': Search, q': seq<nat>)
    requires p.lex == p'.lex && p.line == p'.line && Worded(p, q)
    requires Alike(p.g.nodes, q, p'.g.nodes, q') && Path(p'.g.nodes, p'.g.start, q')
    ensures Worded(p', q')
  {
    hide Words, Takes, SameWords;
    AlikeWords(p.g.nodes, q, p'.g.nodes, q');
    SameTakes(p, Words(p.g.nodes, q), p', Words(p'.g.nodes, q'));
  }

  /** Some walk on the whole takes every word exactly when one on some part does. */
  lemma SharedExhausts(k: Case)
    requires k.Valid() && k.Shared()
    ensures (exists d :: Exhausts(k.Whole(), d)) <==> k.PartExhausts()
  {
    hide Exhausts, Worded, Posed, Ready, Alike, Path, Case.Shared;
    ExhaustsPath(k.Whole());
    if q :| Worded(k.Whole(), q) {
      var s, r := SharedSource(k, q);
      ExhaustsPath(k.Part(s));
    }
    if s, d :| s in k.starts && Exhausts(k.Part(s), d) {
      ExhaustsPath(k.Part(s));
      var r :| Worded(k.Part(s), r);
      var q := SharedCarried(k, s, r);
    }
  }

  lemma SharedSource(k: Case, q: seq<nat>) returns (s: nat, r: seq<nat>)
    requires k.Valid() && k.Shared() && Worded(k.Whole(), q)
    ensures s in k.starts && Worded(k.Part(s), r)
  {
    hide Posed, Ready, Alike, Path, Takes, Words;
    assert Source(k.h0, k.starts, k.h, q);
    s, r :| s in k.starts && Path(k.h0, s, r) && Alike(k.h, q, k.h0, r);
    AlikeWorded(k.Whole(), q, k.Part(s), r);
  }

  lemma SharedCarried(k: Case, s: nat, r: seq<nat>) returns (q: seq<nat>)
    requires k.Valid() && k.Shared() && s in k.starts && Worded(k.Part(s), r)
    ensures Worded(k.Whole(), q)
  {
    hide Posed, Ready, Alike, Path, Takes, Words;
    assert Carried(k.h0, s, k.h, k.so);
    q :| Path(k.h, k.so, q) && Alike(k.h0, r, k.h, q);
    AlikeWorded(k.Part(s), r, k.Whole(), q);
  }

  // ---- after installation ----

  lemma CoresSame(n: Heap)
    ensures |Cores(n)| == |n| && forall u | 0 <= u < |n| :: Cores(n)[u].to == n[u].to
    ensures forall u | 0 <= u < |n| ::
              Cores(n)[u].data.Tok? == n[u].data.Tok? && (n[u].data.Cmd? ==> Cores(n)[u].data == n[u].data)
    ensures forall u, v {:trigger Way(n, u, v)} :: Way(Cores(n), u, v) <==> Way(n, u, v)
    ensures forall u {:trigger Silent(n, u)} :: Silent(Cores(n), u) <==> Silent(n, u)
  {
  }

  lemma ShapeSimple(n: Heap, c: Cert)
    requires Shape(Cores(n), c)
    ensures Simple(n)
    ensures forall u, i {:trigger n[u].to[i]} | 0 <= u < |n| && 0 <= i < |n[u].to| ::
              n[u].to[i] < |n| && (n[n[u].to[i]].data.Cmd? <==> IsKind(n, u, End))
  {
    CoresSame(n);
    LinksSame(n);
    var h := Cores(n);
    forall u, i | 0 <= u < |n| && 0 <= i < |n[u].to|
      ensures n[u].to[i] < |n| && !IsKind(n, n[u].to[i], Start) && (n[n[u].to[i]].data.Cmd? <==> IsKind(n, u, End))
    {
      assert h[u].to[i] < |h| && !IsKind(h, h[u].to[i], Start);
      assert IsKind(h, u, End) <==> IsKind(n, u, End);
    }
    forall u, i, j | 0 <= u < |n| && 0 <= i < j < |n[u].to|
      ensures n[u].to[i] != n[u].to[j]
    {
      assert h[u].to[i] != h[u].to[j];
    }
    forall u | 0 <= u < |n|
      ensures (IsKind(n, u, End) ==> |n[u].to| == 1) && (n[u].data.Cmd? ==> n[u].to == [])
    {
      assert IsKind(h, u, End) <==> IsKind(n, u, End);
    }
  }

  /** A heap of the shape, without silent cycles, can be matched against from every
      start node. */
  lemma ShapeReady(n: Heap, c: Cert, rk: seq<nat>, s: nat)
    requires Shape(Cores(n), c) && Quiet(n, rk) && IsKind(n, s, Start)
    ensures Ready(n, rk, s)
  {
    hide Shape, Cores;
    ShapeSimple(n, c);
    var g := Graph(n, rk, s);
    forall u, i | 0 <= u < |n| && 0 <= i < |n[u].to| && g.Transparent(u) && g.Transparent(n[u].to[i])
      ensures rk[n[u].to[i]] < rk[u]
    {
      assert Silent(n, u) && Silent(n, n[u].to[i]);
    }
    forall u: nat | g.IsEnd(u)
      ensures g.HasElement(u)
    {
      assert IsKind(n, u, End) && n[u].to[0] < |n|;
    }
  }

  /** Matching does not see what merging updates in place. */
  lemma CoresCorrespond(n: Heap, c: Cert, s: nat, y: nat)
    requires Shape(Cores(n), c) && s < |n|
    ensures Corresponds(n, s, Cores(n), s, y) && Corresponds(Cores(n), s, n, s, y)
  {
    hide Shape;
    CoresSame(n);
    var h := Cores(n);
    var same: seq<nat> -> seq<nat> := p => p;
    forall p | PathTo(n, s, p, y) || PathTo(h, s, p, y)
      ensures PathTo(n, s, p, y) && PathTo(h, s, p, y) && Alike(n, p, h, p) && Alike(h, p, n, p)
    {
      assert Path(h, s, p);
      forall k | 0 <= k < |p|
        ensures p[k] < |h|
      {
        PathRoot(h, c, s, p, k);
      }
    }
    assert Paired(n, s, h, s, y, same, same) && Paired(h, s, n, s, y, same, same);
  }

  lemma CoresCarried(n: Heap, c: Cert, s: nat)
    requires Shape(Cores(n), c) && s < |n|
    ensures Carried(n, s, Cores(n), s) && Carried(Cores(n), s, n, s)
  {
    hide Shape;
    CoresSame(n);
    var h := Cores(n);
    forall p | Path(n, s, p) || Path(h, s, p)
      ensures Path(n, s, p) && Path(h, s, p) && Alike(n, p, h, p) && Alike(h, p, n, p)
    {
      assert Path(h, s, p);
      forall k | 0 <= k < |p|
        ensures p[k] < |h|
      {
        PathRoot(h, c, s, p, k);
      }
    }
  }

  lemma InstalledCarried(k: Case, c0: Cert, c: Cert, s: nat)
    requires Shape(Cores(k.h0), c0) && Shape(Cores(k.h), c) && s < |k.h0| && k.so < |k.h|
    requires Carried(Cores(k.h0), s, Cores(k.h), k.so)
    ensures Carried(k.h0, s, k.h, k.so)
  {
    hide Shape, Cores, Carried;
    CoresCarried(k.h0, c0, s);
    CoresCarried(k.h, c, k.so);
    CarriedTransitive(k.h0, s, Cores(k.h0), s, Cores(k.h), k.so);
    CarriedTransitive(k.h0, s, Cores(k.h), k.so, k.h, k.so);
  }

  lemma InstalledSourced(k: Case, c0: Cert, c: Cert, ss: seq<nat>)
    requires Shape(Cores(k.h0), c0) && Shape(Cores(k.h), c) && k.so < |k.h| && (forall s | s in ss :: s < |k.h0|)
    requires Sourced(Cores(k.h0), ss, Cores(k.h), k.so)
    ensures Sourced(k.h0, ss, k.h, k.so)
  {
    hide Shape, Cores, Carried, Sourced;
    CoresCarried(k.h, c, k.so);
    CarriedSourced(Cores(k.h), k.so, k.h, k.so, [k.so]);
    SourcedTransitive(Cores(k.h0), ss, Cores(k.h), [k.so], k.h, k.so);
    forall s | s in ss
      ensures Sourced(k.h0, ss, Cores(k.h0), s)
    {
      CoresCarried(k.h0, c0, s);
      CarriedSourced(k.h0, s, Cores(k.h0), s, ss);
    }
    SourcedTransitive(k.h0, ss, Cores(k.h0), ss, k.h, k.so);
  }

  lemma InstalledShared(k: Case, c0: Cert, c: Cert, starts: seq<nat>)
    requires Shape(Cores(k.h0), c0) && Installed(Cores(k.h0), c0, Cores(k.h), c, k.so, starts, |starts|)
    requires k.starts == [k.so] + starts && forall s | s in k.starts :: IsKind(k.h0, s, Start)
    ensures k.Shared()
  {
    InstalledFacts(k, c0, c, starts);
    InstalledWalks(k, c0, c, starts);
    hide Installed, Shape, Carried, Sourced;
    forall s | s in k.starts
      ensures Carried(k.h0, s, k.h, k.so)
    {
      InstalledCarried(k, c0, c, s);
    }
    InstalledSourced(k, c0, c, k.starts);
  }

  lemma InstalledWalks(k: Case, c0: Cert, c: Cert, starts: seq<nat>)
    requires Installed(Cores(k.h0), c0, Cores(k.h), c, k.so, starts, |starts|) && k.starts == [k.so] + starts
    ensures (forall s | s in k.starts :: Carried(Cores(k.h0), s, Cores(k.h), k.so))
    ensures Sourced(Cores(k.h0), k.starts, Cores(k.h), k.so)
  {
    hide Shape, Cores, Carried, Sourced;
    assert starts[..|starts|] == starts;
  }

  /** The paths of commands on the heaps themselves. */
  lemma InstalledPaths(n0: Heap, c0: Cert, n: Heap, c: Cert, so: nat, starts: seq<nat>, y: nat)
    requires Shape(Cores(n0), c0) && Installed(Cores(n0), c0, Cores(n), c, so, starts, |starts|)
    requires y < |n0| && n0[y].data.Cmd?
    ensures |c.root| == |c0.root| == |n0| == |n| && n[y].data == n0[y].data && c.root[y] == HomeAfter(c0, so, starts, |starts|, y)
    ensures Corresponds(n, c.root[y], n0, c0.root[y], y)
  {
    hide Shape, Corresponds, Tame;
    CoresSame(n);
    CoresSame(n0);
    var h, h0, s, s0 := Cores(n), Cores(n0), c.root[y], c0.root[y];
    assert h0[y].data.Cmd? && h[y].data == h0[y].data;
    RootStarts(h, c, y);
    RootStarts(h0, c0, y);
    CoresCorrespond(n, c, s, y);
    CoresCorrespond(n0, c0, s0, y);
    CorrespondsTransitive(n, s, h, s, h0, s0, y);
    CorrespondsTransitive(n, s, h0, s0, n0, s0, y);
  }

  /** A path from a start node leads to nodes of its graph. */
  lemma EndRoot(n: Heap, c: Cert, s: nat, q: seq<nat>)
    requires Shape(Cores(n), c) && IsKind(n, s, Start) && Path(n, s, q)
    ensures Last(q) < |n| && Last(q) < |c.root| && c.root[Last(q)] == s
  {
    CoresSame(n);
    LinksSame(n);
    assert IsKind(Cores(n), s, Start) && HasParent(Cores(n), c, s);
    hide Shape;
    assert Path(Cores(n), s, q);
    PathRoot(Cores(n), c, s, q, |q| - 1);
  }

  lemma InstalledLinked(k: Case, c0: Cert, c: Cert, starts: seq<nat>)
    requires Shape(Cores(k.h0), c0) && Installed(Cores(k.h0), c0, Cores(k.h), c, k.so, starts, |starts|)
    requires k.starts == [k.so] + starts && forall s | s in k.starts :: IsKind(k.h0, s, Start)
    ensures k.Linked(c0.root) && IsKind(k.h, k.so, Start)
  {
    InstalledFacts(k, c0, c, starts);
    hide Installed, Shape, Corresponds;
    forall q | Path(k.h, k.so, q) && Ends(k.h, q)
      ensures Ends(k.h0, q) && k.h0[Last(q)].data == k.h[Last(q)].data && c0.root[Last(q)] in k.starts
    {
      EndRoot(k.h, c, k.so, q);
      InstalledPaths(k.h0, c0, k.h, c, k.so, starts, Last(q));
    }
    forall s, q | s in k.starts && Path(k.h0, s, q) && Ends(k.h0, q)
      ensures k.h[Last(q)].data == k.h0[Last(q)].data && c0.root[Last(q)] == s
    {
      EndRoot(k.h0, c0, s, q);
    }
    forall y: nat | y < |k.h0| && k.h0[y].data.Cmd? && c0.root[y] in k.starts
      ensures Corresponds(k.h, k.so, k.h0, c0.root[y], y)
    {
      InstalledPaths(k.h0, c0, k.h, c, k.so, starts, y);
      assert starts[..|starts|] == starts;
    }
  }

  lemma InstalledFacts(k: Case, c0: Cert, c: Cert, starts: seq<nat>)
    requires Shape(Cores(k.h0), c0) && Installed(Cores(k.h0), c0, Cores(k.h), c, k.so, starts, |starts|)
    requires k.starts == [k.so] + starts && forall s | s in k.starts :: IsKind(k.h0, s, Start)
    ensures Shape(Cores(k.h), c) && |c0.root| == |k.h0| == |k.h| && IsKind(k.h, k.so, Start) && k.so in k.starts
    ensures forall y | 0 <= y < |k.h0| ::
              k.h[y].data.Cmd? == k.h0[y].data.Cmd? && (k.h[y].data.Cmd? ==> k.h[y].data == k.h0[y].data)
  {
    hide Shape, Corresponds;
    CoresSame(k.h);
    CoresSame(k.h0);
    LinksSame(k.h);
    LinksSame(k.h0);
    assert k.so in k.starts;
    assert IsKind(Cores(k.h0), k.so, Start);
    assert Cores(k.h)[k.so].data == Cores(k.h0)[k.so].data;
    assert IsKind(Cores(k.h), k.so, Start);
    forall y: nat | y < |k.h0|
      ensures k.h[y].data.Cmd? == k.h0[y].data.Cmd? && (k.h[y].data.Cmd? ==> k.h[y].data == k.h0[y].data)
    {
      assert Cores(k.h)[y].data == Cores(k.h0)[y].data;
    }
  }

  /** After any number of installations, the derivations of any line on the merged
      graph are those on the graphs merged, taken together. */
  lemma InstalledDerivations(k: Case, c0: Cert, c: Cert, starts: seq<nat>)
    returns (to: Derivation -> Share, fro: Share -> Derivation)
    requires Shape(Cores(k.h0), c0) && Installed(Cores(k.h0), c0, Cores(k.h), c, k.so, starts, |starts|)
    requires k.starts == [k.so] + starts && (forall s | s in k.starts :: IsKind(k.h0, s, Start)) && Quiet(k.h0, k.rk0)
    requires Quiet(k.h, k.rk)
    ensures k.Valid() && k.Sum(to, fro) && k.Shared()
  {
    hide Shape, Installed, Quiet, Ready, Case.Linked, Case.Sum, Case.Shared;
    InstalledShared(k, c0, c, starts);
    InstalledFacts(k, c0, c, starts);
    InstalledLinked(k, c0, c, starts);
    ShapeReady(k.h, c, k.rk, k.so);
    forall s | s in k.starts
      ensures Ready(k.h0, k.rk0, s)
    {
      ShapeReady(k.h0, c0, k.rk0, s);
    }
    to, fro := SumExact(k, c0.root);
  }

  /** A rank for the merged heap is there if there was one before. */
  lemma InstalledTame(n0: Heap, c0: Cert, n: Heap, c: Cert, so: nat, starts: seq<nat>, rk0: seq<nat>) returns (rk: seq<nat>)
    requires Installed(Cores(n0), c0, Cores(n), c, so, starts, |starts|) && Quiet(n0, rk0)
    ensures Quiet(n, rk)
  {
    CoresSame(n0);
    assert Quiet(Cores(n0), rk0);
    CoresSame(n);
    rk :| Quiet(Cores(n), rk);
  }

  lemma SumTo(k: Case, to: Derivation -> Share, fro: Share -> Derivation, d: Derivation)
    requires k.Valid() && k.Sum(to, fro) && IsDerivation(k.Whole(), d)
    ensures k.Has(to(d)) && fro(to(d)) == d && k.WholeKey(d) == k.KeyOf(to(d))
  {
  }

  lemma SumFro(k: Case, to: Derivation -> Share, fro: Share -> Derivation, x: Share)
    requires k.Valid() && k.Sum(to, fro) && k.Has(x)
    ensures IsDerivation(k.Whole(), fro(x)) && to(fro(x)) == x && k.WholeKey(fro(x)) == k.KeyOf(x)
  {
  }

  lemma SumWins(k: Case, to: Derivation -> Share, fro: Share -> Derivation, d: Derivation)
    requires k.Valid() && k.Sum(to, fro) && IsDerivation(k.Whole(), d)
    ensures k.Has(to(d)) && (Wins(k.Whole(), d) <==> k.Beats(to(d))) && (Least(k.Whole(), d) <==> k.Best(to(d)))
  {
    hide IsDerivation, Ready, LexLess, Key, Case.Sum, Case.Has, Case.KeyOf, Case.Whole;
    var p, x := k.Whole(), to(d);
    SumTo(k, to, fro, d);
    forall e | IsDerivation(p, e)
      ensures k.Has(to(e)) && k.WholeKey(e) == k.KeyOf(to(e)) && (to(e) == x ==> e == d)
    {
      SumTo(k, to, fro, e);
    }
    forall y | k.Has(y)
      ensures IsDerivation(p, fro(y)) && k.WholeKey(fro(y)) == k.KeyOf(y) && (fro(y) == d ==> y == x)
    {
      SumFro(k, to, fro, y);
    }
  }

  /** The matcher's verdict on the merged graph: one command's derivation beats all
      derivations of all commands, or two are best, or there is none; and if there is none,
      whether some walk takes every word is decided on the commands' own graphs too. */
  lemma SumVerdict(k: Case, to: Derivation -> Share, fro: Share -> Derivation)
    requires k.Valid() && k.Sum(to, fro) && k.Shared()
    ensures (exists d :: Wins(k.Whole(), d)) <==> exists x :: k.Beats(x)
    ensures (exists d, e :: d != e && Least(k.Whole(), d) && Least(k.Whole(), e)) <==>
              exists x, y :: x != y && k.Best(x) && k.Best(y)
    ensures (forall d :: !IsDerivation(k.Whole(), d)) <==> forall x :: !k.Has(x)
    ensures (exists d :: Exhausts(k.Whole(), d)) <==> k.PartExhausts()
  {
    hide Ready, IsDerivation, Exhausts, Case.Sum, Case.Shared, Case.Whole, Case.Has, Case.KeyOf, LexLess;
    SharedExhausts(k);
    forall d | IsDerivation(k.Whole(), d)
      ensures k.Has(to(d)) && fro(to(d)) == d && (Wins(k.Whole(), d) ==> k.Beats(to(d)))
      ensures (Least(k.Whole(), d) ==> k.Best(to(d)))
    {
      SumTo(k, to, fro, d);
      SumWins(k, to, fro, d);
    }
    forall x | k.Has(x)
      ensures IsDerivation(k.Whole(), fro(x)) && to(fro(x)) == x
      ensures (k.Beats(x) ==> Wins(k.Whole(), fro(x))) && (k.Best(x) ==> Least(k.Whole(), fro(x)))
    {
      SumFro(k, to, fro, x);
      SumWins(k, to, fro, fro(x));
    }
  }

  /** What a derivation on the whole describes, the derivation it stands for says. */
  lemma SumSays(k: Case, to: Derivation -> Share, fro: Share -> Derivation, d: Derivation, argv: seq<Token>, element: nat)
    requires k.Valid() && k.Sum(to, fro) && IsDerivation(k.Whole(), d) && Describes(k.Whole(), d, argv, element)
    ensures k.Has(to(d)) && k.Says(to(d), argv, element)
  {
    CompleteEnds(k.Whole(), [], k.so, d);
    var ws, ws' := d.nodes, to(d).d.nodes;
    forall i | 0 <= i < |argv|
      ensures k.Part(to(d).start).g.IsToken(ws'[i + 1]) && argv[i].arg == k.line[i + 1]
      ensures SameLabel(argv[i], Dup(k.Part(to(d).start).g.TokenOf(ws'[i + 1])))
    {
      assert ws[i + 1] < |k.h| && k.h[ws[i + 1]].data.Tok?;
    }
  }

  /** Installs commands one after the other and matches a line of words against the
      result.  The verdict is read off the derivations on the graphs as they were before
      the first installation. */
  method InstallAndMatch(m: Merger, ghost c: Cert, ghost rk0: seq<nat>, so: nat, starts: seq<nat>, lists: seq<seq<Option<nat>>>,
                         lex: Lexer, vline: seq<Option<string>>)
    returns (status: Verdict, argv: Option<seq<Token>>, el: Option<nat>, ghost k: Case)
    requires Shape(m.K(), c) && StartNode(m.K(), so) && so !in starts && Distinct(starts)
    requires Waiting(m.K(), c, m.owned, starts, lists, 0) && Quiet(m.nodes, rk0)
    modifies m
    ensures k.h0 == old(m.nodes) && k.starts == [so] + starts && k.lex == lex && k.line == [Some("dummy")] + vline && k.Valid()
    ensures status.Ok? <==> exists x :: k.Beats(x)
    ensures status.Ambiguous? <==> exists x, y :: x != y && k.Best(x) && k.Best(y)
    ensures status.Incomplete? <==> (forall x :: !k.Has(x)) && k.PartExhausts()
    ensures status.NoMatching? <==> (forall x :: !k.Has(x)) && !k.PartExhausts()
    ensures if status.Ok? then argv.Some? && el.Some? && exists x :: k.Beats(x) && k.Says(x, argv.value, el.value)
            else argv.None? && el.None?
  {
    hide Shape, Waiting, Installed, Quiet, Describes, Least, IsDerivation, Exhausts, Graph.Valid, Simple,
         Case.Sum, Case.Shared, Case.Has, Case.Beats, Case.Best, Case.Says, Case.PartExhausts;
    ghost var h0 := m.nodes;
    StartKinds(h0, c, m.owned, so, starts, lists);
    ghost var c' := InstallAll(m, c, so, starts, lists);
    ghost var rk := InstalledTame(h0, c, m.nodes, c', so, starts, rk0);
    k := Case(m.nodes, rk, so, h0, rk0, [so] + starts, lex, [Some("dummy")] + vline);
    ghost var to, fro := InstalledDerivations(k, c, c', starts);
    SumVerdict(k, to, fro);
    var g := Graph(m.nodes, rk, so);
    status, argv, el := CommandMatch(g, lex, vline);
    assert k.Whole() == Search(g, HopTable(g), lex, [Some("dummy")] + vline);
    if status.Ok? {
      ghost var d :| Wins(k.Whole(), d) && Describes(k.Whole(), d, argv.value, el.value);
      SumWins(k, to, fro, d);
      SumSays(k, to, fro, d, argv.value, el.value);
    }
  }

  lemma StartKinds(n: Heap, c: Cert, owned: seq<nat>, so: nat, starts: seq<nat>, lists: seq<seq<Option<nat>>>)
    requires StartNode(Cores(n), so) && Waiting(Cores(n), c, owned, starts, lists, 0)
    ensures forall s | s in [so] + starts :: IsKind(n, s, Start)
  {
    hide Waiting;
    WaitingStarts(Cores(n), c, owned, starts, lists);
    LinksSame(n);
    assert forall s | s in [so] + starts :: IsKind(Cores(n), s, Start);
  }
}
