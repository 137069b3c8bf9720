/** Command tokens and the matching of one token against one input word. */
module Tokens {
  import opened Wrappers

  datatype Kind =
    | Word | Variable | Range | Ipv4 | Ipv4Prefix | Ipv6 | Ipv6Prefix | Mac | MacPrefix
    | Fork | Join | Start | End

  datatype Attr = Normal | Deprecated | Hidden

  /** A command token.  `forkjoin` is the node paired with a FORK or JOIN. */
  datatype Token = Token(
    kind: Kind, attr: Attr, allowRepeat: bool, refcnt: nat, text: string,
    min: int, max: int, arg: Option<string>, varname: Option<string>, forkjoin: Option<nat>)

  datatype MatchType = Trivial | NoMatch | Partly | Exact {
    function Level(): nat {
      match this
      case Trivial => 0
      case NoMatch => 1
      case Partly => 2
      case Exact => 3
    }
  }

  /** The matchers of address, prefix, range and MAC tokens, as any function of
      the token's kind, the bounds of a range and the word. */
  type Lexer = (Kind, int, int, string) -> WordMatch

  /** Only a missing word matches trivially. */
  type WordMatch = m: MatchType | !m.Trivial? witness NoMatch

  /** The plumbing kinds, from FORK on. */
  predicate IsSpecial(k: Kind) {
    k.Fork? || k.Join? || k.Start? || k.End?
  }

  /** Copies a token the way an argument list does: the copy is not repeatable,
      is referenced once and is paired with nothing. */
  function Dup(t: Token): (c: Token) {
    t.(allowRepeat := false, refcnt := 1, forkjoin := None)
  }

  function MatchWord(text: string, word: string): (r: MatchType)
    ensures r.Exact? <==> word == text && word != ""
    ensures r.Partly? <==> word == "" || word < text
    ensures !r.Trivial?
  {
    if |word| == 0 then Partly
    else if |word| < |text| then (if text[..|word|] == word then Partly else NoMatch)
    else if |word| == |text| then
      assert text[..|word|] == text;
      (if text[..|word|] == word then Exact else NoMatch)
    else NoMatch
  }

  function MatchToken(lex: Lexer, tok: Token, input: Option<string>): (m: MatchType)
    ensures m.Trivial? <==> input.None?
  {
    match input
    case None => Trivial
    case Some(word) =>
      if tok.kind.Word? then MatchWord(tok.text, word)
      else if tok.kind.Variable? then Exact
      else if IsSpecial(tok.kind) then NoMatch
      else if tok.kind.Range? then lex(Range, tok.min, tok.max, word)
      else lex(tok.kind, 0, 0, word)
  }

  function MinMatchLevel(k: Kind): MatchType {
    match k
    case Start => NoMatch
    case Word => Partly
    case _ => Exact
  }

  /** The token accepts the word as a full match. */
  predicate Accepts(lex: Lexer, tok: Token, input: Option<string>) {
    MatchToken(lex, tok, input).Level() >= MinMatchLevel(tok.kind).Level()
  }

  function ScorePrecedence(k: Kind): nat {
    match k
    case Ipv4 | Ipv4Prefix | Ipv6 | Ipv6Prefix | Mac | MacPrefix | Range => 2
    case Word => 3
    case Variable => 4
    case _ => 10
  }

  /** Preference of one matched token, smaller is better: type precedence first,
      then how exact the match is. */
  function Rating(lex: Lexer, tok: Token, input: Option<string>): nat {
    4 * ScorePrecedence(tok.kind) + (3 - MatchToken(lex, tok, input).Level())
  }

  datatype Choice = First | Second | Tie

  /** The pairwise comparison agrees with the rating: it is a total preorder on
      the tokens that accept the word, and a tie is equality of ratings. */
  function DisambiguateTokens(lex: Lexer, first: Token, second: Token, input: Option<string>): (r: Choice)
    requires !IsSpecial(first.kind) && !IsSpecial(second.kind)
    requires Accepts(lex, first, input) && Accepts(lex, second, input)
    ensures r.First? <==> Rating(lex, first, input) < Rating(lex, second, input)
    ensures r.Second? <==> Rating(lex, second, input) < Rating(lex, first, input)
  {
    if first.kind != second.kind then
      var f, s := ScorePrecedence(first.kind), ScorePrecedence(second.kind);
      if f != s then (if f < s then First else Second) else Tie
    else
      var f, s := MatchToken(lex, first, input), MatchToken(lex, second, input);
      if f != s then (if f.Level() > s.Level() then First else Second) else Tie
  }

  lemma DupMatchesAlike(lex: Lexer, tok: Token, arg: Option<string>, input: Option<string>)
    ensures MatchToken(lex, Dup(tok).(arg := arg), input) == MatchToken(lex, tok, input)
    ensures Rating(lex, Dup(tok).(arg := arg), input) == Rating(lex, tok, input)
  {
  }

  /** The token takes the word. */
  predicate Suits(lex: Lexer, tok: Token, word: string) {
    match tok.kind
    case Word => word <= tok.text
    case Variable | Start => true
    case Fork | Join | End => false
    case Range => lex(Range, tok.min, tok.max, word).Exact?
    case _ => lex(tok.kind, 0, 0, word).Exact?
  }

  /** Which words a token takes, kind by kind.  An abbreviation is enough for a keyword;
      nothing takes a missing word. */
  lemma AcceptsExact(lex: Lexer, tok: Token, word: string)
    ensures tok.kind.Word? ==> (Accepts(lex, tok, Some(word)) <==> word <= tok.text)
    ensures tok.kind.Start? || tok.kind.Variable? ==> Accepts(lex, tok, Some(word))
    ensures tok.kind.Fork? || tok.kind.Join? || tok.kind.End? ==> !Accepts(lex, tok, Some(word))
    ensures tok.kind.Range? ==> (Accepts(lex, tok, Some(word)) <==> lex(Range, tok.min, tok.max, word).Exact?)
    ensures Typed(tok.kind) && !tok.kind.Range? ==> (Accepts(lex, tok, Some(word)) <==> lex(tok.kind, 0, 0, word).Exact?)
    ensures !Accepts(lex, tok, None)
    ensures Accepts(lex, tok, Some(word)) <==> Suits(lex, tok, word)
  {
  }

  /** Addresses, prefixes, MAC addresses and ranges. */
  predicate Typed(k: Kind) {
    k.Ipv4? || k.Ipv4Prefix? || k.Ipv6? || k.Ipv6Prefix? || k.Mac? || k.MacPrefix? || k.Range?
  }

  /** The first of two tokens that take a word is the better: typed before keyword before
      variable, however exact the match, and of two keywords the one spelled out. */
  predicate Preferred(first: Token, second: Token, word: string) {
    || (Typed(first.kind) && (second.kind.Word? || second.kind.Variable?))
    || (first.kind.Word? && second.kind.Variable?)
    || (first.kind.Word? && second.kind.Word? && word != "" && first.text == word && second.text != word)
  }

  /** What the pairwise choice is, kind by kind. */
  lemma ChoiceExact(lex: Lexer, first: Token, second: Token, word: string)
    requires !IsSpecial(first.kind) && !IsSpecial(second.kind)
    requires Accepts(lex, first, Some(word)) && Accepts(lex, second, Some(word))
    ensures Typed(first.kind) && (second.kind.Word? || second.kind.Variable?) ==>
              DisambiguateTokens(lex, first, second, Some(word)).First?
    ensures first.kind.Word? && second.kind.Variable? ==> DisambiguateTokens(lex, first, second, Some(word)).First?
    ensures first.kind.Word? && second.kind.Word? ==>
              (DisambiguateTokens(lex, first, second, Some(word)).First? <==> word != "" && first.text == word != second.text)
    ensures Typed(first.kind) && Typed(second.kind) ==> DisambiguateTokens(lex, first, second, Some(word)).Tie?
    ensures first.kind.Variable? && second.kind.Variable? ==> DisambiguateTokens(lex, first, second, Some(word)).Tie?
    ensures DisambiguateTokens(lex, first, second, Some(word)).First? <==>
              DisambiguateTokens(lex, second, first, Some(word)).Second?
    ensures Rating(lex, first, Some(word)) < Rating(lex, second, Some(word)) <==> Preferred(first, second, word)
  {
    AcceptsExact(lex, first, word);
    AcceptsExact(lex, second, word);
  }
}
