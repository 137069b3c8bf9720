/** The two attribute parsers. */
module NetlinkParse {
  import opened Wrappers
  import opened Lists
  import opened Bytes
  import opened Netlink

  /** The low `n` bits of `k` without those set in `flags`. */
  function Cleared(k: nat, flags: nat, n: nat): nat {
    if n == 0 then 0
    else (if flags % 2 == 1 then 0 else k % 2) + 2 * Cleared(k / 2, flags / 2, n - 1)
  }

  /** The type without the given flag bits. */
  function Masked(kind: nat, flags: nat): nat {
    Cleared(kind, flags, 16)
  }

  lemma {:induction false} ClearedNone(k: nat, n: nat)
    requires k < Pow2(n)
    ensures Cleared(k, 0, n) == k
  {
    if n > 0 {
      ClearedNone(k / 2, n - 1);
    }
  }

  /** Clearing the top bit takes it off, if it was there. */
  lemma {:induction false} ClearedTop(k: nat, n: nat)
    requires n > 0 && k < Pow2(n)
    ensures Cleared(k, Pow2(n - 1), n) == if k < Pow2(n - 1) then k else k - Pow2(n - 1)
  {
    if n > 1 {
      ClearedTop(k / 2, n - 1);
      assert Pow2(n - 1) == 2 * Pow2(n - 2);
    } else {
      assert k == 0 || k == 1;
    }
  }

  /** Bit by bit: what is not among the flags stays. */
  lemma {:induction false} ClearedBit(k: nat, flags: nat, n: nat, i: nat)
    requires i < n
    ensures Cleared(k, flags, n) / Pow2(i) % 2 == if flags / Pow2(i) % 2 == 1 then 0 else k / Pow2(i) % 2
  {
    var c := Cleared(k, flags, n);
    var rest := Cleared(k / 2, flags / 2, n - 1);
    assert c == (if flags % 2 == 1 then 0 else k % 2) + 2 * rest;
    if i > 0 {
      ClearedBit(k / 2, flags / 2, n - 1, i - 1);
      Halved(c, i);
      Halved(k, i);
      Halved(flags, i);
      assert c / 2 == rest;
    }
  }

  lemma Halved(x: nat, i: nat)
    requires i > 0
    ensures x / Pow2(i) == x / 2 / Pow2(i - 1)
  {
    var p, h := Pow2(i - 1), x / 2;
    var q, r := h / p, h % p;
    assert h == p * q + r;
    assert 2 * (p * q) == (2 * p) * q;
    assert x == (2 * p) * q + (2 * r + x % 2);
    Quotient(x, 2 * p, q, 2 * r + x % 2);
  }

  lemma Pow16()
    ensures Pow2(16) == LIMIT && Pow2(15) == NESTED
  {
    assert Pow2(4) == 16;
    assert Pow2(8) == 16 * Pow2(4) == 256;
    assert Pow2(12) == 16 * Pow2(8) == 4096;
  }

  /** A nest is found under its plain type when the nest flag is masked. */
  lemma MaskedNested(kind: nat)
    requires kind < NESTED
    ensures Masked(kind, NESTED) == kind && Masked(kind + NESTED, NESTED) == kind
  {
    Pow16();
    ClearedTop(kind, 16);
    ClearedTop(kind + NESTED, 16);
  }

  /** The first attribute of a type. */
  function First(attrs: seq<Attr>, t: nat, flags: nat): Option<Attr> {
    if attrs == [] then None
    else if First(attrs[..|attrs| - 1], t, flags).Some? then First(attrs[..|attrs| - 1], t, flags)
    else if Masked(attrs[|attrs| - 1].kind, flags) == t then Some(attrs[|attrs| - 1]) else None
  }

  /** The last attribute of a type. */
  function Last(attrs: seq<Attr>, t: nat): Option<Attr> {
    if attrs == [] then None
    else if attrs[|attrs| - 1].kind == t then Some(attrs[|attrs| - 1]) else Last(attrs[..|attrs| - 1], t)
  }

  /** What being the first or the last means. */
  lemma {:induction false} FirstExact(attrs: seq<Attr>, t: nat, flags: nat)
    ensures First(attrs, t, flags).None? <==> forall k | 0 <= k < |attrs| :: Masked(attrs[k].kind, flags) != t
    ensures First(attrs, t, flags).Some? ==>
              exists k | 0 <= k < |attrs| ::
                && attrs[k] == First(attrs, t, flags).value && Masked(attrs[k].kind, flags) == t
                && forall j | 0 <= j < k :: Masked(attrs[j].kind, flags) != t
  {
    if attrs != [] {
      var n := |attrs| - 1;
      FirstExact(attrs[..n], t, flags);
      if First(attrs[..n], t, flags).Some? {
        var k :| 0 <= k < n && attrs[..n][k] == First(attrs[..n], t, flags).value && Masked(attrs[..n][k].kind, flags) == t
                 && forall j | 0 <= j < k :: Masked(attrs[..n][j].kind, flags) != t;
        assert attrs[k] == attrs[..n][k];
        forall j | 0 <= j < k
          ensures Masked(attrs[j].kind, flags) != t
        {
          assert attrs[..n][j] == attrs[j];
        }
      } else {
        forall j | 0 <= j < n
          ensures Masked(attrs[j].kind, flags) != t
        {
          assert attrs[..n][j] == attrs[j];
        }
      }
    }
  }

  lemma {:induction false} LastExact(attrs: seq<Attr>, t: nat)
    ensures Last(attrs, t).None? <==> forall k | 0 <= k < |attrs| :: attrs[k].kind != t
    ensures Last(attrs, t).Some? ==>
              exists k | 0 <= k < |attrs| ::
                attrs[k] == Last(attrs, t).value && attrs[k].kind == t && forall j | k < j < |attrs| :: attrs[j].kind != t
  {
    if attrs != [] && attrs[|attrs| - 1].kind != t {
      var n := |attrs| - 1;
      LastExact(attrs[..n], t);
      if Last(attrs[..n], t).Some? {
        var k :| 0 <= k < n && attrs[..n][k] == Last(attrs[..n], t).value && attrs[..n][k].kind == t
                 && forall j | k < j < n :: attrs[..n][j].kind != t;
        assert attrs[k] == attrs[..n][k];
        forall j | k < j < |attrs|
          ensures attrs[j].kind != t
        {
          assert j < n ==> attrs[..n][j] == attrs[j];
        }
      } else {
        forall j | 0 <= j < n
          ensures attrs[j].kind != t
        {
          assert attrs[..n][j] == attrs[j];
        }
      }
    }
  }

  /** The two agree when no type occurs twice. */
  lemma {:induction false} FirstIsLast(attrs: seq<Attr>, t: nat)
    requires forall i, j | 0 <= i < j < |attrs| :: attrs[i].kind != attrs[j].kind
    requires forall k | 0 <= k < |attrs| :: attrs[k].kind < LIMIT
    ensures First(attrs, t, 0) == Last(attrs, t)
  {
    if attrs != [] {
      var n := |attrs| - 1;
      FirstIsLast(attrs[..n], t);
      MaskedNone(attrs[n].kind);
      if attrs[n].kind == t {
        forall k | 0 <= k < n
          ensures attrs[..n][k].kind != t
        {
          assert attrs[..n][k] == attrs[k];
        }
        LastExact(attrs[..n], t);
      }
    }
  }

  lemma MaskedNone(kind: nat)
    requires kind < LIMIT
    ensures Masked(kind, 0) == kind
  {
    Pow16();
    ClearedNone(kind, 16);
  }

  /** Table entries so far, for the first parser. */
  ghost predicate FirstTable(tb: seq<Option<Attr>>, max: nat, attrs: seq<Attr>, flags: nat) {
    |tb| == max + 1 && forall t | 0 <= t <= max :: tb[t] == First(attrs, t, flags)
  }

  lemma FirstNext(tb: seq<Option<Attr>>, max: nat, attrs: seq<Attr>, flags: nat, a: Attr)
    requires FirstTable(tb, max, attrs, flags)
    ensures var t := Masked(a.kind, flags);
            FirstTable(if t <= max && tb[t].None? then tb[t := Some(a)] else tb, max, attrs + [a], flags)
  {
    assert (attrs + [a])[..|attrs|] == attrs;
  }

  /** The parser that keeps the first attribute of each type up to `max`, and says
      how many bytes were left over. */
  method ParseRtattrFlags(b: seq<byte>, max: nat, flags: nat) returns (tb: seq<Option<Attr>>, len: int)
    ensures FirstTable(tb, max, Walk(b), flags) && len == Deficit(b)
  {
    hide Align, Walk, Deficit, Get16, First, Masked;
    tb := seq(max + 1, _ => None);
    FirstNone(max, flags);
    ghost var done := [];
    var rta := b;
    len := |b|;
    WalkUnfold(rta);
    while RtaOk(rta)
      invariant FirstTable(tb, max, done, flags) && Walk(b) == done + Walk(rta) && Deficit(b) == Deficit(rta) && len == |rta|
      decreases |rta|
    {
      WalkUnfold(rta);
      var t := Masked(Get16(rta[2..]), flags);
      FirstNext(tb, max, done, flags, Front(rta));
      if t <= max && tb[t].None? {
        tb := tb[t := Some(Front(rta))];
      }
      done := done + [Front(rta)];
      var n := Align(Get16(rta));
      len := len - n;
      if len < 0 {
        assert Walk(b) == done;
        return;
      }
      rta := rta[n..];
      WalkUnfold(rta);
    }
    WalkUnfold(rta);
    assert Walk(b) == done;
  }

  lemma FirstNone(max: nat, flags: nat)
    ensures FirstTable(seq(max + 1, _ => None), max, [], flags)
  {
  }

  lemma WalkUnfold(b: seq<byte>)
    ensures !RtaOk(b) ==> Walk(b) == [] && Deficit(b) == |b|
    ensures RtaOk(b) ==> var n := Align(Get16(b));
                         && n >= HEADER
                         && (n > |b| ==> Walk(b) == [Front(b)] && Deficit(b) == |b| - n)
                         && (n <= |b| ==> Walk(b) == [Front(b)] + Walk(b[n..]) && Deficit(b) == Deficit(b[n..]))
  {
    hide Align, Get16;
  }

  // ---- the parser that keeps the last ----

  /** It stops for good at a type outside its table, and it runs past the end if the
      padding of the last attribute is missing. */
  datatype Outcome = Parsed(attrs: seq<Option<Attr>>) | Aborted | Overran

  ghost predicate LastTable(tb: seq<Option<Attr>>, max: nat, attrs: seq<Attr>) {
    |tb| == max && (forall t | 0 <= t < max :: tb[t] == Last(attrs, t)) && forall k | 0 <= k < |attrs| :: attrs[k].kind < max
  }

  lemma LastNext(tb: seq<Option<Attr>>, max: nat, attrs: seq<Attr>, a: Attr)
    requires LastTable(tb, max, attrs) && a.kind < max
    ensures LastTable(tb[a.kind := Some(a)], max, attrs + [a])
  {
    assert (attrs + [a])[..|attrs|] == attrs;
  }

  method ParseRtattr(b: seq<byte>, max: nat) returns (r: Outcome)
    ensures r.Aborted? <==> exists k | 0 <= k < |Walk(b)| :: Walk(b)[k].kind >= max
    ensures r.Overran? ==> Deficit(b) < 0
    ensures r.Parsed? ==> Deficit(b) >= 0 && LastTable(r.attrs, max, Walk(b))
  {
    hide Align, Walk, Deficit, Get16, Last;
    var tb := seq(max, _ => None);
    LastNone(max);
    ghost var done := [];
    var rta := b;
    while RtaOk(rta)
      invariant LastTable(tb, max, done) && Walk(b) == done + Walk(rta) && Deficit(b) == Deficit(rta)
      decreases |rta|
    {
      WalkUnfold(rta);
      var a := Front(rta);
      assert Walk(b)[|done|] == a;
      if a.kind >= max {
        return Aborted;
      }
      LastNext(tb, max, done, a);
      tb := tb[a.kind := Some(a)];
      done := done + [a];
      var n := Align(Get16(rta));
      if n > |rta| {
        assert Walk(b) == done;
        return Overran;
      }
      rta := rta[n..];
    }
    WalkUnfold(rta);
    assert Walk(b) == done;
    r := Parsed(tb);
  }

  /** An attribute of five bytes without its padding sends the parser past the end. */
  method Overrun() returns (r: Outcome)
    ensures r.Overran?
  {
    var b: seq<byte> := [5, 0, 1, 0, 9];
    assert Get16(b) == 5 && Align(5) == 8 && RtaOk(b) && Get16(b[2..]) == 1;
    assert Walk(b) == [Front(b)] && Front(b).kind == 1;
    r := ParseRtattr(b, 8);
  }

  /** A type beyond the table stops it. */
  method BeyondTable() returns (r: Outcome)
    ensures r.Aborted?
  {
    var b: seq<byte> := [4, 0, 9, 0];
    assert Get16(b) == 4 && Align(4) == 4 && RtaOk(b) && Get16(b[2..]) == 9;
    WalkUnfold(b);
    assert Walk(b)[0] == Front(b) && Front(b).kind == 9;
    r := ParseRtattr(b, 8);
  }

  lemma LastNone(max: nat)
    ensures LastTable(seq(max, _ => None), max, [])
  {
  }

  /** Both parsers read the same table when no type repeats and all types fit. */
  lemma ParsersAgree(attrs: seq<Attr>, first: seq<Option<Attr>>, last: seq<Option<Attr>>, max: nat)
    requires FirstTable(first, max, attrs, 0) && LastTable(last, max + 1, attrs) && max < LIMIT
    requires forall i, j | 0 <= i < j < |attrs| :: attrs[i].kind != attrs[j].kind
    ensures first == last
  {
    forall t | 0 <= t <= max
      ensures first[t] == last[t]
    {
      FirstIsLast(attrs, t);
    }
  }
}
