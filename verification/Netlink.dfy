/** Netlink attributes as bytes: a length and a type of two bytes each, the payload,
    and padding to a multiple of four. */
module Netlink {
  import opened Wrappers
  import opened Bytes

  datatype Attr = Attr(kind: nat, payload: seq<byte>)

  const HEADER := 4
  const LIMIT := 0x10000
  const NESTED := 0x8000

  function Align(n: nat): (r: nat)
    ensures n <= r < n + 4 && r % 4 == 0
  {
    (n + 3) / 4 * 4
  }

  /** A two-byte field, low byte first; what does not fit is cut off. */
  function Put16(n: nat): (b: seq<byte>)
    ensures |b| == 2
  {
    [(n % 256) as byte, (n / 256 % 256) as byte]
  }

  function Get16(b: seq<byte>): (n: nat)
    requires |b| >= 2
    ensures n < LIMIT
  {
    b[0] as nat + 256 * b[1] as nat
  }

  lemma Field16(n: nat, rest: seq<byte>)
    ensures Get16(Put16(n) + rest) == n % LIMIT
  {
    TwoBytes(n);
    var b := Put16(n) + rest;
    assert b[0] == (n % 256) as byte && b[1] == (n / 256 % 256) as byte;
  }

  lemma TwoBytes(n: nat)
    ensures n % 256 + 256 * (n / 256 % 256) == n % LIMIT
  {
    var q, r := n / 256, n % 256;
    assert n == 256 * q + r;
    assert q == 256 * (q / 256) + q % 256;
    Remainder(n, q / 256, 256 * (q % 256) + r);
  }

  lemma Remainder(n: nat, a: nat, b: nat)
    requires n == LIMIT * a + b && b < LIMIT
    ensures n % LIMIT == b
  {
  }

  /** The header and payload of an attribute, unpadded. */
  function Encode(kind: nat, data: seq<byte>): (b: seq<byte>)
    ensures |b| == HEADER + |data|
  {
    Put16(HEADER + |data|) + Put16(kind) + data
  }

  /** An attribute on the wire: length and type, low byte first, then the payload. */
  lemma OnTheWire(kind: nat, data: seq<byte>)
    requires kind < 256 && |data| < 252
    ensures Encode(kind, data) == [(4 + |data|) as byte, 0, kind as byte, 0] + data
  {
  }

  /** There is an attribute at the front of `b`. */
  predicate RtaOk(b: seq<byte>) {
    |b| >= HEADER && HEADER <= Get16(b) <= |b|
  }

  function Front(b: seq<byte>): Attr
    requires RtaOk(b)
  {
    Attr(Get16(b[2..]), b[HEADER..Get16(b)])
  }

  /** The attributes found one after the other. */
  function Walk(b: seq<byte>): (r: seq<Attr>)
    decreases |b|
  {
    if !RtaOk(b) then []
    else if Align(Get16(b)) > |b| then [Front(b)]
    else [Front(b)] + Walk(b[Align(Get16(b))..])
  }

  /** What is left when no further attribute is found: below zero if the padding of
      the last one is missing. */
  function Deficit(b: seq<byte>): int
    decreases |b|
  {
    if !RtaOk(b) then |b|
    else if Align(Get16(b)) > |b| then |b| - Align(Get16(b))
    else Deficit(b[Align(Get16(b))..])
  }

  /** `b` is a sequence of whole attributes. */
  ghost predicate Whole(b: seq<byte>) {
    Deficit(b) == 0
  }

  /** Whole attributes stay what they are when bytes follow. */
  lemma {:induction false} WalkConcat(a: seq<byte>, b: seq<byte>)
    requires Whole(a)
    ensures Walk(a + b) == Walk(a) + Walk(b) && Deficit(a + b) == Deficit(b) && |a| % 4 == 0
    decreases |a|
  {
    hide Align, Walk, Deficit, Get16, Front, RtaOk;
    WholeFront(a);
    if !RtaOk(a) {
      assert a + b == b;
    } else {
      var n := Align(Get16(a));
      FrontConcat(a, b);
      assert (a + b)[n..] == a[n..] + b;
      WalkConcat(a[n..], b);
      WalkStep(a);
      WalkStep(a + b);
    }
  }

  lemma WholeFront(a: seq<byte>)
    requires Whole(a)
    ensures !RtaOk(a) ==> a == [] && Walk(a) == []
    ensures RtaOk(a) ==> HEADER <= Align(Get16(a)) <= |a| && Whole(a[Align(Get16(a))..])
  {
    hide Align, Get16;
  }

  lemma FrontConcat(a: seq<byte>, b: seq<byte>)
    requires RtaOk(a)
    ensures RtaOk(a + b) && Get16(a + b) == Get16(a) && Front(a + b) == Front(a)
  {
    assert (a + b)[..HEADER] == a[..HEADER];
    assert Get16((a + b)[2..]) == Get16(a[2..]);
    assert (a + b)[HEADER..Get16(a)] == a[HEADER..Get16(a)];
  }

  lemma WalkStep(b: seq<byte>)
    requires RtaOk(b) && Align(Get16(b)) <= |b|
    ensures Walk(b) == [Front(b)] + Walk(b[Align(Get16(b))..]) && Deficit(b) == Deficit(b[Align(Get16(b))..])
  {
  }

  /** One attribute read back.  Its length field holds sixteen bits. */
  lemma WalkOne(kind: nat, data: seq<byte>, pad: seq<byte>)
    requires HEADER + |data| < LIMIT && |Encode(kind, data) + pad| == Align(HEADER + |data|)
    ensures Walk(Encode(kind, data) + pad) == [Attr(kind % LIMIT, data)] && Whole(Encode(kind, data) + pad)
  {
    var b := Encode(kind, data) + pad;
    FrontEncoded(kind, data, pad);
    hide Align, Encode, Get16;
    assert b[Align(HEADER + |data|)..] == [];
    WalkStep(b);
  }

  lemma FrontEncoded(kind: nat, data: seq<byte>, pad: seq<byte>)
    requires HEADER + |data| < LIMIT
    ensures var b := Encode(kind, data) + pad;
            RtaOk(b) && Get16(b) == HEADER + |data| && Front(b) == Attr(kind % LIMIT, data)
  {
    var b := Encode(kind, data) + pad;
    assert b == Put16(HEADER + |data|) + (Put16(kind) + data + pad);
    Field16(HEADER + |data|, Put16(kind) + data + pad);
    assert b[2..] == Put16(kind) + (data + pad);
    Field16(kind, data + pad);
    assert b[HEADER..HEADER + |data|] == data;
  }

  /** A payload too long for the length field is not read back. */
  lemma WalkTruncated(kind: nat, data: seq<byte>, pad: seq<byte>, rest: seq<byte>)
    requires HEADER + |data| >= LIMIT
    ensures var w := Walk(Encode(kind, data) + pad + rest); w == [] || w[0].payload != data
  {
    var b := Encode(kind, data) + pad + rest;
    assert b == Put16(HEADER + |data|) + (Put16(kind) + data + pad + rest);
    Field16(HEADER + |data|, Put16(kind) + data + pad + rest);
  }

  /** Adding an attribute after whole ones adds exactly that one, if and only if its
      length fits the length field. */
  lemma AddedExact(b: seq<byte>, kind: nat, data: seq<byte>, pad: seq<byte>)
    requires Whole(b) && |Encode(kind, data) + pad| == Align(HEADER + |data|)
    ensures HEADER + |data| < LIMIT <==> Walk(b + (Encode(kind, data) + pad)) == Walk(b) + [Attr(kind % LIMIT, data)]
    ensures HEADER + |data| < LIMIT ==> Whole(b + (Encode(kind, data) + pad))
  {
    var e := Encode(kind, data) + pad;
    WalkConcat(b, e);
    if HEADER + |data| < LIMIT {
      WalkOne(kind, data, pad);
    } else {
      WalkTruncated(kind, data, pad, []);
      assert e + [] == e;
      assert (Walk(b) + Walk(e))[|Walk(b)|..] == Walk(e);
      assert (Walk(b) + [Attr(kind % LIMIT, data)])[|Walk(b)|..] == [Attr(kind % LIMIT, data)];
    }
  }
}
