/** Address prefixes, and what their byte-wise operations mean bit by bit. */
module Prefix {
  import opened Lists

  datatype Family = Inet | Inet6 {
    function Bytes(): nat {
      if Inet? then 4 else 16
    }
  }

  datatype Prefix = Prefix(family: Family, len: nat, bytes: seq<bv8>) {
    ghost predicate Valid() {
      |bytes| == family.Bytes() && len <= 8 * |bytes|
    }
  }

  const MASKBIT: seq<bv8> := [0x00, 0x80, 0xc0, 0xe0, 0xf0, 0xf8, 0xfc, 0xfe, 0xff]

  function Mask(s: nat): bv8
    requires s <= 8
  {
    MASKBIT[s]
  }

  /** Bit `i` of a byte, the first being the highest. */
  predicate Bit(b: bv8, i: nat)
    requires i < 8
  {
    b & TopBit(i) != 0
  }

  function TopBit(i: nat): bv8
    requires i < 8
  {
    match i
    case 0 => 0x80 case 1 => 0x40 case 2 => 0x20 case 3 => 0x10
    case 4 => 0x08 case 5 => 0x04 case 6 => 0x02 case _ => 0x01
  }

  /** Bit `k` of an address. */
  predicate BitAt(a: seq<bv8>, k: nat)
    requires k < 8 * |a|
  {
    Bit(a[k / 8], k % 8)
  }

  /** The first `n` bits of two addresses are the same. */
  ghost predicate Agree(a: seq<bv8>, b: seq<bv8>, n: nat)
    requires n <= 8 * |a| && n <= 8 * |b|
  {
    forall k | 0 <= k < n :: BitAt(a, k) == BitAt(b, k)
  }

  lemma SameByte(x: bv8, y: bv8)
    ensures x == y <==> forall i | 0 <= i < 8 :: Bit(x, i) == Bit(y, i)
  {
    if forall i | 0 <= i < 8 :: Bit(x, i) == Bit(y, i) {
      assert Bit(x, 0) == Bit(y, 0) && Bit(x, 1) == Bit(y, 1) && Bit(x, 2) == Bit(y, 2) && Bit(x, 3) == Bit(y, 3);
      assert Bit(x, 4) == Bit(y, 4) && Bit(x, 5) == Bit(y, 5) && Bit(x, 6) == Bit(y, 6) && Bit(x, 7) == Bit(y, 7);
    }
  }

  /** A mask keeps the first bits and clears the others. */
  lemma MaskedBit(x: bv8, s: nat, i: nat)
    requires s <= 8 && i < 8
    ensures Bit(x & Mask(s), i) <==> i < s && Bit(x, i)
  {
  }

  lemma XorMask(m: bv8, x: bv8, y: bv8)
    ensures m & (x ^ y) == 0 <==> x & m == y & m
  {
  }

  /** The masked difference of two bytes is zero exactly when their first bits agree. */
  lemma SameBits(x: bv8, y: bv8, s: nat)
    requires s <= 8
    ensures Mask(s) & (x ^ y) == 0 <==> forall i | 0 <= i < s :: Bit(x, i) == Bit(y, i)
  {
    hide Bit, Mask;
    var xm := MaskedBits(x, s);
    var ym := MaskedBits(y, s);
    SameUnder(x, y, xm, ym, s);
    XorMask(Mask(s), x, y);
  }

  lemma MaskedBits(x: bv8, s: nat) returns (xm: bv8)
    requires s <= 8
    ensures xm == x & Mask(s) && forall i | 0 <= i < 8 :: Bit(xm, i) <==> i < s && Bit(x, i)
  {
    xm := x & Mask(s);
    forall i | 0 <= i < 8
      ensures Bit(xm, i) <==> i < s && Bit(x, i)
    {
      MaskedBit(x, s, i);
    }
  }

  lemma SameUnder(x: bv8, y: bv8, xm: bv8, ym: bv8, s: nat)
    requires s <= 8 && forall i | 0 <= i < 8 :: Bit(xm, i) <==> i < s && Bit(x, i)
    requires forall i | 0 <= i < 8 :: Bit(ym, i) <==> i < s && Bit(y, i)
    ensures xm == ym <==> forall i | 0 <= i < s :: Bit(x, i) == Bit(y, i)
  {
    hide Bit;
    SameByte(xm, ym);
    if xm == ym {
      forall i | 0 <= i < s
        ensures Bit(x, i) == Bit(y, i)
      {
        assert Bit(xm, i) == Bit(ym, i);
      }
    }
  }

  // ---- matching ----

  /** Whole bytes agree exactly when they are equal. */
  lemma AgreeBytes(a: seq<bv8>, b: seq<bv8>, n: nat)
    requires n <= |a| && n <= |b|
    ensures Agree(a, b, 8 * n) <==> forall j | 0 <= j < n :: a[j] == b[j]
  {
    if Agree(a, b, 8 * n) {
      forall j | 0 <= j < n
        ensures a[j] == b[j]
      {
        forall i | 0 <= i < 8
          ensures Bit(a[j], i) == Bit(b[j], i)
        {
          assert BitAt(a, 8 * j + i) == BitAt(b, 8 * j + i);
          assert (8 * j + i) / 8 == j && (8 * j + i) % 8 == i;
        }
        SameByte(a[j], b[j]);
      }
    }
  }

  /** The first `n` bits agree when the whole bytes and the rest of the next do. */
  lemma AgreeSplit(a: seq<bv8>, b: seq<bv8>, n: nat)
    requires n <= 8 * |a| && n <= 8 * |b|
    ensures var o, s := n / 8, n % 8;
            Agree(a, b, n) <==> Agree(a, b, 8 * o) && (s > 0 ==> forall i | 0 <= i < s :: Bit(a[o], i) == Bit(b[o], i))
  {
    var o, s := n / 8, n % 8;
    if Agree(a, b, n) && s > 0 {
      forall i | 0 <= i < s
        ensures Bit(a[o], i) == Bit(b[o], i)
      {
        assert BitAt(a, 8 * o + i) == BitAt(b, 8 * o + i);
        assert (8 * o + i) / 8 == o && (8 * o + i) % 8 == i;
      }
    }
    if Agree(a, b, 8 * o) && (s > 0 ==> forall i | 0 <= i < s :: Bit(a[o], i) == Bit(b[o], i)) {
      forall k | 0 <= k < n
        ensures BitAt(a, k) == BitAt(b, k)
      {
        if k >= 8 * o {
          assert k / 8 == o && k % 8 < s;
        }
      }
    }
  }

  /** The comparison both `PrefixMatch` and `PrefixCmp` make: the byte the length ends
      in under a mask, then the whole bytes from the last to the first. */
  method SameNetwork(a: seq<bv8>, b: seq<bv8>, len: nat) returns (r: bool)
    requires len <= 8 * |a| && len <= 8 * |b|
    ensures r <==> Agree(a, b, len)
  {
    var offset, shift := len / 8, len % 8;
    AgreeSplit(a, b, len);
    AgreeBytes(a, b, offset);
    if shift != 0 {
      SameBits(a[offset], b[offset], shift);
      if Mask(shift) & (a[offset] ^ b[offset]) != 0 {
        return false;
      }
    }
    hide Agree, Bit;
    var o := offset;
    while o > 0
      invariant 0 <= o <= offset && forall j | o <= j < offset :: a[j] == b[j]
    {
      o := o - 1;
      if a[o] != b[o] {
        return false;
      }
    }
    r := true;
  }

  /** `n` contains `p`: it is no longer, and `p` begins with its bits. */
  ghost predicate Contains(n: Prefix, p: Prefix)
    requires n.Valid() && p.Valid()
  {
    n.len <= p.len && Agree(n.bytes, p.bytes, n.len)
  }

  /** Families are not compared: prefixes of different families match by their bits. */
  method PrefixMatch(n: Prefix, p: Prefix) returns (r: bool)
    requires n.Valid() && p.Valid()
    ensures r <==> Contains(n, p)
  {
    if n.len > p.len {
      return false;
    }
    r := SameNetwork(n.bytes, p.bytes, n.len);
  }

  /** 10.0.0.0/8 is found to contain a00::/16. */
  method FamiliesMix() returns (n: Prefix, p: Prefix, r: bool)
    ensures n == Prefix(Inet, 8, [10, 0, 0, 0]) && p == Prefix(Inet6, 16, [10] + seq(15, _ => 0))
    ensures n.Valid() && p.Valid() && n.family != p.family && Contains(n, p) && r
  {
    n, p := Prefix(Inet, 8, [10, 0, 0, 0]), Prefix(Inet6, 16, [10] + seq(15, _ => 0));
    AgreeBytes(n.bytes, p.bytes, 1);
    r := PrefixMatch(n, p);
  }

  /** Containment is transitive. */
  lemma ContainsTransitive(a: Prefix, b: Prefix, c: Prefix)
    requires a.Valid() && b.Valid() && c.Valid()
    requires Contains(a, b) && Contains(b, c)
    ensures Contains(a, c)
  {
  }

  /** Zero exactly when each prefix contains the other. */
  method PrefixCmp(p: Prefix, q: Prefix) returns (r: int)
    requires p.Valid() && q.Valid()
    ensures r == 0 || r == 1
    ensures r == 0 <==> p.family == q.family && Contains(p, q) && Contains(q, p)
  {
    if p.family != q.family {
      return 1;
    }
    if p.len != q.len {
      return 1;
    }
    var same := SameNetwork(p.bytes, q.bytes, p.len);
    r := if same then 0 else 1;
  }

  /** The number of leading bits two addresses share, whatever the prefix lengths. */
  method PrefixCommonBits(p: Prefix, q: Prefix) returns (r: int)
    requires p.Valid() && q.Valid()
    ensures p.family != q.family ==> r == -1
    ensures p.family == q.family ==> 0 <= r <= 8 * |p.bytes| && Agree(p.bytes, q.bytes, r)
    ensures p.family == q.family && r < 8 * |p.bytes| ==> BitAt(p.bytes, r) != BitAt(q.bytes, r)
  {
    var length := p.family.Bytes();
    if p.family != q.family {
      return -1;
    }
    var pos := 0;
    while pos < length && p.bytes[pos] == q.bytes[pos]
      invariant pos <= length && forall j | 0 <= j < pos :: p.bytes[j] == q.bytes[j]
    {
      pos := pos + 1;
    }
    AgreeBytes(p.bytes, q.bytes, pos);
    if pos == length {
      return pos * 8;
    }
    var bit := FirstDifference(p.bytes[pos], q.bytes[pos]);
    r := pos * 8 + bit;
    assert r / 8 == pos && r % 8 == bit;
    AgreeSplit(p.bytes, q.bytes, r);
  }

  method FirstDifference(x: bv8, y: bv8) returns (bit: nat)
    requires x != y
    ensures bit < 8 && Bit(x, bit) != Bit(y, bit) && forall i | 0 <= i < bit :: Bit(x, i) == Bit(y, i)
  {
    SameByte(x, y);
    bit := 0;
    while bit < 8
      invariant bit <= 8 && forall i | 0 <= i < bit :: Bit(x, i) == Bit(y, i)
    {
      XorBit(x, y, bit);
      if (x ^ y) & TopBit(bit) != 0 {
        return;
      }
      bit := bit + 1;
    }
  }

  lemma XorBit(x: bv8, y: bv8, i: nat)
    requires i < 8
    ensures (x ^ y) & TopBit(i) != 0 <==> Bit(x, i) != Bit(y, i)
  {
  }

  /** Containment read off the number of common bits. */
  lemma ContainsByCommonBits(n: Prefix, p: Prefix, common: nat)
    requires n.Valid() && p.Valid() && n.family == p.family && common <= 8 * |n.bytes| && Agree(n.bytes, p.bytes, common)
    requires common < 8 * |n.bytes| ==> BitAt(n.bytes, common) != BitAt(p.bytes, common)
    ensures Contains(n, p) <==> n.len <= p.len && common >= n.len
  {
  }

  // ---- applying the mask ----

  /** `b` is `a` with all bits from `len` on cleared. */
  ghost predicate Network(a: seq<bv8>, b: seq<bv8>, len: nat) {
    && |b| == |a|
    && forall k | 0 <= k < 8 * |a| :: BitAt(b, k) <==> k < len && BitAt(a, k)
  }

  /** How many bits of byte `j` a mask of length `len` covers. */
  function Covered(len: nat, j: nat): (s: nat)
    ensures s <= 8
  {
    if len <= 8 * j then 0 else if len >= 8 * j + 8 then 8 else len - 8 * j
  }

  /** Masking byte by byte masks the address. */
  lemma NetworkByBytes(a: seq<bv8>, b: seq<bv8>, len: nat)
    requires |b| == |a| && forall j | 0 <= j < |a| :: b[j] == a[j] & Mask(Covered(len, j))
    ensures Network(a, b, len)
  {
    forall k | 0 <= k < 8 * |a|
      ensures BitAt(b, k) <==> k < len && BitAt(a, k)
    {
      MaskedBit(a[k / 8], Covered(len, k / 8), k % 8);
    }
  }

  method ApplyMaskIpv6(a: array<bv8>, len: nat)
    requires a.Length == 16 && len <= 128
    modifies a
    ensures Network(old(a[..]), a[..], len)
  {
    hide Mask, Network, Covered;
    var index := len / 8;
    ghost var was := a[..];
    if index < 16 {
      var offset := len % 8;
      a[index] := a[index] & Mask(offset);
      ZeroFrom(a, index + 1);
    }
    NetworkCleared(was, a[..], len);
  }

  /** The bytes before the one the length ends in are kept, that one is masked, and
      the ones after it are zero. */
  lemma NetworkCleared(a: seq<bv8>, b: seq<bv8>, len: nat)
    requires |b| == |a|
    requires forall j | 0 <= j < |a| :: b[j] == if j < len / 8 then a[j] else if j == len / 8 then a[j] & Mask(len % 8) else 0
    ensures Network(a, b, len)
  {
    hide Mask, Network, Covered;
    forall j | 0 <= j < |a|
      ensures b[j] == a[j] & Mask(Covered(len, j))
    {
      ByteCleared(len, j, a[j], b[j]);
    }
    NetworkByBytes(a, b, len);
  }

  method ZeroFrom(a: array<bv8>, from: nat)
    requires from <= a.Length
    modifies a
    ensures forall j | 0 <= j < a.Length :: a[j] == if j < from then old(a[j]) else 0
  {
    var index := from;
    while index < a.Length
      invariant from <= index <= a.Length
      invariant forall j | 0 <= j < a.Length && !(from <= j < index) :: a[j] == old(a[j])
      invariant forall j | from <= j < index :: a[j] == 0
    {
      a[index] := 0;
      index := index + 1;
    }
  }

  lemma ByteCleared(len: nat, j: nat, x: bv8, y: bv8)
    requires if j < len / 8 then y == x else if j == len / 8 then y == x & Mask(len % 8) else y == 0
    ensures y == x & Mask(Covered(len, j))
  {
    hide Mask;
    MaskEnds(x);
  }

  lemma MaskEnds(x: bv8)
    ensures x & Mask(0) == 0 && x & Mask(8) == x
  {
  }

  lemma {:induction false} Pow2Sum(a: nat, b: nat)
    ensures Pow2(a + b) == Pow2(a) * Pow2(b)
  {
    if a > 0 {
      Pow2Sum(a - 1, b);
    }
  }

  /** The netmask as a number: thirty-two ones shifted left, cut to 32 bits. */
  function MaskWord(len: nat): nat
    requires len <= 32
  {
    0xffff_ffff * Pow2(32 - len) % 0x1_0000_0000
  }

  /** Byte `j` of a word in network order. */
  function WordByte(w: nat, j: nat): (b: nat)
    requires j < 4
    ensures b < 256
  {
    match j
    case 0 => w / 0x100_0000 % 256
    case 1 => w / 0x1_0000 % 256
    case 2 => w / 0x100 % 256
    case _ => w % 256
  }

  /** The value of the first `s` bits of a byte. */
  function Ones(s: nat): nat
    requires s <= 8
  {
    match s
    case 0 => 0 case 1 => 128 case 2 => 192 case 3 => 224 case 4 => 240
    case 5 => 248 case 6 => 252 case 7 => 254 case _ => 255
  }

  lemma OnesByPow2(s: nat)
    requires s <= 8
    ensures Ones(s) + Pow2(8 - s) == 256
  {
    assert Pow2(0) == 1 && Pow2(1) == 2 && Pow2(2) == 4 && Pow2(3) == 8 && Pow2(4) == 16;
    assert Pow2(5) == 32 && Pow2(6) == 64 && Pow2(7) == 128 && Pow2(8) == 256;
  }

  /** The shifted word is a power of two short of the next one. */
  lemma MaskWordValue(len: nat)
    requires len <= 32
    ensures MaskWord(len) == 0x1_0000_0000 - Pow2(32 - len)
  {
    hide Pow2;
    Pow2Sum(32 - len, len);
    Pow2Small();
    AtMost(Pow2(32 - len), Pow2(len));
    ShiftedOnes(Pow2(32 - len));
  }

  lemma AtMost(p: nat, q: nat)
    requires q >= 1
    ensures p <= p * q
  {
  }

  lemma ShiftedOnes(p: nat)
    requires 1 <= p <= 0x1_0000_0000
    ensures 0xffff_ffff * p % 0x1_0000_0000 == 0x1_0000_0000 - p
  {
    assert 0xffff_ffff * p == (p - 1) * 0x1_0000_0000 + (0x1_0000_0000 - p);
  }

  lemma Pow2Small()
    ensures Pow2(8) == 0x100 && Pow2(16) == 0x1_0000 && Pow2(24) == 0x100_0000 && Pow2(32) == 0x1_0000_0000
  {
    assert Pow2(4) == 16;
    Pow2Sum(4, 4);
    Pow2Sum(8, 8);
    Pow2Sum(8, 16);
    Pow2Sum(16, 16);
  }

  /** The netmask of a length, in network order. */
  method Masklen2ip(len: nat) returns (mask: seq<bv8>)
    requires len <= 32
    ensures |mask| == 4 && forall j | 0 <= j < 4 :: mask[j] == Mask(Covered(len, j))
  {
    hide Mask;
    var w := MaskWord(len);
    MaskBytes(len);
    mask := [ByteOf(WordByte(w, 0)), ByteOf(WordByte(w, 1)), ByteOf(WordByte(w, 2)), ByteOf(WordByte(w, 3))];
  }

  function ByteOf(n: nat): bv8
    requires n < 256
  {
    n as bv8
  }

  lemma OnesMask(s: nat)
    requires s <= 8
    ensures ByteOf(Ones(s)) == Mask(s)
  {
  }

  lemma MaskBytes(len: nat)
    requires len <= 32
    ensures forall j | 0 <= j < 4 :: ByteOf(WordByte(MaskWord(len), j)) == Mask(Covered(len, j))
  {
    hide Mask, MaskWord, ByteOf;
    forall j | 0 <= j < 4
      ensures ByteOf(WordByte(MaskWord(len), j)) == Mask(Covered(len, j))
    {
      MaskByte(len, j);
      OnesMask(Covered(len, j));
    }
  }

  lemma MaskByte(len: nat, j: nat)
    requires len <= 32 && j < 4
    ensures WordByte(MaskWord(len), j) == Ones(Covered(len, j))
  {
    hide MaskWord, WordByte, Pow2;
    MaskWordValue(len);
    Pow2Small();
    var g := if len < 32 then len / 8 else 3;
    var s := len - 8 * g;
    OnesByPow2(s);
    if g < 3 {
      Pow2Sum(8 - s, 24 - 8 * g);
    }
    OnesPositive(s);
    GroupByte(Pow2(8 - s), g, j);
  }

  lemma OnesPositive(s: nat)
    requires s <= 8
    ensures Ones(s) < 256
  {
  }

  /** A word with `g` bytes of ones, then a byte `p` short of 256, then zeros. */
  lemma GroupByte(p: nat, g: nat, j: nat)
    requires 1 <= p <= 256 && g < 4 && j < 4
    ensures WordByte(0x1_0000_0000 - p * Unit(g), j) == if j < g then 255 else if j == g then 256 - p else 0
  {
    hide WordByte;
    var q := 256 - p;
    match g
    case 0 => Digits(q, 0, 0, 0, j);
    case 1 => Digits(255, q, 0, 0, j);
    case 2 => Digits(255, 255, q, 0, j);
    case 3 => Digits(255, 255, 255, q, j);
  }

  /** The bytes of a word given by its bytes. */
  lemma Digits(a: nat, b: nat, c: nat, d: nat, j: nat)
    requires a < 256 && b < 256 && c < 256 && d < 256 && j < 4
    ensures WordByte(a * 0x100_0000 + b * 0x1_0000 + c * 0x100 + d, j) == [a, b, c, d][j]
  {
    var w := a * 0x100_0000 + b * 0x1_0000 + c * 0x100 + d;
    assert w / 0x100 == a * 0x1_0000 + b * 0x100 + c;
    assert w / 0x1_0000 == a * 0x100 + b;
    assert w / 0x100_0000 == a;
  }

  function Unit(g: nat): nat {
    match g
    case 0 => 0x100_0000 case 1 => 0x1_0000 case 2 => 0x100 case _ => 1
  }

  method ApplyMaskIpv4(a: array<bv8>, len: nat)
    requires a.Length == 4 && len <= 32
    modifies a
    ensures Network(old(a[..]), a[..], len)
  {
    hide Mask, Network;
    ghost var was := a[..];
    var mask := Masklen2ip(len);
    for i := 0 to 4
      invariant forall j | 0 <= j < 4 :: a[j] == if j < i then was[j] & mask[j] else was[j]
    {
      a[i] := a[i] & mask[i];
    }
    NetworkByBytes(was, a[..], len);
  }

  /** Masking either prefix does not change what contains what. */
  lemma MaskedContains(n: Prefix, p: Prefix, nm: seq<bv8>, pm: seq<bv8>)
    requires n.Valid() && p.Valid() && Network(n.bytes, nm, n.len) && Network(p.bytes, pm, p.len)
    ensures Contains(n.(bytes := nm), p) <==> Contains(n, p)
    ensures Contains(n, p.(bytes := pm)) <==> Contains(n, p)
  {
    hide BitAt;
    forall k | 0 <= k < n.len
      ensures BitAt(nm, k) == BitAt(n.bytes, k)
    {
    }
    if n.len <= p.len {
      forall k | 0 <= k < n.len
        ensures BitAt(pm, k) == BitAt(p.bytes, k)
      {
      }
    }
  }
}
