/** Building netlink messages and nested attributes in place. */
module NetlinkBuild {
  import opened Wrappers
  import opened Bytes
  import opened Netlink

  /** Copies `data` into the buffer at `at`. */
  method CopyTo(buf: array<byte>, at: nat, data: seq<byte>)
    requires at + |data| <= buf.Length
    modifies buf
    ensures buf[..] == old(buf[..at]) + data + old(buf[at + |data|..])
  {
    for i := 0 to |data|
      invariant buf[..] == old(buf[..at]) + data[..i] + old(buf[at + i..])
    {
      buf[at + i] := data[i];
    }
    assert data[..|data|] == data;
  }

  /** Writes an attribute at `at`; its padding keeps what the buffer held. */
  method WriteAttr(buf: array<byte>, at: nat, kind: nat, data: seq<byte>) returns (ghost attr: seq<byte>)
    requires at + Align(HEADER + |data|) <= buf.Length
    modifies buf
    ensures |attr| == Align(HEADER + |data|) && Encode(kind, data) <= attr
    ensures buf[..] == old(buf[..at]) + attr + old(buf[at + Align(HEADER + |data|)..])
  {
    hide Align, Encode;
    CopyTo(buf, at, Encode(kind, data));
    attr := buf[at..at + Align(HEADER + |data|)];
  }

  /** Where the next attribute goes. */
  lemma TailPlace(len: nat, start: nat)
    requires start % 4 == 0 && if start <= len then len % 4 == 0 else start == Align(len)
    ensures start <= Align(len) && (start <= len ==> Align(len) == len) && (len < start ==> Align(len) == start)
  {
  }

  lemma SliceAppend(b: seq<byte>, start: nat, tail: nat, more: seq<byte>, rest: seq<byte>)
    requires start <= tail <= |b|
    ensures (b[..tail] + more + rest)[start..tail + |more|] == b[start..tail] + more
  {
  }

  /** A message being built: `len` is the length its header records, and attributes
      begin at `start`. */
  class Message {
    const buf: array<byte>
    const start: nat
    var len: nat

    /** Once attributes follow, the message is padded; before, it may end short of
        where they begin. */
    ghost predicate Valid()
      reads this, buf
    {
      len <= buf.Length && start % 4 == 0 && if start <= len then len % 4 == 0 else start == Align(len)
    }

    /** A message of `head` bytes, all zero, with room up to `size`. */
    constructor (size: nat, head: nat)
      requires head <= size
      ensures Valid() && fresh(buf) && buf.Length == size && len == head && start == Align(head) && Region() == []
    {
      buf := new byte[size](_ => 0);
      start := Align(head);
      len := head;
    }

    /** The bytes of the attributes added so far. */
    ghost function Region(): seq<byte>
      reads this, buf
      requires Valid()
    {
      if start <= len then buf[start..len] else []
    }

    method Attributes() returns (b: seq<byte>)
      requires Valid()
      ensures b == Region()
    {
      b := if start <= len then buf[start..len] else [];
    }

    /** Adds an attribute after padding the message.  One that does not fit within
        `maxlen` changes nothing; one that fits is read back after the ones before,
        if and only if its length fits the length field. */
    method AddattrL(maxlen: nat, kind: nat, data: seq<byte>) returns (ok: bool)
      requires Valid() && maxlen <= buf.Length
      modifies this`len, buf
      ensures Valid() && (ok <==> Align(old(len)) + Align(HEADER + |data|) <= maxlen)
      ensures !ok ==> len == old(len) && buf[..] == old(buf[..])
      ensures ok ==> start <= len == Align(old(len)) + Align(HEADER + |data|) && buf[..start] == old(buf[..start])
      ensures ok && Whole(old(Region())) ==>
                && (HEADER + |data| < LIMIT <==> Walk(Region()) == Walk(old(Region())) + [Attr(kind % LIMIT, data)])
                && (HEADER + |data| < LIMIT ==> Whole(Region()))
    {
      hide Walk, Deficit, Align, Encode, Put16;
      var tail := Align(len);
      var room := Align(HEADER + |data|);
      if tail + room > maxlen {
        return false;
      }
      ghost var before, b := Region(), buf[..];
      TailPlace(len, start);
      assert before == b[start..tail];
      ghost var attr := WriteAttr(buf, tail, kind, data);
      SliceAppend(b, start, tail, attr, b[tail + room..]);
      len := tail + room;
      assert Region() == buf[..][start..len] == before + attr;
      if Whole(before) {
        AddedAttr(before, kind, data, attr);
      }
      ok := true;
    }

    /** Adds bytes as they are, padded with zeros.  Whole attributes are read back
        after the ones before. */
    method AddrawL(maxlen: nat, data: seq<byte>) returns (ok: bool)
      requires Valid() && maxlen <= buf.Length
      modifies this`len, buf
      ensures Valid() && (ok <==> Align(old(len)) + Align(|data|) <= maxlen)
      ensures !ok ==> len == old(len) && buf[..] == old(buf[..])
      ensures ok ==> start <= len == Align(old(len)) + Align(|data|)
      ensures ok ==> Region() == old(Region()) + Padded(data)
      ensures ok && Whole(old(Region())) && Whole(data) ==>
                Walk(Region()) == Walk(old(Region())) + Walk(data) && Whole(Region())
    {
      hide Walk, Deficit, Align, Padded;
      if Align(len) + Align(|data|) > maxlen {
        return false;
      }
      ghost var before := Region();
      Extend(Padded(data));
      RawWhole(before, data);
      ok := true;
    }

    /** Puts bytes after the padded message. */
    method Extend(more: seq<byte>)
      requires Valid() && |more| % 4 == 0 && Align(len) + |more| <= buf.Length
      modifies this`len, buf
      ensures Valid() && start <= len == Align(old(len)) + |more| && Region() == old(Region()) + more
    {
      hide Align;
      ghost var before, b, tail := Region(), buf[..], Align(len);
      TailPlace(len, start);
      assert before == b[start..tail];
      CopyTo(buf, Align(len), more);
      SliceAppend(b, start, tail, more, b[tail + |more|..]);
      len := Align(len) + |more|;
      assert Region() == buf[..][start..len];
    }
  }

  /** An attribute of 65532 bytes is accepted by an empty message and does not read
      back. */
  method LengthCut() returns (m: Message, ok: bool)
    ensures m.Valid() && ok && m.len == 65552 && Walk(m.Region()) != [Attr(1, seq(65532, _ => 0))]
  {
    hide Walk, Deficit;
    m := new Message(65552, 16);
    var data: seq<byte> := seq(65532, _ => 0);
    EmptyWhole();
    ok := m.AddattrL(65552, 1, data);
  }

  lemma EmptyWhole()
    ensures Whole([]) && Walk([]) == []
  {
  }

  /** The bytes with zeros up to a multiple of four. */
  function Padded(data: seq<byte>): (b: seq<byte>)
    ensures |b| == Align(|data|) && data <= b && forall k | |data| <= k < |b| :: b[k] == 0
  {
    data + seq(Align(|data|) - |data|, _ => 0)
  }

  lemma RawWhole(before: seq<byte>, data: seq<byte>)
    ensures Whole(before) && Whole(data) ==>
              Walk(before + Padded(data)) == Walk(before) + Walk(data) && Whole(before + Padded(data))
  {
    hide Walk, Deficit;
    if Whole(before) && Whole(data) {
      WalkConcat(data, []);
      AlignAligned(|data|);
      assert Padded(data) == data;
      WalkConcat(before, data);
    }
  }

  /** The payload after an attribute was written at `tail` and the length set. */
  lemma GrownPayload(was: seq<byte>, b: seq<byte>, now: seq<byte>, tail: nat, attr: seq<byte>)
    requires HEADER <= tail && tail + |attr| <= |was| && b == was[..tail] + attr + was[tail + |attr|..]
    requires |now| == |b| && now[2..] == b[2..]
    ensures now[HEADER..tail + |attr|] == was[HEADER..tail] + attr
  {
    var n := tail + |attr|;
    forall k | HEADER <= k < n
      ensures now[k] == b[k]
    {
      assert now[2..][k - 2] == b[2..][k - 2];
    }
    assert now[HEADER..n] == b[HEADER..n];
  }

  /** Sets the nest bit of a type. */
  function SetNested(kind: nat): nat {
    kind % NESTED + NESTED
  }

  /** An attribute being built in a buffer of its own: its header is at the front. */
  class RtaBuffer {
    const buf: array<byte>

    /** An attribute without payload in a new buffer. */
    constructor (size: nat, kind: nat)
      requires HEADER <= size
      ensures fresh(buf) && buf.Length == size && Valid() && Len() == HEADER && Payload() == []
      ensures forall k | HEADER <= k < size :: buf[k] == 0
    {
      buf := new byte[size](_ => 0);
      new;
      hide Put16, Get16;
      var head := Put16(HEADER) + Put16(kind);
      CopyTo(buf, 0, head);
      Field16(HEADER, []);
      assert buf[..2] == Put16(HEADER) == Put16(HEADER) + [];
      forall k | HEADER <= k < size
        ensures buf[k] == 0
      {
        assert buf[..][k] == 0;
      }
    }

    ghost predicate Valid()
      reads this, buf
    {
      buf.Length >= HEADER && HEADER <= Len() && Align(Len()) <= buf.Length
    }

    /** The recorded length. */
    function Len(): nat
      reads this, buf
      requires buf.Length >= HEADER
    {
      Get16(buf[..2])
    }

    /** The payload up to where the next attribute goes. */
    ghost function Payload(): seq<byte>
      reads this, buf
      requires Valid()
    {
      buf[HEADER..Align(Len())]
    }

    method SetLen(n: nat)
      requires buf.Length >= HEADER
      modifies buf
      ensures Len() == n % LIMIT && buf[2..] == old(buf[2..])
    {
      hide Put16, Get16;
      CopyTo(buf, 0, Put16(n));
      Field16(n, []);
      assert buf[..2] == Put16(n) == Put16(n) + [];
    }

    /** Adds an attribute to the payload.  One that does not fit within `maxlen`
        changes nothing; the recorded length is cut to sixteen bits. */
    method RtaAddattrL(maxlen: nat, kind: nat, data: seq<byte>) returns (ok: bool, ghost attr: seq<byte>)
      requires Valid() && maxlen <= buf.Length
      modifies buf
      ensures ok <==> Align(old(Len())) + Align(HEADER + |data|) <= maxlen
      ensures !ok ==> buf[..] == old(buf[..])
      ensures ok ==> |attr| == Align(HEADER + |data|) && Encode(kind, data) <= attr
      ensures ok ==> Len() == (Align(old(Len())) + |attr|) % LIMIT
      ensures ok && Align(old(Len())) + |attr| < LIMIT ==> Valid() && Payload() == old(Payload()) + attr
    {
      hide Align, Encode, Put16, Get16;
      attr := [];
      var tail := Align(Len());
      var room := Align(HEADER + |data|);
      if tail + room > maxlen {
        return false, attr;
      }
      ghost var was := buf[..];
      attr := WriteAttr(buf, tail, kind, data);
      ghost var b := buf[..];
      assert b == was[..tail] + attr + was[tail + room..];
      SetLen(tail + room);
      GrownPayload(was, b, buf[..], tail, attr);
      AlignAligned(tail + room);
      ok := true;
    }

    /** Opens a nested attribute at the end of the payload.  The nest bit is set there
        even when the attribute does not fit. */
    method RtaNest(maxlen: nat, kind: nat) returns (nest: nat)
      requires Valid() && maxlen <= buf.Length && Align(Len()) + HEADER <= buf.Length && maxlen < LIMIT
      modifies buf
      ensures Valid() && nest == Align(old(Len()))
      ensures nest + HEADER <= maxlen ==>
                Len() == nest + HEADER && Payload() == old(Payload()) + Put16(HEADER) + Put16(SetNested(kind % LIMIT))
      ensures nest + HEADER > maxlen ==>
                && Len() == old(Len()) && Payload() == old(Payload())
                && buf[..] == old(buf[..nest + 2]) + Put16(SetNested(old(Get16(buf[nest + 2..])))) + old(buf[nest + HEADER..])
                && (buf[..] == old(buf[..]) <==> old(Get16(buf[nest + 2..])) >= NESTED)
    {
      hide Align, Encode, Put16, Get16;
      nest := Align(Len());
      ghost var before := Payload();
      var ok, attr := RtaAddattrL(maxlen, kind, []);
      Header(kind, attr, ok);
      AlignAligned(HEADER);
      AlignAligned(nest + HEADER);
      ghost var b := buf[..];
      if ok {
        assert Payload() == b[HEADER..nest + HEADER];
        TypeAt(b, nest, kind, before);
      }
      Flag(nest);
      if ok {
        NestBytes(b, buf[..], nest, kind, before);
        assert Payload() == buf[..][HEADER..nest + HEADER];
      } else {
        Flagged(b, nest + 2);
        assert Payload() == buf[..][HEADER..nest] == b[HEADER..nest];
      }
    }

    /** Sets the nest bit of the type of the attribute at `nest`. */
    method Flag(nest: nat)
      requires HEADER <= nest && nest + HEADER <= buf.Length
      modifies buf
      ensures buf[..] == old(buf[..nest + 2]) + Put16(SetNested(old(Get16(buf[nest + 2..])))) + old(buf[nest + HEADER..])
      ensures Len() == old(Len())
    {
      hide Put16, Get16;
      ghost var b := buf[..];
      CopyTo(buf, nest + 2, Put16(SetNested(Get16(buf[nest + 2..]))));
      assert buf[..2] == buf[..][..2] == b[..2];
    }

    /** Closes a nested attribute: it reaches to the end of the payload. */
    method RtaNestEnd(nest: nat) returns (len: nat)
      requires Valid() && HEADER <= nest && nest + HEADER <= Align(Len())
      modifies buf
      ensures Valid() && len == Len() == old(Len())
      ensures Payload() == old(Payload())[..nest - HEADER] + Put16(Align(Len()) - nest) + old(Payload())[nest - HEADER + 2..]
    {
      hide Align, Put16, Get16;
      ghost var b, n := buf[..], Align(Len());
      ghost var before := Payload();
      CopyTo(buf, nest, Put16(Align(Len()) - nest));
      assert buf[..2] == b[..2];
      assert buf[HEADER..n] == b[HEADER..nest] + Put16(n - nest) + b[nest + 2..n];
      assert b[HEADER..nest] == before[..nest - HEADER] && b[nest + 2..n] == before[nest - HEADER + 2..];
      len := Len();
    }
  }

  /** Setting the nest bit changes the bytes exactly when it was not set. */
  lemma Flagged(b: seq<byte>, at: nat)
    requires at + 2 <= |b|
    ensures b[..at] + Put16(SetNested(Get16(b[at..]))) + b[at + 2..] == b <==> Get16(b[at..]) >= NESTED
  {
    hide Put16, Get16;
    var t := Get16(b[at..]);
    var r := b[..at] + Put16(SetNested(t)) + b[at + 2..];
    Field16(SetNested(t), b[at + 2..]);
    assert r[at..] == Put16(SetNested(t)) + b[at + 2..];
    if t >= NESTED {
      Unread(b[at..]);
      assert SetNested(t) == t && b == b[..at] + b[at..];
      assert b[at..] == Put16(t) + b[at + 2..];
    }
  }

  lemma Unread(b: seq<byte>)
    requires |b| >= 2
    ensures Put16(Get16(b)) == b[..2] && b == Put16(Get16(b)) + b[2..]
  {
  }

  /** A refused nest changes the buffer: past the bound the flag of a type is set. */
  method RefusedNest() returns (before: seq<byte>, after: seq<byte>, nest: nat, maxlen: nat)
    ensures nest + HEADER > maxlen && before != after
  {
    hide Put16, Get16, Align;
    var r := new RtaBuffer(8, 1);
    AlignAligned(HEADER);
    Zeros(r.buf[..]);
    before, maxlen := r.buf[..], HEADER;
    nest := r.RtaNest(maxlen, 2);
    after := r.buf[..];
  }

  lemma Zeros(b: seq<byte>)
    requires |b| == 8 && b[6] == 0 && b[7] == 0
    ensures Get16(b[6..]) == 0
  {
  }

  lemma Header(kind: nat, attr: seq<byte>, ok: bool)
    requires ok ==> |attr| == Align(HEADER) && Encode(kind, []) <= attr
    ensures ok ==> attr == Put16(HEADER) + Put16(kind)
  {
  }

  lemma TypeAt(b: seq<byte>, nest: nat, kind: nat, before: seq<byte>)
    requires HEADER <= nest && nest + HEADER <= |b| && b[HEADER..nest + HEADER] == before + (Put16(HEADER) + Put16(kind))
    ensures Get16(b[nest + 2..]) == kind % LIMIT && b[HEADER..nest + 2] == before + Put16(HEADER)
  {
    hide Put16, Get16;
    var all := b[HEADER..nest + HEADER];
    assert b[HEADER..nest + 2] == all[..nest - 2];
    assert b[nest + 2..] == all[nest - 2..] + b[nest + HEADER..] == Put16(kind) + b[nest + HEADER..];
    Field16(kind, b[nest + HEADER..]);
  }

  lemma NestBytes(b: seq<byte>, b': seq<byte>, nest: nat, kind: nat, before: seq<byte>)
    requires HEADER <= nest && nest + HEADER <= |b| && b[HEADER..nest + 2] == before + Put16(HEADER)
    requires b' == b[..nest + 2] + Put16(SetNested(kind % LIMIT)) + b[nest + 4..]
    ensures b'[HEADER..nest + HEADER] == before + Put16(HEADER) + Put16(SetNested(kind % LIMIT))
  {
    hide Put16;
    assert b'[HEADER..nest + 2] == b[HEADER..nest + 2];
    assert b'[nest + 2..nest + 4] == Put16(SetNested(kind % LIMIT));
    assert b'[HEADER..nest + HEADER] == b'[HEADER..nest + 2] + b'[nest + 2..nest + 4];
  }

  lemma AlignAligned(n: nat)
    requires n % 4 == 0
    ensures Align(n) == n
  {
  }

  lemma AddedAttr(b: seq<byte>, kind: nat, data: seq<byte>, attr: seq<byte>)
    requires Whole(b) && |attr| == Align(HEADER + |data|) && Encode(kind, data) <= attr
    ensures HEADER + |data| < LIMIT <==> Walk(b + attr) == Walk(b) + [Attr(kind % LIMIT, data)]
    ensures HEADER + |data| < LIMIT ==> Whole(b + attr)
  {
    hide Walk, Deficit, Align, Encode;
    var pad := attr[HEADER + |data|..];
    assert attr == Encode(kind, data) + pad;
    AddedExact(b, kind, data, pad);
  }

  lemma ClosedEncoded(before: seq<byte>, t: nat, payload: seq<byte>)
    ensures var all := before + Put16(HEADER) + Put16(t) + payload;
            && all[..|before|] + Put16(HEADER + |payload|) + all[|before| + 2..] == before + (Encode(t, payload) + [])
            && |Encode(t, payload) + []| == HEADER + |payload|
  {
    hide Put16, Get16, Encode;
    ClosedBytes(before, Put16(HEADER), Put16(t), payload, Put16(HEADER + |payload|));
    EncodeBytes(t, payload);
    assert Encode(t, payload) + [] == Encode(t, payload);
  }

  lemma WholeAligned(payload: seq<byte>)
    requires Whole(payload)
    ensures Align(HEADER + |payload|) == HEADER + |payload|
  {
    WalkConcat(payload, []);
    hide Walk, Deficit;
  }

  lemma EncodeBytes(t: nat, payload: seq<byte>)
    ensures Encode(t, payload) == Put16(HEADER + |payload|) + (Put16(t) + payload)
  {
  }

  lemma ClosedBytes(before: seq<byte>, h: seq<byte>, t: seq<byte>, payload: seq<byte>, n: seq<byte>)
    requires |h| == 2
    ensures var all := before + h + t + payload;
            all[..|before|] + n + all[|before| + 2..] == before + (n + (t + payload))
  {
    var all := before + h + t + payload;
    assert all[..|before|] == before;
    assert all[|before| + 2..] == t + payload;
  }
}
