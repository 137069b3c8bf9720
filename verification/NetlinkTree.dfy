/** Attributes nested to any depth: what is built reads back as the tree it was built
    from. */
module NetlinkTree {
  import opened Wrappers
  import opened Bytes
  import opened Netlink
  import opened NetlinkParse
  import opened NetlinkBuild

  /** An attribute with plain payload, or one whose payload is attributes. */
  datatype Tree = Leaf(kind: nat, data: seq<byte>) | Nest(kind: nat, inner: seq<Tree>)

  // ---- reading ----

  /** One more than the longest payload. */
  function Widest(attrs: seq<Attr>): (w: nat)
    ensures forall a | a in attrs :: |a.payload| < w
  {
    if attrs == [] then 0
    else
      var w, a := Widest(attrs[..|attrs| - 1]), attrs[|attrs| - 1];
      assert attrs == attrs[..|attrs| - 1] + [a];
      if w <= |a.payload| then |a.payload| + 1 else w
  }

  /** Reads bytes as attributes, and flagged payloads in turn. */
  function Read(b: seq<byte>): seq<Tree>
    decreases |b|, 3
  {
    WalkBounds(b);
    ReadAll(Walk(b))
  }

  function ReadAll(attrs: seq<Attr>): seq<Tree>
    decreases Widest(attrs), 2, |attrs|
  {
    if attrs == [] then []
    else
      assert attrs[|attrs| - 1] in attrs;
      ReadAll(attrs[..|attrs| - 1]) + [ReadOne(attrs[|attrs| - 1])]
  }

  function ReadOne(a: Attr): Tree
    decreases |a.payload| + 1, 1
  {
    if a.kind >= NESTED then Nest(a.kind - NESTED, Read(a.payload)) else Leaf(a.kind, a.payload)
  }

  lemma {:induction false} WalkBounds(b: seq<byte>)
    ensures Widest(Walk(b)) <= |b|
    decreases |b|
  {
    hide Align, Get16;
    if RtaOk(b) && Align(Get16(b)) <= |b| {
      var rest := b[Align(Get16(b))..];
      WalkBounds(rest);
      WidestConcat([Front(b)], Walk(rest));
      WidestOne(Front(b));
    } else if RtaOk(b) {
      WidestOne(Front(b));
    }
  }

  lemma WidestOne(a: Attr)
    ensures Widest([a]) == |a.payload| + 1
  {
    assert [a][..0] == [];
  }

  lemma {:induction false} WidestConcat(a: seq<Attr>, b: seq<Attr>)
    ensures Widest(a + b) == if Widest(a) < Widest(b) then Widest(b) else Widest(a)
  {
    if b == [] {
      assert a + b == a;
    } else {
      assert (a + b)[..|a + b| - 1] == a + b[..|b| - 1];
      WidestConcat(a, b[..|b| - 1]);
    }
  }

  lemma {:induction false} ReadAllConcat(a: seq<Attr>, b: seq<Attr>)
    ensures ReadAll(a + b) == ReadAll(a) + ReadAll(b)
  {
    if b == [] {
      assert a + b == a;
    } else {
      assert (a + b)[..|a + b| - 1] == a + b[..|b| - 1];
      ReadAllConcat(a, b[..|b| - 1]);
    }
  }

  lemma ReadAllOne(a: Attr)
    ensures ReadAll([a]) == [ReadOne(a)]
  {
    assert [a][..0] == [];
  }

  /** Whole attributes read the same whatever follows. */
  lemma ReadConcat(a: seq<byte>, b: seq<byte>)
    requires Whole(a)
    ensures Read(a + b) == Read(a) + Read(b) && Deficit(a + b) == Deficit(b)
  {
    hide Walk, Deficit, ReadAll;
    WalkConcat(a, b);
    ReadAllConcat(Walk(a), Walk(b));
  }

  lemma ReadAttr(kind: nat, data: seq<byte>, attr: seq<byte>)
    requires kind < LIMIT && HEADER + |data| < LIMIT && |attr| == Align(HEADER + |data|) && Encode(kind, data) <= attr
    ensures Whole(attr) && Read(attr) == [ReadOne(Attr(kind, data))]
  {
    hide Align, Encode, Walk, Deficit, ReadAll, ReadOne;
    var pad := attr[HEADER + |data|..];
    assert attr == Encode(kind, data) + pad;
    WalkOne(kind, data, pad);
    ReadAllOne(Attr(kind, data));
  }

  // ---- building ----

  /** The room a tree takes. */
  function Room(t: Tree): nat
    decreases t, 0
  {
    match t
    case Leaf(_, data) => Align(HEADER + |data|)
    case Nest(_, inner) => HEADER + RoomAll(inner)
  }

  function RoomAll(trees: seq<Tree>): nat
    decreases trees, 1
  {
    if trees == [] then 0 else RoomAll(trees[..|trees| - 1]) + Room(trees[|trees| - 1])
  }

  lemma RoomNext(trees: seq<Tree>, n: nat)
    requires n < |trees|
    ensures RoomAll(trees[..n + 1]) == RoomAll(trees[..n]) + Room(trees[n])
  {
    assert trees[..n + 1][..n] == trees[..n];
  }

  lemma {:induction false} RoomGrows(trees: seq<Tree>, n: nat)
    requires n <= |trees|
    ensures RoomAll(trees[..n]) <= RoomAll(trees)
    decreases |trees| - n
  {
    hide Room;
    if n < |trees| {
      RoomNext(trees, n);
      RoomGrows(trees, n + 1);
    } else {
      assert trees[..n] == trees;
    }
  }

  /** The types leave the nest bit free, and plain payloads fit their length field. */
  ghost predicate Sound(t: Tree)
    decreases t
  {
    match t
    case Leaf(kind, data) => kind < NESTED && HEADER + |data| < LIMIT
    case Nest(kind, inner) => kind < NESTED && forall i | 0 <= i < |inner| :: Sound(inner[i])
  }

  /** Adds one tree to the payload, exactly when it fits. */
  method AddTree(r: RtaBuffer, maxlen: nat, t: Tree) returns (ok: bool, ghost bytes: seq<byte>)
    requires r.Valid() && r.Len() <= maxlen <= r.buf.Length && maxlen < LIMIT && r.Len() % 4 == 0 && Sound(t)
    modifies r.buf
    ensures ok <==> old(r.Len()) + Room(t) <= maxlen
    ensures ok ==> r.Valid() && r.Payload() == old(r.Payload()) + bytes && |bytes| == Room(t) && r.Len() == old(r.Len()) + Room(t)
    ensures ok ==> Whole(bytes) && Read(bytes) == [t]
    decreases t, 0
  {
    hide Align, Encode, Walk, Deficit, Read, Put16, Get16, RoomAll;
    bytes := [];
    AlignAligned(r.Len());
    match t
    case Leaf(kind, data) =>
      AlignSum(r.Len(), HEADER + |data|);
      ok, bytes := r.RtaAddattrL(maxlen, kind, data);
      if ok {
        ReadAttr(kind, data, bytes);
      }
    case Nest(kind, inner) =>
      if Align(r.Len()) + HEADER > maxlen {
        return false, bytes;
      }
      ghost var before := r.Payload();
      var nest := r.RtaNest(maxlen, kind);
      AlignAligned(r.Len());
      ok, bytes := AddTrees(r, maxlen, inner);
      if ok {
        ghost var body := bytes;
        var len := r.RtaNestEnd(nest);
        bytes := NestRead(before, kind, inner, body, r.Payload());
      }
  }

  lemma AlignSum(a: nat, b: nat)
    ensures Align(Align(a) + Align(b)) == Align(a) + Align(b)
  {
  }

  /** A nest closed over a body that reads as `inner`. */
  lemma NestRead(before: seq<byte>, kind: nat, inner: seq<Tree>, body: seq<byte>, closed: seq<byte>) returns (bytes: seq<byte>)
    requires kind < NESTED && Whole(body) && Read(body) == inner && HEADER + |body| < LIMIT
    requires var all := before + Put16(HEADER) + Put16(SetNested(kind % LIMIT)) + body;
             closed == all[..|before|] + Put16(HEADER + |body|) + all[|before| + 2..]
    ensures closed == before + bytes && |bytes| == HEADER + |body| && Whole(bytes) && Read(bytes) == [Nest(kind, inner)]
  {
    hide Align, Encode, Walk, Deficit, Read, Put16, Get16;
    bytes := Encode(kind + NESTED, body);
    ClosedEncoded(before, kind + NESTED, body);
    assert bytes + [] == bytes;
    WholeAligned(body);
    ReadAttr(kind + NESTED, body, bytes);
  }

  /** Adds trees one after the other, all of them exactly when they fit. */
  method AddTrees(r: RtaBuffer, maxlen: nat, trees: seq<Tree>) returns (ok: bool, ghost bytes: seq<byte>)
    requires r.Valid() && r.Len() <= maxlen <= r.buf.Length && maxlen < LIMIT && r.Len() % 4 == 0
    requires forall i | 0 <= i < |trees| :: Sound(trees[i])
    modifies r.buf
    ensures ok <==> old(r.Len()) + RoomAll(trees) <= maxlen
    ensures ok ==> r.Valid() && r.Payload() == old(r.Payload()) + bytes && |bytes| == RoomAll(trees)
    ensures ok ==> r.Len() == old(r.Len()) + RoomAll(trees) && Whole(bytes) && Read(bytes) == trees
    decreases trees, 1
  {
    hide Align, Encode, Walk, Deficit, Read, Put16, Get16, Room, RoomAll, Sound;
    bytes := [];
    NothingBuilt();
    var i := 0;
    while i < |trees|
      invariant i <= |trees| && r.Valid() && r.Len() % 4 == 0 && r.Len() == old(r.Len()) + RoomAll(trees[..i]) <= maxlen
      invariant r.Payload() == old(r.Payload()) + bytes && |bytes| == RoomAll(trees[..i]) && Whole(bytes)
      invariant Read(bytes) == trees[..i]
    {
      RoomNext(trees, i);
      RoomGrows(trees, i + 1);
      var fits, more := AddTree(r, maxlen, trees[i]);
      if !fits {
        return false, bytes;
      }
      ReadConcat(bytes, more);
      assert trees[..i + 1] == trees[..i] + [trees[i]];
      bytes := bytes + more;
      i := i + 1;
    }
    assert trees[..i] == trees;
    ok := true;
  }

  lemma NothingBuilt()
    ensures Whole([]) && Read([]) == [] && forall trees: seq<Tree> :: RoomAll(trees[..0]) == 0
  {
  }

  // ---- whole messages ----

  /** One call on a message: a plain attribute, or a block of trees built in a buffer
      of its own and then added raw. */
  datatype Item = Plain(kind: nat, data: seq<byte>) | Block(trees: seq<Tree>) {
    function Trees(): seq<Tree> {
      match this
      case Plain(kind, data) => [Leaf(kind, data)]
      case Block(trees) => trees
    }

    function Size(): nat {
      match this
      case Plain(_, data) => Align(HEADER + |data|)
      case Block(trees) => RoomAll(trees)
    }

    ghost predicate Valid() {
      forall i | 0 <= i < |Trees()| :: Sound(Trees()[i])
    }

    /** It fits at `at`, and a block in its buffer of `cap` bytes. */
    predicate Fits(at: nat, cap: nat, maxlen: nat) {
      at + Size() <= maxlen && (Block? ==> HEADER + Size() <= cap)
    }
  }

  function AllTrees(items: seq<Item>): seq<Tree> {
    if items == [] then [] else AllTrees(items[..|items| - 1]) + items[|items| - 1].Trees()
  }

  function SizeAll(items: seq<Item>): nat {
    if items == [] then 0 else SizeAll(items[..|items| - 1]) + items[|items| - 1].Size()
  }

  method AddItem(m: Message, maxlen: nat, cap: nat, item: Item) returns (ok: bool)
    requires m.Valid() && maxlen <= m.buf.Length && HEADER <= cap < LIMIT && item.Valid() && Whole(m.Region())
    modifies m, m.buf
    ensures m.Valid() && (ok <==> item.Fits(Align(old(m.len)), cap, maxlen))
    ensures !ok ==> m.len == old(m.len) && m.buf[..] == old(m.buf[..]) && m.Region() == old(m.Region())
    ensures ok ==> m.len == Align(old(m.len)) + item.Size()
    ensures ok ==> Whole(m.Region()) && Read(m.Region()) == Read(old(m.Region())) + item.Trees()
  {
    match item
    case Plain(_, _) => ok := AddPlain(m, maxlen, cap, item);
    case Block(_) => ok := AddBlock(m, maxlen, cap, item);
  }

  method AddPlain(m: Message, maxlen: nat, ghost cap: nat, item: Item) returns (ok: bool)
    requires m.Valid() && maxlen <= m.buf.Length && item.Valid() && Whole(m.Region()) && item.Plain?
    modifies m, m.buf
    ensures m.Valid() && (ok <==> item.Fits(Align(old(m.len)), cap, maxlen))
    ensures !ok ==> m.len == old(m.len) && m.buf[..] == old(m.buf[..]) && m.Region() == old(m.Region())
    ensures ok ==> m.len == Align(old(m.len)) + item.Size()
    ensures ok ==> Whole(m.Region()) && Read(m.Region()) == Read(old(m.Region())) + item.Trees()
  {
    hide Align, Encode, Walk, Deficit, ReadAll, Put16, Get16;
    assert Sound(item.Trees()[0]);
    ok := m.AddattrL(maxlen, item.kind, item.data);
    if ok {
      ghost var a := Attr(item.kind, item.data);
      assert item.kind % LIMIT == item.kind;
      ReadAllConcat(Walk(old(m.Region())), [a]);
      ReadAllOne(a);
    }
  }

  method AddBlock(m: Message, maxlen: nat, cap: nat, item: Item) returns (ok: bool)
    requires m.Valid() && maxlen <= m.buf.Length && HEADER <= cap < LIMIT && item.Valid() && Whole(m.Region()) && item.Block?
    modifies m, m.buf
    ensures m.Valid() && (ok <==> item.Fits(Align(old(m.len)), cap, maxlen))
    ensures !ok ==> m.len == old(m.len) && m.buf[..] == old(m.buf[..]) && m.Region() == old(m.Region())
    ensures ok ==> m.len == Align(old(m.len)) + item.Size()
    ensures ok ==> Whole(m.Region()) && Read(m.Region()) == Read(old(m.Region())) + item.Trees()
  {
    hide Align, Encode, Walk, Deficit, ReadAll, Put16, Get16, RoomAll, Sound;
    var r := new RtaBuffer(cap, 0);
    assert forall i | 0 <= i < |item.trees| :: Sound(item.Trees()[i]) && item.trees[i] == item.Trees()[i];
    ghost var bytes;
    ok, bytes := AddTrees(r, cap, item.trees);
    if ok {
      RoomAligned(item.trees);
      AlignAligned(r.Len());
      AlignAligned(|bytes|);
      var data := r.buf[HEADER..r.Len()];
      assert data == r.Payload() == [] + bytes == bytes;
      ok := m.AddrawL(maxlen, data);
      if ok {
        assert Padded(bytes) == bytes;
        ReadAllConcat(Walk(old(m.Region())), Walk(bytes));
      }
    }
  }

  /** Any sequence of additions: exactly as many as fit are made, and the message reads
      back as what they added, in order, with nothing left over. */
  method Build(m: Message, maxlen: nat, cap: nat, items: seq<Item>) returns (n: nat)
    requires m.Valid() && maxlen <= m.buf.Length && HEADER <= cap < LIMIT && Whole(m.Region())
    requires forall i | 0 <= i < |items| :: items[i].Valid()
    modifies m, m.buf
    ensures m.Valid() && n <= |items| && Deficit(m.Region()) == 0
    ensures Read(m.Region()) == Read(old(m.Region())) + AllTrees(items[..n])
    ensures Align(m.len) == Align(old(m.len)) + SizeAll(items[..n])
    ensures Fitted(items, n, Align(old(m.len)), cap, maxlen)
    ensures n < |items| ==> !items[n].Fits(Align(old(m.len)) + SizeAll(items[..n]), cap, maxlen)
  {
    hide Align, Walk, Deficit, Read, AllTrees, SizeAll, Item.Size, Item.Trees, Item.Valid, Item.Fits, Fitted,
         Message.Valid, Message.Region;
    n := 0;
    NoItems(items, Align(m.len), cap, maxlen);
    while n < |items|
      invariant m.Valid() && n <= |items| && Whole(m.Region()) && Read(m.Region()) == Read(old(m.Region())) + AllTrees(items[..n])
      invariant Align(m.len) == Align(old(m.len)) + SizeAll(items[..n])
      invariant Fitted(items, n, Align(old(m.len)), cap, maxlen)
    {
      ItemNext(items, n);
      SizeAligned(items[n]);
      AlignMore(m.len, items[n].Size());
      ghost var was, before := Read(old(m.Region())), AllTrees(items[..n]);
      var ok := AddItem(m, maxlen, cap, items[n]);
      if !ok {
        return;
      }
      assert was + before + items[n].Trees() == was + (before + items[n].Trees());
      FitsNext(items, n, Align(old(m.len)), cap, maxlen);
      n := n + 1;
    }
  }

  // ---- parsing what was built ----

  /** The type as it stands in the header. */
  function RawKind(t: Tree): nat {
    if t.Nest? then t.kind + NESTED else t.kind
  }

  /** The entry holds the first tree of type `t`, if there is one. */
  ghost predicate HoldsFirst(trees: seq<Tree>, t: nat, entry: Option<Attr>) {
    && (entry.None? <==> forall i | 0 <= i < |trees| :: trees[i].kind != t)
    && (entry.Some? ==> exists i | 0 <= i < |trees| ::
          && trees[i] == ReadOne(entry.value) && trees[i].kind == t
          && forall j | 0 <= j < i :: trees[j].kind != t)
  }

  /** The entry holds the last tree whose type, flag included, is `t`, if there is one. */
  ghost predicate HoldsLast(trees: seq<Tree>, t: nat, entry: Option<Attr>) {
    && (entry.None? <==> forall i | 0 <= i < |trees| :: RawKind(trees[i]) != t)
    && (entry.Some? ==> exists i | 0 <= i < |trees| ::
          && trees[i] == ReadOne(entry.value) && RawKind(trees[i]) == t
          && forall j | i < j < |trees| :: RawKind(trees[j]) != t)
  }

  lemma {:induction false} ReadAllAt(attrs: seq<Attr>)
    ensures |ReadAll(attrs)| == |attrs| && forall i | 0 <= i < |attrs| :: ReadAll(attrs)[i] == ReadOne(attrs[i])
  {
    if attrs != [] {
      ReadAllAt(attrs[..|attrs| - 1]);
    }
  }

  /** Types take two bytes. */
  lemma {:induction false} WalkKinds(b: seq<byte>)
    ensures forall i | 0 <= i < |Walk(b)| :: Walk(b)[i].kind < LIMIT
    decreases |b|
  {
    hide Align, Get16;
    if RtaOk(b) && Align(Get16(b)) <= |b| {
      WalkKinds(b[Align(Get16(b))..]);
    }
  }

  /** The trees read are the attributes found, and keep their types. */
  lemma ReadAt(b: seq<byte>)
    ensures |Read(b)| == |Walk(b)|
    ensures forall i | 0 <= i < |Walk(b)| ::
              var a, t := Walk(b)[i], Read(b)[i];
              t == ReadOne(a) && RawKind(t) == a.kind && t.kind == Masked(a.kind, NESTED)
  {
    hide Masked, Walk, ReadAll, Read;
    ReadUnfold(b);
    WalkKinds(b);
    ReadAllAt(Walk(b));
    forall i | 0 <= i < |Walk(b)|
      ensures RawKind(Read(b)[i]) == Walk(b)[i].kind && Read(b)[i].kind == Masked(Walk(b)[i].kind, NESTED)
    {
      var a := Walk(b)[i];
      MaskedNested(if a.kind >= NESTED then a.kind - NESTED else a.kind);
    }
  }

  lemma ReadUnfold(b: seq<byte>)
    ensures Read(b) == ReadAll(Walk(b))
  {
  }

  lemma FirstTree(b: seq<byte>, t: nat)
    ensures HoldsFirst(Read(b), t, First(Walk(b), t, NESTED))
  {
    hide Masked, Walk, Read, ReadOne, First, RawKind;
    ReadAt(b);
    FirstExact(Walk(b), t, NESTED);
  }

  lemma LastTree(b: seq<byte>, t: nat)
    ensures HoldsLast(Read(b), t, Last(Walk(b), t))
  {
    hide Masked, Walk, Read, ReadOne, Last, RawKind;
    ReadAt(b);
    LastExact(Walk(b), t);
  }

  /** Parses the attributes of a message both ways. */
  method Parse(b: seq<byte>, max: nat) returns (first: seq<Option<Attr>>, left: int, last: Outcome)
    ensures left == Deficit(b) && |first| == max + 1 && forall t | 0 <= t <= max :: HoldsFirst(Read(b), t, first[t])
    ensures last.Overran? ==> Deficit(b) < 0
    ensures last.Aborted? <==> exists i | 0 <= i < |Read(b)| :: RawKind(Read(b)[i]) >= max
    ensures last.Parsed? ==> |last.attrs| == max && forall t | 0 <= t < max :: HoldsLast(Read(b), t, last.attrs[t])
  {
    hide Walk, Read, Deficit, First, Last, HoldsFirst, HoldsLast, Masked, RawKind;
    first, left := ParseRtattrFlags(b, max, NESTED);
    forall t | 0 <= t <= max
      ensures HoldsFirst(Read(b), t, first[t])
    {
      FirstTree(b, t);
    }
    last := ParseRtattr(b, max);
    ReadAt(b);
    if last.Parsed? {
      forall t | 0 <= t < max
        ensures HoldsLast(Read(b), t, last.attrs[t])
      {
        LastTree(b, t);
      }
    }
  }

  /** Builds a message from nothing and parses it.  Nothing is left over; the first
      parser finds the first item of each type, nests under their plain type; the other
      finds the last, nests under their flagged type, unless a type is beyond its table. */
  method BuildAndParse(size: nat, head: nat, cap: nat, items: seq<Item>, max: nat)
    returns (n: nat, first: seq<Option<Attr>>, left: int, last: Outcome)
    requires head <= size && HEADER <= cap < LIMIT && forall i | 0 <= i < |items| :: items[i].Valid()
    ensures n <= |items| && Fitted(items, n, Align(head), cap, size)
    ensures n < |items| ==> !items[n].Fits(Align(head) + SizeAll(items[..n]), cap, size)
    ensures left == 0 && !last.Overran?
    ensures var trees := AllTrees(items[..n]);
            && |first| == max + 1 && (forall t | 0 <= t <= max :: HoldsFirst(trees, t, first[t]))
            && (last.Aborted? <==> exists i | 0 <= i < |trees| :: RawKind(trees[i]) >= max)
            && (last.Parsed? ==> |last.attrs| == max && forall t | 0 <= t < max :: HoldsLast(trees, t, last.attrs[t]))
  {
    hide Align, Walk, Read, Deficit, HoldsFirst, HoldsLast, RawKind, Fitted, Item.Fits, Item.Valid, SizeAll, AllTrees,
         Message.Valid, Message.Region;
    var m := new Message(size, head);
    NothingBuilt();
    n := Build(m, size, cap, items);
    assert [] + AllTrees(items[..n]) == AllTrees(items[..n]);
    var b := m.Attributes();
    first, left, last := Parse(b, max);
  }

  /** The first `n` items fit one after the other from `at` on. */
  ghost predicate Fitted(items: seq<Item>, n: nat, at: nat, cap: nat, maxlen: nat)
    requires n <= |items|
  {
    forall i | 0 <= i < n :: items[i].Fits(at + SizeAll(items[..i]), cap, maxlen)
  }

  lemma FitsNext(items: seq<Item>, n: nat, at: nat, cap: nat, maxlen: nat)
    requires n < |items| && Fitted(items, n, at, cap, maxlen) && items[n].Fits(at + SizeAll(items[..n]), cap, maxlen)
    ensures Fitted(items, n + 1, at, cap, maxlen)
  {
    hide SizeAll, Item.Fits;
  }

  lemma NoItems(items: seq<Item>, at: nat, cap: nat, maxlen: nat)
    ensures AllTrees(items[..0]) == [] && SizeAll(items[..0]) == 0 && Fitted(items, 0, at, cap, maxlen)
  {
  }

  lemma ItemNext(items: seq<Item>, n: nat)
    requires n < |items|
    ensures AllTrees(items[..n + 1]) == AllTrees(items[..n]) + items[n].Trees()
    ensures SizeAll(items[..n + 1]) == SizeAll(items[..n]) + items[n].Size()
  {
    assert items[..n + 1][..n] == items[..n];
  }

  lemma {:induction false} RoomAligned(trees: seq<Tree>)
    ensures RoomAll(trees) % 4 == 0
    decreases trees, 1
  {
    if trees != [] {
      RoomAligned(trees[..|trees| - 1]);
      TreeAligned(trees[|trees| - 1]);
    }
  }

  lemma {:induction false} TreeAligned(t: Tree)
    ensures Room(t) % 4 == 0
    decreases t, 0
  {
    if t.Nest? {
      RoomAligned(t.inner);
    }
  }

  lemma SizeAligned(item: Item)
    ensures item.Size() % 4 == 0
  {
    if item.Block? {
      RoomAligned(item.trees);
    }
  }

  lemma AlignMore(a: nat, b: nat)
    requires b % 4 == 0
    ensures Align(Align(a) + b) == Align(a) + b
  {
  }
}
