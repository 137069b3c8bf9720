/** The chunked output buffer of a terminal or socket. */
module Buffer {
  import opened Bytes

  const LF: byte := 10
  const CR: byte := 13

  /** A chunk holds the bytes put into it; those from `sp` on are still to be sent. */
  datatype Chunk = Chunk(bytes: seq<byte>, sp: nat)

  datatype Status = Error | Empty | Pending

  /** What a write call may answer when offered a number of bytes. */
  datatype Answer = Wrote(n: nat) | Retry | Fail

  type Writer = nat -> Answer

  /** A write call takes no more than it is offered. */
  ghost predicate Honest(w: Writer) {
    forall k :: w(k).Wrote? ==> w(k).n <= k
  }

  const BUFFER_SIZE_DEFAULT: nat := 4096
  const MAX_CHUNKS := 16
  const MAX_FLUSH := 131072

  ghost predicate ChunkOk(c: Chunk, size: nat) {
    c.sp < |c.bytes| <= size
  }

  ghost predicate ChunksOk(chunks: seq<Chunk>, size: nat) {
    forall k | 0 <= k < |chunks| :: ChunkOk(chunks[k], size)
  }

  function Rest(c: Chunk): seq<byte> {
    if c.sp <= |c.bytes| then c.bytes[c.sp..] else []
  }

  /** The bytes still to be sent, in order. */
  function Queued(chunks: seq<Chunk>): seq<byte> {
    if chunks == [] then [] else Rest(chunks[0]) + Queued(chunks[1..])
  }

  lemma {:induction false} QueuedConcat(a: seq<Chunk>, b: seq<Chunk>)
    ensures Queued(a + b) == Queued(a) + Queued(b)
  {
    if a == [] {
      assert a + b == b;
    } else {
      assert (a + b)[0] == a[0] && (a + b)[1..] == a[1..] + b;
      QueuedConcat(a[1..], b);
    }
  }

  /** Filling the last chunk, or a new one, puts bytes at the end of the queue. */
  lemma QueuedFill(chunks: seq<Chunk>, more: seq<byte>)
    requires chunks != [] && chunks[|chunks| - 1].sp <= |chunks[|chunks| - 1].bytes|
    ensures Queued(Filled(chunks, more)) == Queued(chunks) + more
  {
    hide Queued;
    var n := |chunks| - 1;
    var a, x, y := chunks[..n], chunks[n], chunks[n].(bytes := chunks[n].bytes + more);
    assert chunks == a + [x];
    QueuedConcat(a, [x]);
    QueuedConcat(a, [y]);
    QueuedOne(x);
    QueuedOne(y);
    assert Rest(y) == Rest(x) + more;
  }

  lemma QueuedOne(x: Chunk)
    ensures Queued([x]) == Rest(x)
  {
    assert [x][1..] == [];
  }

  function Filled(chunks: seq<Chunk>, more: seq<byte>): seq<Chunk>
    requires chunks != []
  {
    var n := |chunks| - 1;
    chunks[..n] + [chunks[n].(bytes := chunks[n].bytes + more)]
  }

  /** Every newline becomes carriage return and newline. */
  function Crlf(p: seq<byte>): seq<byte> {
    if p == [] then [] else (if p[0] == LF then [CR, LF] else [p[0]]) + Crlf(p[1..])
  }

  lemma {:induction false} CrlfConcat(a: seq<byte>, b: seq<byte>)
    ensures Crlf(a + b) == Crlf(a) + Crlf(b)
  {
    if a == [] {
      assert a + b == b;
    } else {
      assert (a + b)[0] == a[0] && (a + b)[1..] == a[1..] + b;
      CrlfConcat(a[1..], b);
    }
  }

  /** What becomes of single bytes; with `CrlfConcat` this is all there is. */
  lemma CrlfByte(b: byte)
    ensures Crlf([b]) == if b == 10 then [13, 10] else [b]
  {
    assert [b][1..] == [];
  }

  lemma {:induction false} CrlfPlain(a: seq<byte>)
    requires LF !in a
    ensures Crlf(a) == a
  {
    if a != [] {
      CrlfPlain(a[1..]);
      assert a == [a[0]] + a[1..];
    }
  }

  /** Undoing the expansion. */
  function Unix(p: seq<byte>): seq<byte> {
    if p == [] then []
    else if |p| > 1 && p[0] == CR && p[1] == LF then [LF] + Unix(p[2..])
    else [p[0]] + Unix(p[1..])
  }

  /** No byte is lost: text without carriage returns can be read back. */
  lemma {:induction false} CrlfReversible(p: seq<byte>)
    requires CR !in p
    ensures Unix(Crlf(p)) == p
  {
    if p != [] {
      CrlfReversible(p[1..]);
      assert p == [p[0]] + p[1..];
      if p[0] == LF {
        assert Crlf(p)[2..] == Crlf(p[1..]);
      } else {
        assert Crlf(p)[1..] == Crlf(p[1..]);
      }
    }
  }

  /** The least number of pages that hold the default size. */
  function Pages(page: nat): (n: nat)
    requires page > 0
    ensures 4096 <= n * page < 4096 + page
  {
    var k, q := BUFFER_SIZE_DEFAULT - 1, (BUFFER_SIZE_DEFAULT - 1) / page;
    assert k == q * page + k % page;
    assert (q + 1) * page == q * page + page;
    q + 1
  }

  /** One flush offers the first `cnt` chunks: at most 16, and none more once 131072
      bytes are reached. */
  ghost predicate Offered(chunks: seq<Chunk>, cnt: nat) {
    && cnt <= |chunks| && cnt <= 16
    && (forall k | 0 <= k < cnt :: |Queued(chunks[..k])| < 131072)
    && (cnt == |chunks| || cnt == 16 || |Queued(chunks[..cnt])| >= 131072)
  }

  class OutputBuffer {
    const size: nat
    var chunks: seq<Chunk>
    ghost var accepted: seq<byte>
    ghost var sent: seq<byte>

    /** Every chunk holds bytes to be sent and no more than fit; what was sent,
        followed by what is queued, is what was accepted. */
    ghost predicate Valid()
      reads this
    {
      size > 0 && ChunksOk(chunks, size) && accepted == sent + Queued(chunks)
    }

    /** A buffer of chunks of the given size, or of as many whole pages as hold the
        default size. */
    constructor (size: nat, page: nat)
      requires page > 0
      ensures Valid() && chunks == [] && accepted == [] && sent == []
      ensures size > 0 ==> this.size == size
      ensures size == 0 ==> this.size == Pages(page) * page
    {
      this.size := if size != 0 then size else Pages(page) * page;
      chunks, accepted, sent := [], [], [];
    }

    method GetStr() returns (s: seq<byte>)
      requires Valid()
      ensures s == Queued(chunks)
    {
      hide Queued;
      s := [];
      QueuedEmpty([]);
      assert chunks[..0] == [];
      for i := 0 to |chunks|
        invariant s == Queued(chunks[..i])
      {
        assert ChunkOk(chunks[i], size);
        QueuedNext(chunks, i);
        s := s + chunks[i].bytes[chunks[i].sp..];
      }
      assert chunks[..|chunks|] == chunks;
    }

    /** There is room in the last chunk, which may be new and empty. */
    ghost predicate Room()
      reads this
    {
      && size > 0 && chunks != [] && ChunksOk(chunks[..|chunks| - 1], size)
      && chunks[|chunks| - 1].sp <= |chunks[|chunks| - 1].bytes| < size
    }

    /** A new chunk, if the last one is full or there is none. */
    method MakeRoom()
      requires size > 0 && (ChunksOk(chunks, size) || Room())
      modifies this`chunks
      ensures Room() && Queued(chunks) == Queued(old(chunks))
    {
      if chunks == [] || |chunks[|chunks| - 1].bytes| == size {
        QueuedConcat(chunks, [Chunk([], 0)]);
        chunks := chunks + [Chunk([], 0)];
        assert chunks[..|chunks| - 1] == old(chunks);
      }
    }

    /** Copies bytes that fit into the last chunk. */
    method Fill(p: seq<byte>)
      requires Room() && |chunks[|chunks| - 1].bytes| + |p| <= size
      modifies this`chunks
      ensures size > 0 && chunks != [] && chunks == Filled(old(chunks), p) && Queued(chunks) == Queued(old(chunks)) + p
      ensures p != [] ==> ChunksOk(chunks, size)
    {
      QueuedFill(chunks, p);
      chunks := Filled(chunks, p);
    }

    /** Appends bytes to the queue, over as many chunks as it takes. */
    method Append(p: seq<byte>)
      requires size > 0 && ChunksOk(chunks, size)
      modifies this`chunks
      ensures ChunksOk(chunks, size) && Queued(chunks) == Queued(old(chunks)) + p
    {
      hide Queued;
      var i := 0;
      while i < |p|
        invariant i <= |p| && ChunksOk(chunks, size) && Queued(chunks) == Queued(old(chunks)) + p[..i]
      {
        MakeRoom();
        var avail := size - |chunks[|chunks| - 1].bytes|;
        var chunk := if |p| - i <= avail then |p| - i else avail;
        Fill(p[i..i + chunk]);
        assert Queued(old(chunks)) + p[..i] + p[i..i + chunk] == Queued(old(chunks)) + p[..i + chunk];
        i := i + chunk;
      }
      assert p[..|p|] == p;
    }

    method Put(p: seq<byte>)
      requires Valid()
      modifies this`chunks, this`accepted
      ensures Valid() && Queued(chunks) == Queued(old(chunks)) + p && accepted == old(accepted) + p
    {
      hide Queued;
      Append(p);
      accepted := accepted + p;
      assert accepted == sent + Queued(chunks);
    }

    /** Puts bytes with every newline expanded. */
    method PutCrlf(p: seq<byte>)
      requires Valid()
      modifies this`chunks, this`accepted
      ensures Valid() && Queued(chunks) == Queued(old(chunks)) + Crlf(p) && accepted == old(accepted) + Crlf(p)
    {
      hide Queued, Crlf;
      AppendCrlf(p);
      accepted := accepted + Crlf(p);
      assert accepted == sent + Queued(chunks);
    }

    method AppendCrlf(p: seq<byte>)
      requires size > 0 && ChunksOk(chunks, size)
      modifies this`chunks
      ensures ChunksOk(chunks, size) && Queued(chunks) == Queued(old(chunks)) + Crlf(p)
    {
      hide Queued, Crlf, ChunkOk;
      var i := 0;
      var lf := NextLf(p, 0);
      CrlfEnds(p);
      while i < |p|
        invariant i <= lf <= |p| && LF !in p[i..lf] && (lf < |p| ==> p[lf] == LF)
        invariant ChunksOk(chunks, size) && Queued(chunks) == Queued(old(chunks)) + Crlf(p[..i])
        decreases |p| - i
      {
        MakeRoom();
        var avail := size - |chunks[|chunks| - 1].bytes|;
        var chunk := if lf - i <= avail then lf - i else avail;
        Fill(p[i..i + chunk]);
        CrlfStep(p, i, chunk);
        i := i + chunk;
        if i == lf && lf < |p| {
          PutNewline();
          CrlfLf(p, i);
          i := i + 1;
          lf := NextLf(p, i);
        }
      }
      assert p[..i] == p;
    }

    /** Puts carriage return and newline, in one chunk or across two. */
    method PutNewline()
      requires size > 0 && (ChunksOk(chunks, size) || Room())
      modifies this`chunks
      ensures ChunksOk(chunks, size) && Queued(chunks) == Queued(old(chunks)) + [CR, LF]
    {
      hide Queued;
      MakeRoom();
      Fill([CR]);
      MakeRoom();
      Fill([LF]);
    }
  
    /** Collects the chunks one flush offers. */
    method Gather() returns (cnt: nat, nbyte: nat)
      requires size > 0 && ChunksOk(chunks, size)
      ensures Offered(chunks, cnt) && nbyte == |Queued(chunks[..cnt])| && nbyte < MAX_FLUSH + size
    {
      hide Queued, ChunksOk;
      cnt, nbyte := 0, 0;
      QueuedEmpty([]);
      assert chunks[..0] == [];
      while cnt < |chunks| && cnt < MAX_CHUNKS && nbyte < MAX_FLUSH
        invariant cnt <= |chunks| && cnt <= MAX_CHUNKS && nbyte == |Queued(chunks[..cnt])| && nbyte < MAX_FLUSH + size
        invariant forall k | 0 <= k < cnt :: |Queued(chunks[..k])| < MAX_FLUSH
      {
        QueuedLength(chunks, cnt, size);
        nbyte := nbyte + |chunks[cnt].bytes| - chunks[cnt].sp;
        cnt := cnt + 1;
      }
    }

    /** Takes `written` bytes off the front of the queue.  The queue cannot run out. */
    method Consume(n: nat)
      requires size > 0 && ChunksOk(chunks, size) && n <= |Queued(chunks)|
      modifies this`chunks
      ensures ChunksOk(chunks, size) && Queued(chunks) == Queued(old(chunks))[n..]
    {
      hide Queued;
      var written := n;
      while written > 0
        invariant ChunksOk(chunks, size) && 0 <= written <= n && written <= |Queued(chunks)|
        invariant Queued(chunks)[written..] == Queued(old(chunks))[n..]
      {
        QueuedFront(chunks);
        var d := chunks[0];
        if written < |d.bytes| - d.sp {
          QueuedShift(chunks, written);
          chunks := [d.(sp := d.sp + written)] + chunks[1..];
          return;
        }
        QueuedDrop(chunks, written);
        written := written - (|d.bytes| - d.sp);
        chunks := chunks[1..];
      }
    }

    /** Offers what was gathered to the descriptor once. */
    method FlushAvailable(fd: int, w: Writer) returns (status: Status, ghost cnt: nat, ghost taken: nat)
      requires Valid() && Honest(w)
      modifies this`chunks, this`sent
      ensures Valid() && taken <= |Queued(old(chunks))| && Queued(chunks) == Queued(old(chunks))[taken..]
      ensures sent == old(sent) + Queued(old(chunks))[..taken]
      ensures !status.Error? ==> (status.Pending? <==> Queued(chunks) != [])
      ensures fd < 0 ==> status.Error?
      ensures status.Error? ==> taken == 0
      ensures old(chunks) == [] && fd >= 0 ==> status.Empty?
      ensures old(chunks) != [] && fd >= 0 ==>
                && Offered(old(chunks), cnt)
                && match w(|Queued(old(chunks)[..cnt])|)
                   case Retry => status.Pending? && taken == 0
                   case Fail => status.Error?
                   case Wrote(n) => !status.Error? && taken == n
    {
      cnt, taken := 0, 0;
      if fd < 0 {
        return Error, 0, 0;
      }
      var count, nbyte := Gather();
      cnt := count;
      QueuedEmpty(chunks);
      Prefix(chunks, cnt);
      if nbyte == 0 {
        return Empty, cnt, 0;
      }
      match w(nbyte)
      case Retry => return Pending, cnt, 0;
      case Fail => return Error, cnt, 0;
      case Wrote(n) =>
        Consume(n);
        sent, taken := sent + Queued(old(chunks))[..n], n;
        Split(old(sent), Queued(old(chunks)), n);
        QueuedEmpty(chunks);
        status := if chunks != [] then Pending else Empty;
    }

    /** Sends bytes at once if nothing is queued, and queues what is left. */
    method Write(p: seq<byte>, w: Writer) returns (status: Status)
      requires Valid() && Honest(w)
      modifies this`chunks, this`accepted, this`sent
      ensures Valid()
      ensures status.Error? <==> old(chunks) == [] && w(|p|).Fail?
      ensures status.Error? ==> accepted == old(accepted) && chunks == old(chunks)
      ensures !status.Error? ==> accepted == old(accepted) + p && (status.Pending? <==> Queued(chunks) != [])
      ensures old(chunks) != [] ==> sent == old(sent)
    {
      hide Queued;
      QueuedEmpty(chunks);
      var nbytes := 0;
      if chunks == [] {
        match w(|p|)
        case Retry =>
        case Fail => return Error;
        case Wrote(n) => nbytes := n;
      }
      Sent(sent, Queued(chunks), p, nbytes);
      sent := sent + p[..nbytes];
      accepted := accepted + p;
      if nbytes < |p| {
        Append(p[nbytes..]);
      }
      QueuedEmpty(chunks);
      status := if chunks != [] then Pending else Empty;
    }
  }

  lemma Sent(sent: seq<byte>, q: seq<byte>, p: seq<byte>, n: nat)
    requires n <= |p| && (q == [] || n == 0)
    ensures sent + q + p == sent + p[..n] + (q + p[n..])
    ensures n == |p| ==> sent + q + p == sent + p[..n] + q
  {
    if n == 0 {
      assert p[..0] == [] && p[0..] == p && sent + [] == sent;
      assert sent + q + p == sent + (q + p);
    } else {
      assert p == p[..n] + p[n..];
      assert sent + (p[..n] + p[n..]) == sent + p[..n] + p[n..];
    }
    if n == |p| {
      assert p[n..] == [] && q + [] == q;
    }
  }

  /** The next newline from `i` on, or the end. */
  method NextLf(p: seq<byte>, i: nat) returns (lf: nat)
    requires i <= |p|
    ensures i <= lf <= |p| && LF !in p[i..lf] && (lf < |p| ==> p[lf] == LF)
  {
    lf := i;
    while lf < |p| && p[lf] != LF
      invariant i <= lf <= |p| && LF !in p[i..lf]
    {
      lf := lf + 1;
    }
  }

  lemma CrlfEnds(p: seq<byte>)
    ensures Crlf(p[..0]) == []
  {
  }

  /** Bytes other than newlines are copied. */
  lemma CrlfStep(p: seq<byte>, i: nat, n: nat)
    requires i + n <= |p| && LF !in p[i..i + n]
    ensures Crlf(p[..i + n]) == Crlf(p[..i]) + p[i..i + n]
  {
    assert p[..i + n] == p[..i] + p[i..i + n];
    CrlfConcat(p[..i], p[i..i + n]);
    CrlfPlain(p[i..i + n]);
  }

  lemma CrlfLf(p: seq<byte>, i: nat)
    requires i < |p| && p[i] == LF
    ensures Crlf(p[..i + 1]) == Crlf(p[..i]) + [CR, LF]
  {
    assert p[..i + 1] == p[..i] + [LF];
    CrlfConcat(p[..i], [LF]);
    assert Crlf([LF]) == [CR, LF] + Crlf([]);
  }

  lemma QueuedNext(chunks: seq<Chunk>, k: nat)
    requires k < |chunks|
    ensures Queued(chunks[..k + 1]) == Queued(chunks[..k]) + Rest(chunks[k])
  {
    assert chunks[..k + 1] == chunks[..k] + [chunks[k]];
    QueuedConcat(chunks[..k], [chunks[k]]);
  }

  lemma QueuedLength(chunks: seq<Chunk>, k: nat, size: nat)
    requires ChunksOk(chunks, size) && k < |chunks|
    ensures chunks[k].sp <= |chunks[k].bytes| <= size
    ensures |Queued(chunks[..k + 1])| == |Queued(chunks[..k])| + |chunks[k].bytes| - chunks[k].sp
  {
    QueuedNext(chunks, k);
  }

  lemma Prefix(chunks: seq<Chunk>, k: nat)
    requires k <= |chunks|
    ensures Queued(chunks[..k]) <= Queued(chunks)
  {
    assert chunks == chunks[..k] + chunks[k..];
    QueuedConcat(chunks[..k], chunks[k..]);
  }

  /** Nothing is queued exactly when there is no chunk. */
  lemma QueuedEmpty(chunks: seq<Chunk>)
    ensures chunks == [] ==> Queued(chunks) == []
    ensures chunks != [] && chunks[0].sp < |chunks[0].bytes| ==> Queued(chunks) != []
    ensures chunks != [] && chunks[0].sp < |chunks[0].bytes| ==> forall k | 0 < k <= |chunks| :: Queued(chunks[..k]) != []
  {
  }

  lemma QueuedFront(chunks: seq<Chunk>)
    ensures Queued(chunks) != [] ==> chunks != []
  {
  }

  lemma QueuedShift(chunks: seq<Chunk>, n: nat)
    requires chunks != [] && chunks[0].sp + n <= |chunks[0].bytes|
    ensures Queued([chunks[0].(sp := chunks[0].sp + n)] + chunks[1..]) == Queued(chunks)[n..]
  {
    var d := [chunks[0].(sp := chunks[0].sp + n)] + chunks[1..];
    assert d[1..] == chunks[1..];
  }

  lemma QueuedDrop(chunks: seq<Chunk>, n: nat)
    requires chunks != [] && chunks[0].sp <= |chunks[0].bytes| && |chunks[0].bytes| - chunks[0].sp <= n <= |Queued(chunks)|
    ensures var k := |chunks[0].bytes| - chunks[0].sp;
            n - k <= |Queued(chunks[1..])| && Queued(chunks[1..])[n - k..] == Queued(chunks)[n..]
  {
  }

  lemma Split(s: seq<byte>, q: seq<byte>, n: nat)
    requires n <= |q|
    ensures s + q == s + q[..n] + q[n..]
  {
  }
}
