/** Paging: what one window of output shows. */
module BufferWindow {
  import opened Lists
  import opened Bytes
  import opened Buffer

  /** Ten backspaces, ten spaces, ten backspaces. */
  const ERASE: seq<byte> := [8, 8, 8, 8, 8, 8, 8, 8, 8, 8, 32, 32, 32, 32, 32, 32, 32, 32, 32, 32, 8, 8, 8, 8, 8, 8, 8, 8, 8, 8]

  /** The prompt with its terminating zero byte. */
  const MORE: seq<byte> := [32, 45, 45, 77, 111, 114, 101, 45, 45, 32, 0]

  /** The prompt reads " --More-- ", and erasing goes back over all of it, blanks it and
      goes back again. */
  lemma PromptErased()
    ensures Letters(MORE) == " --More-- " + [0 as char]
    ensures ERASE == seq(10, _ => 8) + seq(10, _ => 32) + seq(10, _ => 8)
  {
  }

  function Letters(p: seq<byte>): (s: string)
    ensures |s| == |p| && forall k | 0 <= k < |p| :: s[k] == p[k] as int as char
  {
    seq(|p|, k requires 0 <= k < |p| => p[k] as int as char)
  }

  /** The line and column after showing one byte. */
  function Step(b: byte, width: int, height: int, column: int): (r: (int, int)) {
    if b == CR then (height, 1)
    else if b == LF || column == width then (height - 1, 1)
    else (height, column + 1)
  }

  /** How many bytes fit on `height` lines. */
  function Shown(p: seq<byte>, width: int, height: int, column: int): (n: nat)
    ensures n <= |p|
  {
    if p == [] || height <= 0 then 0
    else
      var (h, c) := Step(p[0], width, height, column);
      1 + Shown(p[1..], width, h, c)
  }

  /** The number of lines that the bytes complete. */
  function Lines(p: seq<byte>, width: int, column: int): nat {
    if p == [] then 0
    else
      var (h, c) := Step(p[0], width, 0, column);
      -h + Lines(p[1..], width, c)
  }

  /** What is shown completes no more lines than asked for; if anything is left, it
      completes exactly that many, and its last byte completes the last. */
  lemma {:induction false} ShownExact(p: seq<byte>, width: int, height: nat, column: int)
    ensures var n := Shown(p, width, height, column);
            && Lines(p[..n], width, column) <= height
            && (n < |p| ==> Lines(p[..n], width, column) == height)
            && (forall k | 0 <= k < n :: Lines(p[..k], width, column) < height)
    decreases |p|
  {
    var n := Shown(p, width, height, column);
    if p != [] && height > 0 {
      var (h, c) := Step(p[0], width, height, column);
      ShownExact(p[1..], width, h, c);
      assert p[..n][1..] == p[1..][..n - 1];
      forall k | 0 < k < n
        ensures Lines(p[..k], width, column) < height
      {
        assert p[..k][1..] == p[1..][..k - 1];
      }
    }
  }

  // ---- rows by counting ----

  /** How many bytes come before the first newline or carriage return. */
  function Stretch(p: seq<byte>): (n: nat)
    ensures n <= |p| && (forall k | 0 <= k < n :: p[k] != 10 && p[k] != 13) && (n < |p| ==> p[n] == 10 || p[n] == 13)
  {
    if p == [] || p[0] == 10 || p[0] == 13 then 0 else 1 + Stretch(p[1..])
  }

  /** The rows that text uses up: one for each newline, and one for each full width of
      every stretch between newlines and carriage returns. */
  function Used(p: seq<byte>, width: nat): nat
    requires width >= 1
    decreases |p|
  {
    var n := Stretch(p);
    n / width + if n == |p| then 0 else (if p[n] == 10 then 1 else 0) + Used(p[n + 1..], width)
  }

  lemma DivSmall(x: nat, w: nat)
    requires x < w
    ensures x / w == 0
  {
  }

  lemma DivMore(x: nat, w: nat)
    requires w >= 1
    ensures (x + w) / w == x / w + 1
  {
    Quotient(x + w, w, x / w + 1, x % w);
  }

  lemma {:induction false} LinesFrom(p: seq<byte>, width: nat, column: nat)
    requires 1 <= column <= width
    ensures var n := Stretch(p);
            Lines(p, width, column) ==
            (column - 1 + n) / width + if n == |p| then 0 else (if p[n] == 10 then 1 else 0) + Lines(p[n + 1..], width, 1)
    decreases |p|
  {
    var n := Stretch(p);
    if n == 0 {
      DivSmall(column - 1, width);
    } else if column == width {
      LinesFrom(p[1..], width, 1);
      DivMore(n - 1, width);
      assert n < |p| ==> p[1..][n..] == p[n + 1..];
    } else {
      LinesFrom(p[1..], width, column + 1);
      assert n < |p| ==> p[1..][n..] == p[n + 1..];
    }
  }

  /** Counting columns byte by byte comes to the same. */
  lemma {:induction false} LinesExact(p: seq<byte>, width: nat)
    requires width >= 1
    ensures Lines(p, width, 1) == Used(p, width)
    decreases |p|
  {
    LinesFrom(p, width, 1);
    var n := Stretch(p);
    if n < |p| {
      LinesExact(p[n + 1..], width);
    }
  }

  /** The first `n` bytes fill `rows` rows, and no shorter beginning does; or all bytes
      fit. */
  ghost predicate Fills(q: seq<byte>, n: nat, width: nat, rows: nat)
    requires n <= |q| && width >= 1
  {
    && Used(q[..n], width) <= rows && (n < |q| ==> Used(q[..n], width) == rows)
    && forall k | 0 <= k < n :: Used(q[..k], width) < rows
  }

  lemma ShownFills(q: seq<byte>, width: nat, rows: nat)
    requires width >= 1
    ensures Fills(q, Shown(q, width, rows, 1), width, rows)
  {
    hide Lines, Used, Shown;
    ShownExact(q, width, rows, 1);
    forall k | 0 <= k <= |q|
      ensures Lines(q[..k], width, 1) == Used(q[..k], width)
    {
      LinesExact(q[..k], width);
    }
  }

  /** Every stretch without a newline is shorter than the width. */
  ghost predicate ShortLines(q: seq<byte>, width: nat) {
    forall i, j | 0 <= i <= j <= |q| && 10 !in q[i..j] :: j - i < width
  }

  /** Every stretch without a carriage return is shorter than the width. */
  ghost predicate ShortReturns(q: seq<byte>, width: nat) {
    forall i, j | 0 <= i <= j <= |q| && 13 !in q[i..j] :: j - i < width
  }

  /** Newlines alone use up rows when all lines are short and none returns. */
  lemma {:induction false} UsedShort(p: seq<byte>, width: nat)
    requires width >= 1 && 13 !in p && ShortLines(p, width)
    ensures Used(p, width) == multiset(p)[10]
    decreases |p|
  {
    var n := Stretch(p);
    assert 10 !in p[0..n];
    DivSmall(n, width);
    Newlines(p, n);
    if n < |p| {
      ShortRest(p, width, n + 1);
      UsedShort(p[n + 1..], width);
    }
  }

  lemma Newlines(p: seq<byte>, n: nat)
    requires n <= |p| && 10 !in p[0..n]
    ensures multiset(p)[10] == if n == |p| then 0 else (if p[n] == 10 then 1 else 0) + multiset(p[n + 1..])[10]
  {
    if n == |p| {
      assert p[0..n] == p;
    } else {
      assert p == p[0..n] + [p[n]] + p[n + 1..];
      assert multiset(p[0..n])[10] == 0;
    }
  }

  lemma ShortRest(p: seq<byte>, width: nat, n: nat)
    requires n <= |p|
    ensures ShortLines(p, width) ==> ShortLines(p[n..], width)
    ensures ShortReturns(p, width) ==> ShortReturns(p[n..], width)
  {
    forall i, j | 0 <= i <= j <= |p| - n
      ensures p[n..][i..j] == p[n + i..n + j]
    {
    }
  }

  /** Carriage returns use up none. */
  lemma {:induction false} UsedReturns(p: seq<byte>, width: nat)
    requires width >= 1 && 10 !in p && ShortReturns(p, width)
    ensures Used(p, width) == 0
    decreases |p|
  {
    var n := Stretch(p);
    assert 13 !in p[0..n];
    DivSmall(n, width);
    if n < |p| {
      ShortRest(p, width, n + 1);
      UsedReturns(p[n + 1..], width);
    }
  }

  lemma UsedPlain(p: seq<byte>, width: nat)
    requires width >= 1 && 10 !in p && 13 !in p
    ensures Used(p, width) == |p| / width
  {
  }

  lemma ShortPrefix(q: seq<byte>, width: nat, k: nat)
    requires k <= |q|
    ensures ShortLines(q, width) ==> ShortLines(q[..k], width)
    ensures ShortReturns(q, width) ==> ShortReturns(q[..k], width)
  {
    forall i, j | 0 <= i <= j <= k
      ensures q[..k][i..j] == q[i..j]
    {
    }
  }

  /** Short lines: what is shown ends in a newline and has one for each row. */
  lemma FillsLines(q: seq<byte>, n: nat, width: nat, rows: nat)
    requires n < |q| && width >= 1 && rows >= 1 && Fills(q, n, width, rows) && 13 !in q && ShortLines(q, width)
    ensures n > 0 && q[n - 1] == 10 && multiset(q[..n])[10] == rows
  {
    hide Used, ShortLines;
    forall k | 0 <= k <= n
      ensures Used(q[..k], width) == multiset(q[..k])[10]
    {
      ShortPrefix(q, width, k);
      UsedShort(q[..k], width);
    }
    assert q[..n] == if n == 0 then [] else q[..n - 1] + [q[n - 1]];
  }

  /** Neither newline nor carriage return: full rows of the width. */
  lemma FillsPlain(q: seq<byte>, n: nat, width: nat, rows: nat)
    requires n <= |q| && width >= 1 && rows >= 1 && Fills(q, n, width, rows) && 10 !in q && 13 !in q
    ensures n == if |q| <= width * rows then |q| else width * rows
  {
    hide Used;
    UsedPlain(q[..n], width);
    if n > 0 {
      UsedPlain(q[..n - 1], width);
      Less(n - 1, width, rows);
    }
    AtLeast(n, width, rows);
    AtLeast(0, width, rows);
  }

  lemma AtLeast(x: nat, w: nat, r: nat)
    requires w >= 1
    ensures 0 <= w * r && (x / w == r ==> w * r <= x)
  {
    assert x == w * (x / w) + x % w;
  }

  lemma Less(x: nat, w: nat, r: nat)
    requires w >= 1 && x / w < r
    ensures x < w * r
  {
    assert x == w * (x / w) + x % w;
    assert w * (x / w) + w == w * (x / w + 1);
    assert w * (x / w + 1) <= w * r;
  }

  /** Only carriage returns: everything is shown. */
  lemma FillsReturns(q: seq<byte>, n: nat, width: nat, rows: nat)
    requires n <= |q| && width >= 1 && rows >= 1 && Fills(q, n, width, rows) && 10 !in q && ShortReturns(q, width)
    ensures n == |q|
  {
    hide Used, ShortReturns;
    ShortPrefix(q, width, n);
    UsedReturns(q[..n], width);
  }

  /** Showing a part first and then the rest. */
  lemma {:induction false} ShownFrom(p: seq<byte>, q: seq<byte>, width: int, height: int, column: int)
    requires p != [] && height > 0
    ensures var (h, c) := Step(p[0], width, height, column);
            Shown(p + q, width, height, column) == 1 + Shown(p[1..] + q, width, h, c)
  {
    assert (p + q)[0] == p[0] && (p + q)[1..] == p[1..] + q;
  }

  /** Counts off the bytes of one chunk until the window is full. */
  method Scan(c: Chunk, width: int, height: int, column: int, ghost q: seq<byte>) returns (cp: nat, height': int, column': int)
    requires c.sp <= |c.bytes|
    ensures c.sp <= cp <= |c.bytes| && (cp < |c.bytes| ==> height' <= 0)
    ensures Shown(Rest(c) + q, width, height, column) == cp - c.sp + Shown(c.bytes[cp..] + q, width, height', column')
  {
    cp, height', column' := c.sp, height, column;
    while cp < |c.bytes| && height' > 0
      invariant c.sp <= cp <= |c.bytes|
      invariant Shown(Rest(c) + q, width, height, column) == cp - c.sp + Shown(c.bytes[cp..] + q, width, height', column')
    {
      ShownFrom(c.bytes[cp..], q, width, height', column');
      assert c.bytes[cp..][1..] == c.bytes[cp + 1..];
      if c.bytes[cp] == CR {
        column' := 1;
      } else if c.bytes[cp] == LF || column' == width {
        column' := 1;
        height' := height' - 1;
      } else {
        column' := column' + 1;
      }
      cp := cp + 1;
    }
  }

  /** The first `k` chunks were gone through, all but the last of them to the end. */
  ghost predicate Scanned(was: seq<Chunk>, chunks: seq<Chunk>, k: nat) {
    && k <= |chunks| == |was|
    && (forall i | k <= i < |chunks| :: chunks[i] == was[i])
    && (forall i | 0 <= i < k :: chunks[i].bytes == was[i].bytes && chunks[i].sp <= |chunks[i].bytes|)
    && (forall i | 0 <= i < k - 1 :: chunks[i].sp == |chunks[i].bytes|)
  }

  lemma {:induction false} QueuedSpent(chunks: seq<Chunk>)
    requires forall i | 0 <= i < |chunks| :: chunks[i].sp == |chunks[i].bytes|
    ensures Queued(chunks) == []
  {
    if chunks != [] {
      QueuedSpent(chunks[1..]);
    }
  }

  lemma QueuedScanned(was: seq<Chunk>, chunks: seq<Chunk>, k: nat)
    requires Scanned(was, chunks, k)
    ensures Queued(chunks) == (if k > 0 then Rest(chunks[k - 1]) else []) + Queued(was[k..])
  {
    assert was[k..] == chunks[k..];
    if k > 0 {
      assert chunks == chunks[..k - 1] + ([chunks[k - 1]] + chunks[k..]);
      QueuedConcat(chunks[..k - 1], [chunks[k - 1]] + chunks[k..]);
      QueuedConcat([chunks[k - 1]], chunks[k..]);
      QueuedSpent(chunks[..k - 1]);
    } else {
      assert chunks[k..] == chunks;
    }
  }

  /** One more chunk gone through. */
  lemma ScannedNext(was: seq<Chunk>, chunks: seq<Chunk>, k: nat, cp: nat)
    requires Scanned(was, chunks, k) && k < |was| && (k > 0 ==> chunks[k - 1].sp == |chunks[k - 1].bytes|)
    requires was[k].sp <= cp <= |was[k].bytes|
    ensures var next := chunks[k := chunks[k].(sp := cp)];
            && Scanned(was, next, k + 1)
            && Queued(chunks) == Rest(was[k]) + Queued(was[k + 1..])
            && Queued(next) == was[k].bytes[cp..] + Queued(was[k + 1..])
            && Queued(chunks) == was[k].bytes[was[k].sp..cp] + Queued(next)
  {
    hide Queued, Scanned;
    ScannedMore(was, chunks, k, cp);
    var next := chunks[k := chunks[k].(sp := cp)];
    QueuedScanned(was, next, k + 1);
    QueuedBefore(was, chunks, k);
    Resplit(was[k].bytes, was[k].sp, cp, Queued(was[k + 1..]));
  }

  lemma ScannedMore(was: seq<Chunk>, chunks: seq<Chunk>, k: nat, cp: nat)
    requires Scanned(was, chunks, k) && k < |was| && (k > 0 ==> chunks[k - 1].sp == |chunks[k - 1].bytes|) && cp <= |was[k].bytes|
    ensures k < |chunks| && Scanned(was, chunks[k := chunks[k].(sp := cp)], k + 1) && chunks[k] == was[k]
  {
  }

  lemma QueuedBefore(was: seq<Chunk>, chunks: seq<Chunk>, k: nat)
    requires Scanned(was, chunks, k) && k < |was| && (k > 0 ==> chunks[k - 1].sp == |chunks[k - 1].bytes|)
    ensures Queued(chunks) == Rest(was[k]) + Queued(was[k + 1..])
  {
    hide Queued;
    QueuedScanned(was, chunks, k);
    QueuedCons(was, k);
  }

  lemma Resplit(b: seq<byte>, i: nat, j: nat, q: seq<byte>)
    requires i <= j <= |b|
    ensures b[i..] + q == b[i..j] + (b[j..] + q)
  {
    assert b[i..] == b[i..j] + b[j..];
  }

  lemma QueuedCons(was: seq<Chunk>, k: nat)
    requires k < |was|
    ensures Queued(was[k..]) == Rest(was[k]) + Queued(was[k + 1..])
  {
    assert was[k..][0] == was[k] && was[k..][1..] == was[k + 1..];
  }

  /** Frees the chunks at the front that are sent. */
  method Free(chunks: seq<Chunk>, ghost was: seq<Chunk>, ghost k: nat, ghost size: nat) returns (rest: seq<Chunk>)
    requires Scanned(was, chunks, k) && ChunksOk(was, size)
    ensures ChunksOk(rest, size) && Queued(rest) == Queued(chunks)
  {
    rest := chunks;
    ghost var i := 0;
    while rest != [] && rest[0].sp == |rest[0].bytes|
      invariant i <= |chunks| && rest == chunks[i..] && Queued(rest) == Queued(chunks)
      decreases |rest|
    {
      rest := rest[1..];
      i := i + 1;
    }
    forall j | 0 <= j < |rest|
      ensures ChunkOk(rest[j], size)
    {
      assert rest[j] == chunks[i + j];
      if i + j < k {
        assert i + j == k - 1 ==> j == 0;
      }
    }
  }

  /** The window after the caller's size is adjusted. */
  function Rows(height: int): (h: int)
    ensures h >= 1
  {
    if height < 1 then 1 else if height >= 2 then height - 1 else height
  }

  function Columns(width: int): (w: int)
    ensures w >= 1
  {
    if width < 1 then 1 else width
  }

  /** Of a queue, the first `n` bytes are shown on a terminal of `rows` rows for text. */
  ghost predicate Paged(q: seq<byte>, n: nat, width: nat, rows: nat)
    requires n <= |q| && width >= 1
  {
    && Fills(q, n, width, rows)
    && (n < |q| && 13 !in q && ShortLines(q, width) ==> n > 0 && q[n - 1] == 10 && multiset(q[..n])[10] == rows)
    && (10 !in q && 13 !in q ==> n == if |q| <= width * rows then |q| else width * rows)
    && (10 !in q && ShortReturns(q, width) ==> n == |q|)
  }

  /** One row of the terminal is kept for the prompt, if there are two. */
  lemma WindowShows(q: seq<byte>, width: int, height: int)
    ensures var w, r := if width < 1 then 1 else width, if height < 2 then 1 else height - 1;
            Paged(q, Shown(q, Columns(width), Rows(height), 1), w, r)
  {
    hide Fills, Shown, ShortLines, ShortReturns;
    var n, w, r := Shown(q, Columns(width), Rows(height), 1), Columns(width), Rows(height);
    ShownFills(q, w, r);
    if n < |q| && 13 !in q && ShortLines(q, w) {
      FillsLines(q, n, w, r);
    }
    if 10 !in q && 13 !in q {
      FillsPlain(q, n, w, r);
    }
    if 10 !in q && ShortReturns(q, w) {
      FillsReturns(q, n, w, r);
    }
  }

  /** Goes through the chunks until the window is full.  `alloc` is the room for
      pieces of output, `used` how much of it is taken; the small room for three
      pieces is never outgrown. */
  method Page(chunks: seq<Chunk>, size: nat, width: int, height: int, erase: bool)
    returns (next: seq<Chunk>, out: seq<byte>, used: nat, alloc: nat, ghost k: nat)
    requires ChunksOk(chunks, size) && size > 0 && chunks != [] && width >= 1 && height >= 1
    ensures Scanned(chunks, next, k) && used < alloc && |out| == Shown(Queued(chunks), width, height, 1)
    ensures Queued(chunks) == out + Queued(next)
  {
    hide Queued, Shown;
    var small := |chunks| == 1;
    alloc := if small then 3 else height * (width + 2) / size + 10;
    AllocPositive(width, height, size);
    used := if erase then 1 else 0;
    next, out, k := chunks, [], 0;
    var h, column, i := height, 1, 0;
    while i < |chunks| && h > 0
      invariant i == k <= |chunks| && Scanned(chunks, next, k) && Queued(chunks) == out + Queued(next)
      invariant h > 0 && k > 0 ==> next[k - 1].sp == |next[k - 1].bytes|
      invariant Shown(Queued(chunks), width, height, 1) == |out| + Shown(Queued(next), width, h, column)
      invariant used < alloc && (small ==> alloc == 3 && |chunks| == 1 && used <= 1 + k)
    {
      var data := next[i];
      QueuedBefore(chunks, next, k);
      var cp, h', column' := Scan(data, width, h, column, Queued(chunks[i + 1..]));
      ScannedNext(chunks, next, k, cp);
      out := out + data.bytes[data.sp..cp];
      next := next[i := data.(sp := cp)];
      used, h, column, i, k := used + 1, h', column', i + 1, k + 1;
      if used == alloc {
        assert !small;
        alloc := alloc * 2;
      }
    }
    ShownEnd(chunks, next, k, width, h, column);
  }

  lemma AllocPositive(width: int, height: int, size: nat)
    requires width >= 1 && height >= 1 && size > 0
    ensures height * (width + 2) / size >= 0
  {
    assert height * (width + 2) >= 0;
  }

  lemma ShownEnd(was: seq<Chunk>, next: seq<Chunk>, k: nat, width: int, h: int, column: int)
    requires Scanned(was, next, k) && (k == |was| || h <= 0) && (h > 0 && k > 0 ==> next[k - 1].sp == |next[k - 1].bytes|)
    ensures Shown(Queued(next), width, h, column) == 0
  {
    if h > 0 {
      QueuedScanned(was, next, k);
    }
  }

  /** Shows one window of output, the last prompt erased first and a prompt after it
      if bytes are left.  `ok` says whether the writes succeed; they are complete
      when they do. */
  method FlushWindow(b: OutputBuffer, width: int, height: int, erase: bool, noMore: bool, ok: bool)
    returns (status: Status, screen: seq<byte>)
    requires b.Valid()
    modifies b`chunks, b`sent
    ensures ChunksOk(b.chunks, b.size)
    ensures var q := Queued(old(b.chunks));
            var n := Shown(q, Columns(width), Rows(height), 1);
            && (old(b.chunks) == [] ==> status.Empty? && screen == [] && b.Valid() && b.chunks == [])
            && (old(b.chunks) != [] ==>
                  && Queued(b.chunks) == q[n..]
                  && screen == (if erase then ERASE else []) + q[..n] + (if n < |q| && !noMore then MORE else [])
                  && (status.Error? <==> !ok)
                  && (ok ==> b.Valid() && b.sent == old(b.sent) + q[..n] && (status.Pending? <==> n < |q|)))
    ensures old(b.chunks) != [] ==>
              var q := Queued(old(b.chunks));
              var n := |q| - |Queued(b.chunks)|;
              0 <= n && Paged(q, n, if width < 1 then 1 else width, if height < 2 then 1 else height - 1)
  {
    hide Queued, Shown, Paged;
    QueuedEmpty(b.chunks);
    WindowShows(Queued(b.chunks), width, height);
    if b.chunks == [] {
      return Empty, [];
    }
    ghost var was := b.chunks;
    var next, out, used, alloc, k := Page(b.chunks, b.size, Columns(width), Rows(height), erase);
    var left := next[|next| - 1].sp < |next[|next| - 1].bytes|;
    TailLeft(was, next, k, b.size);
    screen := (if erase then ERASE else []) + out;
    if left && !noMore {
      assert used < alloc;
      screen := screen + MORE;
    }
    b.chunks := Free(next, was, k, b.size);
    QueuedEmpty(b.chunks);
    assert Queued(was)[..|out|] == out && Queued(was)[|out|..] == Queued(next);
    if ok {
      b.sent := b.sent + out;
    }
    status := if !ok then Error else if b.chunks != [] then Pending else Empty;
  }

  /** Bytes are left exactly when some are left in the last chunk. */
  lemma TailLeft(was: seq<Chunk>, next: seq<Chunk>, k: nat, size: nat)
    requires Scanned(was, next, k) && ChunksOk(was, size) && was != []
    ensures next[|next| - 1].sp < |next[|next| - 1].bytes| <==> Queued(next) != []
  {
    hide Queued;
    QueuedScanned(was, next, k);
    if k < |was| {
      QueuedCons(was, k);
      assert ChunkOk(was[k], size) && ChunkOk(was[|was| - 1], size);
    } else {
      assert was[k..] == [];
      QueuedEmpty([]);
    }
  }

  datatype Op =
    | Put(p: seq<byte>)
    | PutCrlf(p: seq<byte>)
    | Write(p: seq<byte>, w: Writer)
    | Flush(fd: int, w: Writer)
    | Window(width: int, height: int, erase: bool, noMore: bool)

  /** The bytes an operation hands to the buffer. */
  function Input(op: Op): seq<byte> {
    match op
    case Put(p) => p
    case PutCrlf(p) => Crlf(p)
    case Write(p, _) => p
    case _ => []
  }

  function Inputs(ops: seq<Op>): seq<byte> {
    if ops == [] then [] else Inputs(ops[..|ops| - 1]) + Input(ops[|ops| - 1])
  }

  /** The descriptor is open and does not fail. */
  ghost predicate Reliable(op: Op) {
    match op
    case Write(_, w) => forall n :: !w(n).Fail?
    case Flush(fd, w) => fd >= 0 && forall n :: !w(n).Fail?
    case _ => true
  }

  /** Any run without an error: what was sent, followed by what the buffer still
      holds, is all that was handed to it, in order. */
  method Run(size: nat, page: nat, ops: seq<Op>) returns (b: OutputBuffer, error: bool)
    requires page > 0 && forall k | 0 <= k < |ops| :: (ops[k].Write? || ops[k].Flush?) ==> Honest(ops[k].w)
    ensures !error ==> b.Valid() && Inputs(ops) == b.sent + Queued(b.chunks)
    ensures (forall op | op in ops :: Reliable(op)) ==> !error
  {
    b := new OutputBuffer(size, page);
    error := false;
    for i := 0 to |ops|
      invariant fresh(b) && (!error ==> b.Valid() && b.accepted == Inputs(ops[..i]))
      invariant (forall op | op in ops :: Reliable(op)) ==> !error
    {
      if !error {
        assert ops[..i + 1][..i] == ops[..i];
        error := Do(b, ops[i]);
      }
    }
    assert ops[..|ops|] == ops;
  }

  method Do(b: OutputBuffer, op: Op) returns (error: bool)
    requires b.Valid() && (op.Write? || op.Flush? ==> Honest(op.w))
    modifies b
    ensures !error ==> b.Valid() && b.accepted == old(b.accepted) + Input(op)
    ensures Reliable(op) ==> !error
  {
    error := false;
    match op
    case Put(p) => b.Put(p);
    case PutCrlf(p) => b.PutCrlf(p);
    case Write(p, w) =>
      var status := b.Write(p, w);
      error := status.Error?;
    case Flush(fd, w) =>
      var status, _, _ := b.FlushAvailable(fd, w);
      error := status.Error?;
    case Window(width, height, erase, noMore) =>
      var status, screen := FlushWindow(b, width, height, erase, noMore, true);
  }
}
