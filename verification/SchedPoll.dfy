/** The poll array and its copy: adding, cancelling and answering requests. */
module SchedPoll {
  import opened Lists
  import opened SchedState

  /** `i` is the position of the entry for `fd`, or the end if there is none. */
  ghost predicate Found(p: Poll, fd: nat, i: nat) {
    && i <= p.count <= |p.pfds|
    && (i < p.count ==> p.pfds[i].fd == fd)
    && (forall j | 0 <= j < i :: p.pfds[j].fd != fd)
  }

  /** The position of the entry for `fd` from `i` on, or the end. */
  function PosFrom(p: Poll, fd: nat, i: nat): (r: nat)
    requires i <= p.count <= |p.pfds|
    ensures i <= r <= p.count && (r < p.count ==> p.pfds[r].fd == fd)
    ensures forall j | i <= j < r :: p.pfds[j].fd != fd
    decreases p.count - i
  {
    if i == p.count || p.pfds[i].fd == fd then i else PosFrom(p, fd, i + 1)
  }

  function PosOf(p: Poll, fd: nat): (r: nat)
    requires p.count <= |p.pfds|
    ensures Found(p, fd, r)
  {
    PosFrom(p, fd, 0)
  }

  /** Asks for `flag` in slot `i`, which may keep the event bits of an older use. */
  function AddAt(p: Poll, i: nat, fd: nat, flag: Flag): Poll
    requires i < |p.pfds|
  {
    p.(pfds := p.pfds[i := p.pfds[i].(fd := fd, events := p.pfds[i].events + {flag})],
       count := if i == p.count then p.count + 1 else p.count)
  }

  /** The array with the entry at `i` shifted out; the slot past the end keeps what
      it held. */
  function Shift(pfds: seq<PollFd>, count: nat, i: nat): seq<PollFd>
    requires i < count <= |pfds|
  {
    pfds[..i] + pfds[i + 1..count] + pfds[count - 1..]
  }

  function CancelBit(pfds: seq<PollFd>, count: nat, i: nat, flag: Flag): (r: (seq<PollFd>, nat))
    requires i < count <= |pfds|
    ensures |r.0| == |pfds| && r.1 <= count
  {
    var cut := pfds[i := pfds[i].(events := pfds[i].events - {flag, PollHup})];
    if cut[i].events == {} then (Shift(cut, count, i), count - 1) else (cut, count)
  }

  /** Withdraws `flag` from slot `i`, dropping the slot when nothing is left, and
      does the same to the copy if it reaches that far. */
  function CancelAt(p: Poll, i: nat, flag: Flag): Poll
    requires i < p.count <= |p.pfds| && p.copycount <= |p.copy|
  {
    var (pfds, count) := CancelBit(p.pfds, p.count, i, flag);
    if i < p.copycount then
      var (copy, copycount) := CancelBit(p.copy, p.copycount, i, flag);
      p.(pfds := pfds, count := count, copy := copy, copycount := copycount)
    else p.(pfds := pfds, count := count)
  }

  /** An event on slot `i` was delivered: stop asking for it. */
  function ClearAt(p: Poll, i: nat, flag: Flag): Poll
    requires i < |p.pfds|
  {
    p.(pfds := p.pfds[i := p.pfds[i].(events := p.pfds[i].events - {flag})])
  }

  /** The copy handed to poll. */
  function Snapshot(p: Poll): Poll
    requires p.count <= |p.pfds| && |p.copy| == |p.pfds|
  {
    p.(copy := p.pfds[..p.count] + p.copy[p.count..], copycount := p.count, polling := true)
  }

  // ---- room for the pipe ----

  ghost function Fds(p: Poll, n: nat): set<nat>
    requires n <= |p.pfds|
  {
    set k | 0 <= k < n :: p.pfds[k].fd
  }

  lemma {:induction false} FdsSize(p: Poll, n: nat)
    requires n <= p.count <= |p.pfds| && forall i, j | 0 <= i < j < p.count :: p.pfds[i].fd != p.pfds[j].fd
    ensures |Fds(p, n)| == n
  {
    if n > 0 {
      FdsSize(p, n - 1);
      assert Fds(p, n) == Fds(p, n - 1) + {p.pfds[n - 1].fd};
      assert p.pfds[n - 1].fd !in Fds(p, n - 1);
    }
  }

  lemma {:induction false} Pigeonhole(s: set<nat>, n: nat)
    requires forall x | x in s :: x < n
    ensures |s| <= n
  {
    if n > 0 {
      var t := s - {n - 1};
      Pigeonhole(t, n - 1);
      assert s <= t + {n - 1};
      Subset(s, t + {n - 1});
    } else {
      assert s == {};
    }
  }

  /** The entries are of different descriptors below the limit, none of them the
      pipe's, so there is always room for the pipe's own entry. */
  lemma RoomForPipe(p: Poll, read: map<nat, nat>, write: map<nat, nat>)
    requires Polled(p, read, write)
    ensures p.count + 1 < |p.pfds|
  {
    FdsSize(p, p.count);
    var s := Fds(p, p.count) + {p.ear, p.mouth};
    Pigeonhole(s, |p.pfds|);
    assert |{p.ear, p.mouth}| == 2 && Fds(p, p.count) !! {p.ear, p.mouth};
  }

  /** The same for one more descriptor. */
  lemma RoomForMore(p: Poll, read: map<nat, nat>, write: map<nat, nat>, fd: nat)
    requires Polled(p, read, write) && fd < |p.pfds| && fd != p.ear && fd != p.mouth
    ensures PosOf(p, fd) + 1 < |p.pfds|
  {
    RoomForPipe(p, read, write);
  }

  lemma AddPolled(p: Poll, i: nat, fd: nat, flag: Flag, read: map<nat, nat>, write: map<nat, nat>)
    requires Polled(p, read, write) && Found(p, fd, i) && i + 1 < |p.pfds| && fd < |p.pfds| && fd != p.ear && fd != p.mouth
    ensures Polled(AddAt(p, i, fd, flag), read, write) && Watched(AddAt(p, i, fd, flag), fd, flag)
  {
    var q := AddAt(p, i, fd, flag);
    assert q.pfds[i].fd == fd && flag in q.pfds[i].events;
    forall g, f | Watched(p, g, f)
      ensures Watched(q, g, f)
    {
      var j :| 0 <= j < p.count && p.pfds[j].fd == g && f in p.pfds[j].events;
      assert q.pfds[j].fd == g && f in q.pfds[j].events;
    }
  }

  /** Some entry watches `fd` for `flag`. */
  ghost predicate Asks(p: Poll, fd: nat, flag: Flag) {
    p.count <= |p.pfds| && Watched(p, fd, flag)
  }

  /** What is asked for once a request is added: one thing more, and what a new entry's
      place still held. */
  lemma AddAsks(p: Poll, i: nat, fd: nat, flag: Flag)
    requires Found(p, fd, i) && i < |p.pfds|
    ensures var q := AddAt(p, i, fd, flag);
            forall g, f :: Asks(q, g, f) <==> Asks(p, g, f) || (g == fd && (f == flag || (i == p.count && f in p.pfds[i].events)))
  {
    var q := AddAt(p, i, fd, flag);
    assert q.pfds[i].fd == fd && q.pfds[i].events == p.pfds[i].events + {flag};
    forall g, f | Asks(p, g, f)
      ensures Asks(q, g, f)
    {
      var j :| 0 <= j < p.count && p.pfds[j].fd == g && f in p.pfds[j].events;
      assert q.pfds[j].fd == g && f in q.pfds[j].events;
    }
  }

  /** Exactly the one request is added, if and only if there was an entry or its place
      held nothing else. */
  lemma AddsOnly(p: Poll, i: nat, fd: nat, flag: Flag)
    requires Found(p, fd, i) && i < |p.pfds|
    ensures var q := AddAt(p, i, fd, flag);
            (forall g, f :: Asks(q, g, f) <==> Asks(p, g, f) || (g == fd && f == flag)) <==>
              i < p.count || forall f | f in p.pfds[i].events :: f == flag
  {
    hide Asks;
    AddAsks(p, i, fd, flag);
    if i == p.count {
      NotAsked(p, fd, i);
      if f :| f in p.pfds[i].events && f != flag {
        assert Asks(AddAt(p, i, fd, flag), fd, f);
      }
    }
  }

  lemma NotAsked(p: Poll, fd: nat, i: nat)
    requires Found(p, fd, i) && i == p.count
    ensures forall f :: !Asks(p, fd, f)
  {
  }

  lemma ShiftAt(pfds: seq<PollFd>, count: nat, i: nat)
    requires i < count <= |pfds|
    ensures |Shift(pfds, count, i)| == |pfds|
    ensures forall j | 0 <= j < count - 1 :: Shift(pfds, count, i)[j] == pfds[if j < i then j else j + 1]
  {
  }

  /** Withdrawing `flag` from the entry of `fd` leaves every other watch in place. */
  lemma CancelWatch(p: Poll, i: nat, fd: nat, flag: Flag, g: nat, f: Flag)
    requires i < p.count <= |p.pfds| && p.copycount <= |p.copy| && p.pfds[i].fd == fd
    requires Watched(p, g, f) && f != PollHup && (g != fd || f != flag)
    ensures Watched(CancelAt(p, i, flag), g, f)
  {
    var q := CancelAt(p, i, flag);
    var j :| 0 <= j < p.count && p.pfds[j].fd == g && f in p.pfds[j].events;
    var cut := p.pfds[i := p.pfds[i].(events := p.pfds[i].events - {flag, PollHup})];
    assert cut[j].fd == g && f in cut[j].events;
    if cut[i].events == {} {
      ShiftAt(cut, p.count, i);
      var k := if j < i then j else j - 1;
      assert j != i && q.pfds[k] == cut[j];
    } else {
      assert q.pfds[j] == cut[j];
    }
  }

  /** Of the first `n` entries of `a`, the one at `i` no longer asks for `flag` or for
      hang-ups; with nothing left to ask for it is gone and the later ones move up. */
  ghost predicate Lapsed(a: seq<PollFd>, n: nat, b: seq<PollFd>, m: nat, i: nat, flag: Flag) {
    && i < n <= |a| == |b|
    && if forall f | f in a[i].events :: f == flag || f == PollHup then
         m == n - 1 && forall j | 0 <= j < m :: b[j] == a[if j < i then j else j + 1]
       else
         && m == n && b[i].fd == a[i].fd && b[i].revents == a[i].revents
         && (forall f :: f in b[i].events <==> f in a[i].events && f != flag && f != PollHup)
         && forall j | 0 <= j < n && j != i :: b[j] == a[j]
  }

  lemma CancelExact(pfds: seq<PollFd>, count: nat, i: nat, flag: Flag)
    requires i < count <= |pfds|
    ensures var (q, n) := CancelBit(pfds, count, i, flag); Lapsed(pfds, count, q, n, i, flag)
  {
    var ev := pfds[i].events;
    var cut := pfds[i := pfds[i].(events := ev - {flag, PollHup})];
    ShiftAt(cut, count, i);
    if forall f | f in ev :: f == flag || f == PollHup {
      assert ev - {flag, PollHup} == {};
    } else {
      var f :| f in ev && f != flag && f != PollHup;
      assert f in cut[i].events;
    }
  }

  /** What is asked for once the entry of `fd` lapsed: nothing more of what was
      withdrawn, and all the rest.  The entry is there as long as it asks for something. */
  lemma LapsedExact(p: Poll, q: Poll, i: nat, fd: nat, flag: Flag)
    requires Lapsed(p.pfds, p.count, q.pfds, q.count, i, flag) && p.pfds[i].fd == fd
    requires forall a, b | 0 <= a < b < p.count :: p.pfds[a].fd != p.pfds[b].fd
    ensures !Asks(q, fd, flag) && !Asks(q, fd, PollHup)
    ensures forall g, f | g != fd || (f != flag && f != PollHup) :: Asks(q, g, f) <==> Asks(p, g, f)
    ensures (forall j | 0 <= j < q.count :: q.pfds[j].fd != fd) <==> forall f | f in p.pfds[i].events :: f == flag || f == PollHup
  {
    var gone := forall f | f in p.pfds[i].events :: f == flag || f == PollHup;
    forall j | 0 <= j < q.count
      ensures var k := if gone && j >= i then j + 1 else j;
              && k < p.count && q.pfds[j].fd == p.pfds[k].fd && (k != i ==> q.pfds[j] == p.pfds[k])
    {
    }
    forall g, f | Asks(p, g, f) && (g != fd || (f != flag && f != PollHup))
      ensures Asks(q, g, f)
    {
      var k :| 0 <= k < p.count && p.pfds[k].fd == g && f in p.pfds[k].events;
      var j := if gone && k > i then k - 1 else k;
      assert q.pfds[j].fd == g && f in q.pfds[j].events;
    }
    assert !gone ==> q.pfds[i].fd == fd;
  }

  lemma CancelDistinct(pfds: seq<PollFd>, count: nat, i: nat, flag: Flag)
    requires i < count <= |pfds|
    requires forall a, b | 0 <= a < b < count :: pfds[a].fd != pfds[b].fd
    ensures var (q, n) := CancelBit(pfds, count, i, flag); forall a, b | 0 <= a < b < n :: q[a].fd != q[b].fd
  {
    var cut := pfds[i := pfds[i].(events := pfds[i].events - {flag, PollHup})];
    assert forall a | 0 <= a < count :: cut[a].fd == pfds[a].fd;
    ShiftAt(cut, count, i);
  }

  lemma CancelWithin(pfds: seq<PollFd>, count: nat, i: nat, flag: Flag)
    requires i < count <= |pfds|
    ensures var (q, n) := CancelBit(pfds, count, i, flag);
            n <= count && |q| == |pfds| && forall a | 0 <= a < n :: exists b | 0 <= b < count :: q[a].fd == pfds[b].fd
  {
    var cut := pfds[i := pfds[i].(events := pfds[i].events - {flag, PollHup})];
    assert forall a | 0 <= a < count :: cut[a].fd == pfds[a].fd;
    ShiftAt(cut, count, i);
    var (q, n) := CancelBit(pfds, count, i, flag);
    forall a | 0 <= a < n
      ensures exists b | 0 <= b < count :: q[a].fd == pfds[b].fd
    {
      var b := if n == count || a < i then a else a + 1;
      assert q[a].fd == pfds[b].fd;
    }
  }

  /** What is left of the arrays once a request is withdrawn. */
  lemma CancelFits(p: Poll, i: nat, flag: Flag)
    requires WithinLimit(p) && |p.copy| == |p.pfds| && p.copycount <= |p.copy| && i < p.count
    requires forall i, j | 0 <= i < j < p.count :: p.pfds[i].fd != p.pfds[j].fd
    ensures var q := CancelAt(p, i, flag);
            && |q.copy| == |q.pfds| && q.copycount <= |q.copy| && WithinLimit(q) && q.polling == p.polling
            && forall i, j | 0 <= i < j < q.count :: q.pfds[i].fd != q.pfds[j].fd
  {
    CancelDistinct(p.pfds, p.count, i, flag);
    CancelWithin(p.pfds, p.count, i, flag);
    hide CancelBit;
  }

  lemma CancelPolled(p: Poll, i: nat, fd: nat, flag: Flag, read: map<nat, nat>, write: map<nat, nat>)
    requires Polled(p, read, write) && !p.polling && i < p.count && p.pfds[i].fd == fd && flag != PollHup
    requires fd in read ==> flag != PollIn
    requires fd in write ==> flag != PollOut
    ensures Polled(CancelAt(p, i, flag), read, write)
  {
    hide CancelAt, Watched;
    CancelFits(p, i, flag);
    forall g | g in read
      ensures Watched(CancelAt(p, i, flag), g, PollIn)
    {
      CancelWatch(p, i, fd, flag, g, PollIn);
    }
    forall g | g in write
      ensures Watched(CancelAt(p, i, flag), g, PollOut)
    {
      CancelWatch(p, i, fd, flag, g, PollOut);
    }
  }

  lemma ClearPolled(p: Poll, i: nat, fd: nat, flag: Flag, read: map<nat, nat>, write: map<nat, nat>)
    requires Polled(p, read, write) && i < p.count && p.pfds[i].fd == fd
    requires fd in read ==> flag != PollIn
    requires fd in write ==> flag != PollOut
    ensures Polled(ClearAt(p, i, flag), read, write)
  {
    var q := ClearAt(p, i, flag);
    forall g, f | Watched(p, g, f) && (g != fd || f != flag)
      ensures Watched(q, g, f)
    {
      var j :| 0 <= j < p.count && p.pfds[j].fd == g && f in p.pfds[j].events;
      assert q.pfds[j].fd == g && f in q.pfds[j].events;
    }
  }

  lemma SnapshotPolled(p: Poll, read: map<nat, nat>, write: map<nat, nat>)
    requires Polled(p, read, write)
    ensures Polled(Snapshot(p), read, write)
  {
    var q := Snapshot(p);
    forall g, f | Watched(p, g, f)
      ensures Watched(q, g, f)
    {
      var j :| 0 <= j < p.count && p.pfds[j].fd == g && f in p.pfds[j].events;
      assert q.pfds[j].fd == g && f in q.pfds[j].events;
    }
  }

  /** The copy handed to poll asks `flag` of `fd`. */
  ghost predicate Shown(p: Poll, fd: nat, flag: Flag) {
    exists i | 0 <= i < p.copycount && i < |p.copy| :: p.copy[i].fd == fd && flag in p.copy[i].events
  }

  /** The copy is the array entry for entry, so poll is asked for every pending request. */
  lemma SnapshotExact(p: Poll, read: map<nat, nat>, write: map<nat, nat>)
    requires Polled(p, read, write)
    ensures var q := Snapshot(p);
            && q.polling && q.pfds == p.pfds && q.count == p.count == q.copycount <= |q.copy|
            && (forall i | 0 <= i < q.copycount :: q.copy[i] == p.pfds[i])
            && (forall fd | fd in read :: Shown(q, fd, PollIn)) && (forall fd | fd in write :: Shown(q, fd, PollOut))
  {
    var q := Snapshot(p);
    forall fd, flag | Watched(p, fd, flag)
      ensures Shown(q, fd, flag)
    {
      var i :| 0 <= i < p.count && p.pfds[i].fd == fd && flag in p.pfds[i].events;
      assert q.copy[i] == p.pfds[i];
    }
  }

  /** Fewer pending descriptors need fewer watches. */
  lemma FewerPolled(p: Poll, read: map<nat, nat>, write: map<nat, nat>, read': map<nat, nat>, write': map<nat, nat>)
    requires Polled(p, read, write) && read'.Keys <= read.Keys && write'.Keys <= write.Keys
    ensures Polled(p, read', write')
  {
  }

  /** A pending descriptor has an entry to be found. */
  lemma PendingFound(p: Poll, read: map<nat, nat>, write: map<nat, nat>, fd: nat, i: nat)
    requires Polled(p, read, write) && Found(p, fd, i) && (fd in read || fd in write)
    ensures i < p.count
  {
    var flag := if fd in read then PollIn else PollOut;
    assert Watched(p, fd, flag);
  }
}
