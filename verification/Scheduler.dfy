/** The thread master: scheduling, cancelling and fetching tasks. */
module Scheduler {
  import opened Wrappers
  import opened Lists
  import opened SchedState
  import opened SchedSteps
  import opened SchedMoves
  import opened SchedPoll
  import opened SchedCancel
  import opened SchedReady
  import PQ = PQueue

  /** Orders timers by deadline. */
  function ThreadTimerCmp(a: TimerEntry, b: TimerEntry): int {
    if a.sands < b.sands then -1 else if a.sands > b.sands then 1 else 0
  }

  ghost predicate ByDeadline(cmp: (TimerEntry, TimerEntry) -> int) {
    forall a, b :: cmp(a, b) <= 0 <==> a.sands <= b.sands
  }

  /** The state after structure `GetId(s, spare)` was taken for `th` and tied to its
      caller's reference, before it is housed. */
  function Enlist(s: State, spare: nat, th: Thread): State {
    var g, id := Get(s, spare, th.(ref := None)), GetId(s, spare);
    if th.ref.None? then g
    else g.(threads := g.threads[id := th], refs := g.refs[th.ref.value := id])
  }

  lemma EnlistInv(s: State, spare: nat, th: Thread)
    requires Inv(s) && spare !in s.threads && th.Live() && th.task == s.ledger.next
    requires th.ref.Some? ==> th.ref.value !in s.refs
    ensures InvBut(Enlist(s, spare, th), GetId(s, spare))
  {
    var id := GetId(s, spare);
    var bare := th.(ref := None);
    var g := Get(s, spare, bare);
    GetInv(s, spare, bare);
    if th.ref.Some? {
      Tie(g, id, th.ref.value);
      assert bare.(ref := Some(th.ref.value)) == th;
      var t := g.threads[id].(ref := Some(th.ref.value));
      assert Enlist(s, spare, th) == g.(threads := g.threads[id := t], refs := g.refs[th.ref.value := id]);
    } else {
      assert bare == th;
      assert Enlist(s, spare, th) == g;
    }
  }

  lemma PollRoom(s: State)
    requires Inv(s)
    ensures s.poll.count + 1 < |s.poll.pfds|
  {
    hide Housed, Polled;
    RoomForPipe(s.poll, s.read, s.write);
  }

  /** Setting the payload of a structure just taken. */
  lemma GetWith(s: State, spare: nat, t: Thread, u: Payload)
    ensures var g, id := Get(s, spare, t), GetId(s, spare);
            id in g.threads && g.threads[id] == t && Get(s, spare, t.(u := u)) == g.(threads := g.threads[id := t.(u := u)])
  {
    var id := GetId(s, spare);
    assert s.threads[id := t][id := t.(u := u)] == s.threads[id := t.(u := u)];
  }

  lemma EnlistThreads(s: State, spare: nat, th: Thread)
    ensures Enlist(s, spare, th).threads == s.threads[GetId(s, spare) := th]
  {
    var id := GetId(s, spare);
    if th.ref.Some? {
      assert s.threads[id := th.(ref := None)][id := th] == s.threads[id := th];
    } else {
      assert th.(ref := None) == th;
    }
  }

  lemma GrownSet<T>(a: seq<T>, b: seq<T>, x: T)
    requires multiset(b) == multiset(a) + multiset{x}
    ensures (set e | e in b) == (set e | e in a) + {x}
  {
    forall e
      ensures e in b <==> e in a || e == x
    {
      assert e in b <==> e in multiset(b);
      assert e in a <==> e in multiset(a);
    }
  }

  lemma ShrunkSet<T>(a: seq<T>, b: seq<T>, x: T)
    requires x in a && Distinct(a) && multiset(b) == multiset(a) - multiset{x}
    ensures (set e | e in b) == (set e | e in a) - {x}
  {
    PQ.DistinctOnce(a, x);
    forall e
      ensures e in b <==> e in a && e != x
    {
      assert e in b <==> e in multiset(b);
      assert e in a <==> e in multiset(a);
    }
  }

  lemma EmptyInv(s: State)
    requires s.threads == map[] && s.read == map[] && s.write == map[] && s.timers == {}
    requires s.event == [] && s.ready == [] && s.unuse == [] && s.executing == {} && s.refs == map[] && s.hist == map[]
    requires s.alloc == 0 && s.ledger == Ledger(0, {}, {})
    requires |s.poll.pfds| == |s.poll.copy| && s.poll.count == s.poll.copycount == 0 && !s.poll.polling && WithinLimit(s.poll)
    ensures Inv(s)
  {
    assert LiveTasks(s.threads) == {};
  }

  class ThreadMaster {
    const timer: PQ.Queue<TimerEntry>
    var threads: map<nat, Thread>
    var read: map<nat, nat>
    var write: map<nat, nat>
    var event: seq<nat>
    var ready: seq<nat>
    var unuse: seq<nat>
    var executing: set<nat>
    var refs: map<nat, nat>
    var hist: map<nat, int>
    var alloc: int
    var poll: Poll
    var ledger: Ledger
    var cancelReq: seq<CancelReq>
    var canceled: bool

    ghost function Timers(): set<TimerEntry>
      requires timer.size <= timer.items.Length
      reads timer, timer.items
    {
      set e | e in timer.Live()
    }

    ghost function S(): State
      requires timer.size <= timer.items.Length
      reads this, timer, timer.items
    {
      State(threads, read, write, Timers(), event, ready, unuse, executing, refs, hist, alloc, poll, ledger)
    }

    ghost predicate Valid()
      reads this, timer, timer.items
    {
      timer.Valid() && ByDeadline(timer.cmp) && Inv(S())
    }

    /** A master for descriptors below `fdLimit`, with the pipe from `mouth` to `ear`. */
    constructor (fdLimit: nat, ear: nat, mouth: nat)
      requires ear < fdLimit && mouth < fdLimit && ear != mouth
      ensures Valid() && fresh(timer) && fresh(timer.items)
      ensures threads == map[] && refs == map[] && ledger == Ledger(0, {}, {}) && cancelReq == []
      ensures read == map[] && write == map[] && event == [] && ready == [] && unuse == [] && executing == {}
      ensures |poll.pfds| == fdLimit && poll.count == 0 && !poll.polling && poll.ear == ear && poll.mouth == mouth
      ensures hist == map[] && alloc == 0 && timer.size == 0
      ensures poll.copycount == 0 && forall i | 0 <= i < fdLimit :: poll.pfds[i].events == {}
    {
      hide Inv;
      timer := new PQ.Queue(ThreadTimerCmp);
      threads, read, write, refs, hist := map[], map[], map[], map[], map[];
      event, ready, unuse, executing, alloc := [], [], [], {}, 0;
      poll := Poll(seq(fdLimit, _ => PollFd(0, {}, {})), 0, seq(fdLimit, _ => PollFd(0, {}, {})), 0, false, ear, mouth);
      ledger := Ledger(0, {}, {});
      cancelReq, canceled := [], true;
      new;
      EmptyInv(S());
    }

    /** Takes an unused structure, or a new one at the free address `spare`. */
    method ThreadGet(kind: Kind, func: nat, arg: nat, spare: nat) returns (id: nat)
      requires timer.size <= timer.items.Length
      modifies this`threads, this`unuse, this`alloc, this`hist, this`ledger
      ensures id == GetId(old(S()), spare)
      ensures S() == Get(old(S()), spare, Thread(kind, None, func, arg, Val(0), old(ledger.next)))
    {
      if unuse != [] {
        id := unuse[0];
        unuse := unuse[1..];
      } else {
        id := spare;
        alloc := alloc + 1;
      }
      threads := threads[id := Thread(kind, None, func, arg, Val(0), ledger.next)];
      hist := hist[func := (if func in hist then hist[func] else 0) + 1];
      ledger := ledger.(next := ledger.next + 1);
    }

    /** Sets the payload of a structure just taken and ties it to its caller. */
    method Enroll(kind: Kind, ref: Option<nat>, func: nat, arg: nat, u: Payload, spare: nat) returns (id: nat)
      requires timer.size <= timer.items.Length
      modifies this`threads, this`unuse, this`alloc, this`hist, this`ledger, this`refs
      ensures id == GetId(old(S()), spare)
      ensures S() == Enlist(old(S()), spare, Thread(kind, ref, func, arg, u, old(ledger.next)))
    {
      hide Timers, Get;
      ghost var s := S();
      id := ThreadGet(kind, func, arg, spare);
      GetWith(s, spare, Thread(kind, None, func, arg, Val(0), s.ledger.next), u);
      threads := threads[id := threads[id].(u := u)];
      assert S() == Get(s, spare, Thread(kind, None, func, arg, u, s.ledger.next));
      if ref.Some? {
        refs := refs[ref.value := id];
        threads := threads[id := threads[id].(ref := ref)];
      }
    }

    /** Schedules an event unless the caller's reference is already in use. */
    method AddEvent(func: nat, arg: nat, val: int, ref: Option<nat>, spare: nat) returns (r: Option<nat>)
      requires Valid() && spare !in threads
      modifies this`threads, this`unuse, this`alloc, this`hist, this`ledger, this`event, this`refs
      ensures Valid()
      ensures r.None? <==> ref.Some? && ref.value in old(refs)
      ensures r.None? ==> S() == old(S())
      ensures r.Some? ==>
                && r.value == GetId(old(S()), spare)
                && S() == Enlist(old(S()), spare, Thread(Event, ref, func, arg, Val(val), old(ledger.next)))
                         .(event := old(event) + [r.value])
    {
      hide Inv, InvBut, Enlist;
      if ref.Some? && ref.value in refs {
        return None;
      }
      ghost var s, th := S(), Thread(Event, ref, func, arg, Val(val), ledger.next);
      EnlistInv(s, spare, th);
      EnlistThreads(s, spare, th);
      var id := Enroll(Event, ref, func, arg, Val(val), spare);
      ghost var e := S();
      event := event + [id];
      r := Some(id);
      assert S() == e.(event := e.event + [id]);
      AttachEvent(e, id);
    }
  
    /** Schedules a timer for time `sands`. */
    method AddTimer(func: nat, arg: nat, sands: int, ref: Option<nat>, spare: nat) returns (r: Option<nat>)
      requires Valid() && spare !in threads
      modifies this`threads, this`unuse, this`alloc, this`hist, this`ledger, this`refs, timer, timer.items
      ensures Valid() && (timer.items == old(timer.items) || fresh(timer.items))
      ensures r.None? <==> ref.Some? && ref.value in old(refs)
      ensures r.None? ==> S() == old(S())
      ensures r.Some? ==>
                && r.value == GetId(old(S()), spare)
                && S() == Enlist(old(S()), spare, Thread(Timer, ref, func, arg, Sands(sands), old(ledger.next)))
                         .(timers := old(Timers()) + {TimerEntry(sands, r.value)})
    {
      hide Inv, InvBut, Enlist;
      if ref.Some? && ref.value in refs {
        return None;
      }
      ghost var s, th := S(), Thread(Timer, ref, func, arg, Sands(sands), ledger.next);
      EnlistInv(s, spare, th);
      EnlistThreads(s, spare, th);
      var id := Enroll(Timer, ref, func, arg, Sands(sands), spare);
      ghost var e := S();
      NoTimerYet(e, id, sands);
      InsertTimer(TimerEntry(sands, id));
      r := Some(id);
      assert S() == e.(timers := e.timers + {TimerEntry(sands, id)});
      AttachTimer(e, id);
    }

    method InsertTimer(entry: TimerEntry)
      requires timer.Valid() && entry !in Timers()
      modifies timer, timer.items
      ensures timer.Valid() && (timer.items == old(timer.items) || fresh(timer.items))
      ensures Timers() == old(Timers()) + {entry}
    {
      ghost var a := timer.Live();
      timer.Enqueue(entry);
      GrownSet(a, timer.Live(), entry);
    }

    /** The position of the poll entry for `fd`. */
    method FindPoll(fd: nat) returns (i: nat)
      requires poll.count <= |poll.pfds|
      ensures i == PosOf(poll, fd)
    {
      i := 0;
      while i < poll.count && poll.pfds[i].fd != fd
        invariant i <= poll.count && PosOf(poll, fd) == PosFrom(poll, fd, i)
      {
        i := i + 1;
      }
    }

    /** Puts thread `id` in the slot of `fd` and asks poll for its event. */
    method Occupy(dir: Kind, fd: nat, id: nat)
      requires timer.size <= timer.items.Length
      requires poll.count <= |poll.pfds| && PosOf(poll, fd) + 1 < |poll.pfds|
      modifies this`read, this`write, this`poll
      ensures S() == Housing(old(S()), dir, fd, id)
    {
      var i := FindPoll(fd);
      poll := AddAt(poll, i, fd, Wanted(dir));
      if dir.Read? {
        read := read[fd := id];
      } else {
        write := write[fd := id];
      }
    }

    /** Schedules a reader or writer unless the caller's reference is already in use.
        Otherwise the slot is to be empty.  There is always room for its poll entry
        beside the pipe's.  Other threads may do this while the owner polls. */
    method AddReadWrite(dir: Kind, func: nat, arg: nat, fd: nat, ref: Option<nat>, spare: nat) returns (r: Option<nat>)
      requires Valid() && spare !in threads && (dir.Read? || dir.Write?)
      requires fd < |poll.pfds| && fd != poll.ear && fd != poll.mouth
      requires (ref.Some? && ref.value in refs) || fd !in (if dir.Read? then read else write)
      modifies this`threads, this`unuse, this`alloc, this`hist, this`ledger, this`refs, this`read, this`write, this`poll
      ensures Valid()
      ensures r.None? <==> ref.Some? && ref.value in old(refs)
      ensures r.None? ==> S() == old(S())
      ensures r.Some? ==>
                && r.value == GetId(old(S()), spare)
                && old(poll).count <= |old(poll).pfds| && PosOf(old(poll), fd) + 1 < |old(poll).pfds|
                && var th := Thread(dir, ref, func, arg, Fd(fd), old(ledger.next));
                   S() == Housing(Enlist(old(S()), spare, th), dir, fd, r.value)
      ensures r.Some? ==>
                var p, i := old(poll), PosOf(old(poll), fd);
                && threads == old(threads)[r.value := Thread(dir, ref, func, arg, Fd(fd), old(ledger.next))]
                && read == (if dir.Read? then old(read)[fd := r.value] else old(read))
                && write == (if dir.Read? then old(write) else old(write)[fd := r.value])
                && poll == p.(pfds := poll.pfds, count := if i == p.count then p.count + 1 else p.count)
                && |poll.pfds| == |p.pfds| && (forall j | 0 <= j < |p.pfds| && j != i :: poll.pfds[j] == p.pfds[j])
                && poll.pfds[i].fd == fd && poll.pfds[i].revents == p.pfds[i].revents
                && forall f :: f in poll.pfds[i].events <==> f in p.pfds[i].events || f == if dir.Read? then PollIn else PollOut
    {
      hide Inv, InvBut;
      if ref.Some? && ref.value in refs {
        return None;
      }
      CopyFits(S());
      RoomForMore(poll, read, write, fd);
      ghost var s, th := S(), Thread(dir, ref, func, arg, Fd(fd), ledger.next);
      EnlistInv(s, spare, th);
      EnlistThreads(s, spare, th);
      var id := Enroll(dir, ref, func, arg, Fd(fd), spare);
      HousingInv(S(), dir, fd, id);
      Occupy(dir, fd, id);
      r := Some(id);
    }

    // ---- cancellation ----

    /** Clears a structure and keeps it for reuse, or frees it. */
    method AddUnuse(id: nat)
      requires timer.size <= timer.items.Length && id in threads && threads[id].func in hist
      modifies this`threads, this`unuse, this`alloc, this`hist
      ensures S() == Store(old(S()), id)
      ensures |old(unuse)| < 10 ==>
                && unuse == old(unuse) + [id] && alloc == old(alloc)
                && threads == old(threads)[id := Thread(Unused, None, 0, 0, Val(0), 0)]
      ensures |old(unuse)| >= 10 ==> unuse == old(unuse) && threads == old(threads) - {id} && alloc == old(alloc) - 1
    {
      hide Timers;
      var f := threads[id].func;
      hist := hist[f := hist[f] - 1];
      if |unuse| < THREAD_UNUSED_DEPTH {
        threads := threads[id := BLANK];
        unuse := unuse + [id];
      } else {
        threads := threads - {id};
        alloc := alloc - 1;
      }
    }

    /** Gives a thread back: it was started, or cancelled. */
    method GiveBack(id: nat, cancelled: bool)
      requires timer.size <= timer.items.Length && id in threads && threads[id].func in hist
      modifies this`threads, this`unuse, this`alloc, this`hist, this`ledger, this`refs
      ensures S() == Retire(old(S()), id, cancelled)
    {
      hide Timers, Store;
      var t := threads[id];
      if t.ref.Some? {
        refs := refs - {t.ref.value};
      }
      ledger := if cancelled then ledger.(cancelled := ledger.cancelled + {t.task})
                else ledger.(started := ledger.started + {t.task});
      AddUnuse(id);
    }

    /** Cancels the events with the given argument. */
    method CancelEvents(arg: nat)
      requires Valid()
      modifies this`threads, this`unuse, this`alloc, this`hist, this`ledger, this`refs, this`event
      ensures Valid() && Spares(old(S()), S()) && ready == old(ready)
      ensures Swept(old(S()), old(event), arg, S(), event)
    {
      hide Inv, Spares, Sweeping, Swept, LookedAt, Rest;
      ghost var s := S();
      SweepBegins(s, s.event, arg);
      var k := 0;
      while k < |event|
        invariant timer.Valid() && ByDeadline(timer.cmp) && Inv(S()) && Spares(s, S()) && ready == s.ready
        invariant k <= |event| && Sweeping(s, s.event, arg, S(), event, k)
        decreases |event| - k
      {
        SweepEvents(s, S(), arg, k);
        if threads[event[k]].arg != arg {
          SweepPast(s, s.event, arg, S(), event, k);
          k := k + 1;
        } else {
          ghost var t := S();
          CancelEvent(k);
          SparesTransitive(s, t, S());
          SweepOne(s, s.event, arg, t, t.event, k, S());
        }
      }
      SweepDone(s, s.event, arg, S(), event);
    }

    method CancelEvent(k: nat)
      requires timer.size <= timer.items.Length && Inv(S()) && k < |event|
      modifies this`threads, this`unuse, this`alloc, this`hist, this`ledger, this`refs, this`event
      ensures S() == CancelEventAt(old(S()), k)
    {
      ghost var s := S();
      DetachEvent(s, k);
      var id := event[k];
      event := Drop(event, k);
      assert S() == s.(event := Drop(s.event, k));
      GiveBack(id, true);
    }

    /** Cancels the ready threads with the given argument. */
    method CancelReadies(arg: nat)
      requires Valid()
      modifies this`threads, this`unuse, this`alloc, this`hist, this`ledger, this`refs, this`ready
      ensures Valid() && Spares(old(S()), S()) && event == old(event)
      ensures Swept(old(S()), old(ready), arg, S(), ready)
    {
      hide Inv, Spares, Sweeping, Swept, LookedAt, Rest;
      ghost var s := S();
      SweepBegins(s, s.ready, arg);
      var k := 0;
      while k < |ready|
        invariant timer.Valid() && ByDeadline(timer.cmp) && Inv(S()) && Spares(s, S()) && event == s.event
        invariant k <= |ready| && Sweeping(s, s.ready, arg, S(), ready, k)
        decreases |ready| - k
      {
        SweepReadies(s, S(), arg, k);
        if threads[ready[k]].arg != arg {
          SweepPast(s, s.ready, arg, S(), ready, k);
          k := k + 1;
        } else {
          ghost var t := S();
          CancelReady(k);
          SparesTransitive(s, t, S());
          SweepOne(s, s.ready, arg, t, t.ready, k, S());
        }
      }
      SweepDone(s, s.ready, arg, S(), ready);
    }

    method CancelReady(k: nat)
      requires timer.size <= timer.items.Length && Inv(S()) && k < |ready|
      modifies this`threads, this`unuse, this`alloc, this`hist, this`ledger, this`refs, this`ready
      ensures S() == CancelReadyAt(old(S()), k)
    {
      ghost var s := S();
      DetachReady(s, k);
      var id := ready[k];
      ready := Drop(ready, k);
      assert S() == s.(ready := Drop(s.ready, k));
      GiveBack(id, true);
    }

    /** Cancels every event and ready thread with the given argument, and nothing
        else. */
    method CancelByArg(arg: nat)
      requires Valid()
      modifies this`threads, this`unuse, this`alloc, this`hist, this`ledger, this`refs, this`event, this`ready
      ensures Valid() && Spares(old(S()), S())
      ensures Swept(old(S()), old(event), arg, S(), event) && Swept(old(S()), old(ready), arg, S(), ready)
    {
      ghost var s := S();
      CancelEvents(arg);
      ghost var t := S();
      CancelReadies(arg);
      SparesTransitive(s, t, S());
      BothSwept(s, t, S(), arg);
    }

    /** Withdraws the poll request of a descriptor. */
    method ThreadCancelRw(fd: nat, flag: Flag)
      requires poll.count <= |poll.pfds| && poll.copycount <= |poll.copy|
      modifies this`poll
      ensures PosOf(old(poll), fd) < old(poll).count ==> poll == CancelAt(old(poll), PosOf(old(poll), fd), flag)
      ensures PosOf(old(poll), fd) == old(poll).count ==> poll == old(poll)
      ensures var p, i := old(poll), PosOf(old(poll), fd);
              i < p.count ==>
                && Lapsed(p.pfds, p.count, poll.pfds, poll.count, i, flag)
                && (if i < p.copycount then Lapsed(p.copy, p.copycount, poll.copy, poll.copycount, i, flag)
                    else poll.copy == p.copy && poll.copycount == p.copycount)
      ensures var p, i := old(poll), PosOf(old(poll), fd);
              i < p.count && (forall a, b | 0 <= a < b < p.count :: p.pfds[a].fd != p.pfds[b].fd) ==>
                && !Asks(poll, fd, flag) && !Asks(poll, fd, PollHup)
                && (forall g, f | g != fd || (f != flag && f != PollHup) :: Asks(poll, g, f) <==> Asks(p, g, f))
                && ((forall j | 0 <= j < poll.count && j < |poll.pfds| :: poll.pfds[j].fd != fd) <==>
                      forall f | f in p.pfds[i].events :: f == flag || f == PollHup)
    {
      hide Lapsed, Asks;
      var i := FindPoll(fd);
      if i < poll.count {
        ghost var p := poll;
        CancelExact(p.pfds, p.count, i, flag);
        if i < p.copycount {
          CancelExact(p.copy, p.copycount, i, flag);
        }
        poll := CancelAt(poll, i, flag);
        if forall a, b | 0 <= a < b < p.count :: p.pfds[a].fd != p.pfds[b].fd {
          LapsedExact(p, poll, i, fd, flag);
        }
      }
    }

    /** Takes a timer out of the queue at the position on record for it. */
    method RemoveTimer(entry: TimerEntry)
      requires timer.Valid() && entry in Timers()
      modifies timer`size, timer`index, timer.items
      ensures timer.Valid() && Timers() == old(Timers()) - {entry}
    {
      ghost var a := timer.Live();
      var k := timer.index[entry];
      assert 0 <= k < timer.size && timer.items[k] == entry;
      timer.RemoveAt(k);
      ShrunkSet(a, timer.Live(), entry);
    }

    /** Empties the slot of a reader or writer and withdraws its poll request. */
    method EmptySlot(kind: Kind, fd: nat)
      requires timer.size <= timer.items.Length && Polled(poll, read, write)
      requires fd in (if kind.Read? then read else write)
      modifies this`read, this`write, this`poll
      ensures S() == old(S()).(read := if kind.Read? then old(read) - {fd} else old(read),
                               write := if kind.Read? then old(write) else old(write) - {fd},
                               poll := Withdrawn(old(S()), fd, if kind.Read? then PollIn else PollOut))
    {
      hide Lapsed, Asks, Polled, Timers;
      WithinArrays(poll, read, write);
      PendingFound(poll, read, write, fd, PosOf(poll, fd));
      if kind.Read? {
        ThreadCancelRw(fd, PollIn);
        read := read - {fd};
      } else {
        ThreadCancelRw(fd, PollOut);
        write := write - {fd};
      }
    }

    /** Takes a thread out of its container. */
    method Extract(id: nat)
      requires Valid() && Cancellable(S(), id)
      modifies this`event, this`ready, this`read, this`write, this`poll, timer`size, timer`index, timer.items
      ensures timer.Valid() && S() == Uproot(old(S()), id)
    {
      InItsContainer(S(), id);
      hide Inv, Cancellable, Drop;
      var t := threads[id];
      if t.kind.Read? || t.kind.Write? {
        EmptySlot(t.kind, t.u.fd);
      } else if t.kind.Timer? {
        RemoveTimer(TimerEntry(t.u.sands, id));
      } else {
        ListDelete(t.kind, id);
      }
    }

    /** Cancels one thread of a batch, given the container variables carried over
        from the earlier requests.  They select the thread's own container exactly
        when no earlier request used one of higher rank. */
    method CancelTarget(id: nat, queue: bool, list: Option<Kind>) returns (ok: bool, queue': bool, list': Option<Kind>)
      requires Valid() && Cancellable(S(), id)
      modifies this`threads, this`unuse, this`alloc, this`hist, this`ledger, this`refs, this`event, this`ready, this`read,
               this`write, this`poll, timer`size, timer`index, timer.items
      ensures ok <==> Level(queue, list) <= Rank(old(threads[id].kind))
      ensures ok ==> timer.Valid() && S() == CancelThread(old(S()), id) && Level(queue', list') == Rank(old(threads[id].kind))
    {
      hide Inv, InvBut, Cancellable, Uproot;
      ghost var s := S();
      UprootKeeps(s, id);
      queue', list', ok := Select(threads[id].kind, queue, list);
      if ok {
        Extract(id);
        GiveBack(id, true);
      }
    }

    method ListDelete(kind: Kind, id: nat)
      requires timer.size <= timer.items.Length
      requires (kind.Event? && id in event) || (kind.Ready? && id in ready)
      modifies this`event, this`ready
      ensures S() == old(S()).(event := if kind.Event? then Drop(old(event), IndexOf(old(event), id)) else old(event),
                               ready := if kind.Event? then old(ready) else Drop(old(ready), IndexOf(old(ready), id)))
    {
      if kind.Event? {
        event := Drop(event, IndexOf(event, id));
      } else {
        ready := Drop(ready, IndexOf(ready, id));
      }
    }

    /** The thread a request names, if it is still there. */
    method NamedThread(cr: CancelReq) returns (id: Option<nat>)
      requires timer.size <= timer.items.Length
      ensures id == Target(S(), cr)
    {
      match cr
      case ByThread(i) => id := if i in threads && threads[i].Live() then Some(i) else None;
      case ByRef(r) => id := if r in refs then Some(refs[r]) else None;
      case ByArg(_) => id := None;
    }

    /** Serves one request of a batch that began in state `s` and has taken the
        threads in `gone`. */
    method ServeOne(cr: CancelReq, queue: bool, list: Option<Kind>, ghost s: State, ghost gone: set<nat>)
      returns (ok: bool, queue': bool, list': Option<Kind>)
      requires Valid() && Inv(s) && Served(s, S()) && Left(s, S(), gone) && Safe(s.executing, s.refs, cr)
      modifies this`threads, this`unuse, this`alloc, this`hist, this`ledger, this`refs, this`event, this`ready, this`read,
               this`write, this`poll, timer`size, timer`index, timer.items
      ensures ok <==> RankBut(s, gone, cr).None? || Level(queue, list) <= RankBut(s, gone, cr).value
      ensures ok ==> Valid() && Served(s, S()) && Left(s, S(), gone + Takes(s, cr))
      ensures ok ==> Level(queue', list') == if RankBut(s, gone, cr).Some? then RankBut(s, gone, cr).value else Level(queue, list)
    {
      hide Inv, Left, Served, Takes, Spares, Swept, RankBut, Safe, Target, Cancellable, Listed;
      ghost var t := S();
      AllListed(s);
      NamedCancellable(s, t, gone, cr);
      ok, queue', list' := true, queue, list;
      if cr.ByArg? {
        CancelByArg(cr.arg);
        TookArg(s, t, S(), gone, cr.arg);
        return;
      }
      var id := NamedThread(cr);
      if id.Some? {
        TookThread(s, t, gone, cr);
        ok, queue', list' := CancelTarget(id.value, queue, list);
      } else {
        LeftNothing(s, t, gone, cr);
      }
    }

    /** Serves request `i` of a batch that began in state `s`. */
    method ServeNext(reqs: seq<CancelReq>, i: nat, queue: bool, list: Option<Kind>, ghost s: State)
      returns (ok: bool, queue': bool, list': Option<Kind>)
      requires i < |reqs| && Valid() && Inv(s) && Served(s, S()) && Safe(s.executing, s.refs, reqs[i])
      requires Left(s, S(), TakenBy(s, reqs, i)) && InOrder(s, reqs, i) && Reached(s, reqs, i, Level(queue, list))
      modifies this`threads, this`unuse, this`alloc, this`hist, this`ledger, this`refs, this`event, this`ready, this`read,
               this`write, this`poll, timer`size, timer`index, timer.items
      ensures !ok ==> !InOrder(s, reqs, |reqs|)
      ensures ok ==> Valid() && Served(s, S()) && Left(s, S(), TakenBy(s, reqs, i + 1))
      ensures ok ==> InOrder(s, reqs, i + 1) && Reached(s, reqs, i + 1, Level(queue', list'))
    {
      hide Inv, Left, TakenBy, RankBut, Safe, Served, InOrder, Reached;
      OrderStep(s, reqs, i, Level(queue, list));
      TakenByNext(s, reqs, i);
      ok, queue', list' := ServeOne(reqs[i], queue, list, s, TakenBy(s, reqs, i));
    }

    /** Serves a batch from its beginning. */
    method ServeAll(reqs: seq<CancelReq>) returns (ok: bool)
      requires Valid() && !poll.polling && forall cr | cr in reqs :: Safe(executing, refs, cr)
      modifies this`threads, this`unuse, this`alloc, this`hist, this`ledger, this`refs, this`event, this`ready, this`read,
               this`write, this`poll, timer`size, timer`index, timer.items
      ensures ok <==> InOrder(old(S()), reqs, |reqs|)
      ensures ok ==> Valid() && Served(old(S()), S()) && Left(old(S()), S(), TakenBy(old(S()), reqs, |reqs|))
      ensures reqs == [] ==> S() == old(S()) && timer.size == old(timer.size)
    {
      hide Inv, Left, TakenBy, RankAt, Safe, Served, InOrder, Reached;
      ghost var s := S();
      LeftAll(s, reqs);
      if reqs == [] {
        return true;
      }
      var queue, list := false, None;
      var i := 0;
      while i < |reqs|
        invariant i <= |reqs| && Valid() && Served(s, S()) && Left(s, S(), TakenBy(s, reqs, i))
        invariant InOrder(s, reqs, i) && Reached(s, reqs, i, Level(queue, list))
      {
        var done;
        done, queue, list := ServeNext(reqs, i, queue, list, s);
        if !done {
          return false;
        }
        i := i + 1;
      }
      ok := true;
    }

    /** Serves the pending cancellation requests in order.  The whole batch is served
        exactly when the containers its requests work on never go down in rank, and
        then exactly the threads it names are gone. */
    method DoThreadCancel() returns (ok: bool)
      requires Valid() && !poll.polling && forall cr | cr in cancelReq :: Safe(executing, refs, cr)
      modifies this, timer`size, timer`index, timer.items
      ensures ok <==> InOrder(old(S()), old(cancelReq), |old(cancelReq)|)
      ensures ok ==> Valid() && cancelReq == [] && canceled
      ensures ok ==> Served(old(S()), S()) && Left(old(S()), S(), TakenBy(old(S()), old(cancelReq), |old(cancelReq)|))
      ensures old(cancelReq) == [] ==> S() == old(S()) && timer.size == old(timer.size)
    {
      hide Inv, Left, TakenBy, Safe, Served, InOrder;
      ok := ServeAll(cancelReq);
      if ok {
        ClearRequests();
      }
    }

    method ClearRequests()
      requires Valid()
      modifies this`cancelReq, this`canceled
      ensures Valid() && S() == old(S()) && cancelReq == [] && canceled
    {
      hide Inv;
      cancelReq, canceled := [], true;
    }

    // ---- making threads ready ----

    /** Moves the thread, already out of its container, to the ready list. */
    method MakeReady(id: nat)
      requires timer.size <= timer.items.Length && id in threads
      modifies this`threads, this`ready
      ensures S() == Readied(old(S()), id)
    {
      threads := threads[id := threads[id].(kind := Ready)];
      ready := ready + [id];
    }

    method PopEvent()
      requires Valid() && event != []
      modifies this`event, this`threads, this`ready
      ensures Valid() && Promoted(old(S()), S(), [old(event)[0]]) && event == old(event)[1..]
    {
      hide Inv;
      ghost var s := S();
      DetachEvent(s, 0);
      var id := event[0];
      event := event[1..];
      ghost var t := s.(event := Drop(s.event, 0));
      assert Drop(s.event, 0) == event;
      assert S() == t;
      ReadiedInv(t, id);
      PromotedOne(s, t, id);
      MakeReady(id);
    }

    /** Posts all events to the ready list, in order. */
    method ThreadProcess() returns (n: nat)
      requires Valid()
      modifies this`event, this`threads, this`ready
      ensures Valid() && n == |old(event)| && event == [] && Promoted(old(S()), S(), old(event))
    {
      hide Inv, Promoted, Timers;
      ghost var s, done := S(), [];
      n := 0;
      NonePromoted(s);
      while event != []
        invariant Valid() && Promoted(s, S(), done) && s.event == done + event && n == |done|
        decreases |event|
      {
        ghost var t, id := S(), event[0];
        Onward(done, event);
        PopEvent();
        PromotedMore(s, t, S(), done, [id]);
        done := done + [id];
        n := n + 1;
      }
      assert done == s.event;
    }

    method PopTimer() returns (e: TimerEntry)
      requires Valid() && timer.size > 0
      modifies this`threads, this`ready, timer`size, timer`index, timer.items
      ensures Valid() && e == old(timer.Live())[0] && e in old(Timers())
      ensures Promoted(old(S()), S(), [e.id]) && Timers() == old(Timers()) - {e} && timer.size == old(timer.size) - 1
    {
      hide Inv;
      ghost var s, a := S(), timer.Live();
      e := timer.Dequeue();
      ShrunkSet(a, timer.Live(), e);
      ghost var t := s.(timers := s.timers - {e});
      assert e in s.timers;
      DetachTimer(s, e);
      assert S() == t;
      ReadiedInv(t, e.id);
      PromotedOne(s, t, e.id);
      MakeReady(e.id);
    }

    /** Posts to the ready list exactly the timers whose deadline is not after `now`,
        earliest first; `moved` lists them. */
    method ThreadProcessTimers(now: int) returns (n: nat, ghost moved: seq<TimerEntry>)
      requires Valid()
      modifies this`threads, this`ready, timer`size, timer`index, timer.items
      ensures Valid() && n == |moved| && Promoted(old(S()), S(), Ids(moved))
      ensures forall e :: e in moved <==> e in old(Timers()) && e.sands <= now
      ensures forall i, j | 0 <= i < j < |moved| :: moved[i].sands <= moved[j].sands && moved[i] != moved[j]
      ensures forall e :: e in Timers() <==> e in old(Timers()) && now < e.sands
    {
      hide Inv;
      ghost var s := S();
      n, moved := 0, [];
      assert s.ready + [] == s.ready;
      while timer.size > 0
        invariant Valid() && Promoted(s, S(), Ids(moved)) && n == |moved|
        invariant Expired(s.timers, moved, Timers(), now)
        decreases timer.size
      {
        FirstTimer();
        if now < timer.items[0].sands {
          break;
        }
        ghost var t := S();
        var e := PopTimer();
        PromotedMore(s, t, S(), Ids(moved), [e.id]);
        ExpiredMore(s.timers, moved, t.timers, now, e);
        IdsSnoc(moved, e);
        moved := moved + [e];
        n := n + 1;
      }
    }

    /** Answers one event of entry `i`. */
    method IoHelper(kind: Kind, i: nat)
      requires Valid() && poll.polling && i < poll.copycount
      modifies this`threads, this`ready, this`read, this`write, this`poll
      ensures Valid() && S() == IoStep(old(S()), kind, i)
    {
      assert i < |poll.copy| && i < |poll.pfds| && SlotsExact(threads, read, Read, None)
          && SlotsExact(threads, write, Write, None);
      hide Inv, IoStep;
      IoStepInv(S(), kind, i);
      AnswerOne(kind, i);
    }

    method AnswerOne(kind: Kind, i: nat)
      requires timer.size <= timer.items.Length && i < |poll.copy| && i < |poll.pfds|
      requires SlotsExact(threads, read, Read, None) && SlotsExact(threads, write, Write, None)
      modifies this`threads, this`ready, this`read, this`write, this`poll
      ensures S() == IoStep(old(S()), kind, i)
    {
      var fd := poll.copy[i].fd;
      poll := ClearAt(poll, i, if kind.Read? then PollIn else PollOut);
      if kind.Read? && fd in read {
        var id := read[fd];
        read := read - {fd};
        MakeReady(id);
      } else if !kind.Read? && fd in write {
        var id := write[fd];
        write := write - {fd};
        MakeReady(id);
      }
    }

    /** Answers the events reported for entry `i`. */
    method IoEntry(i: nat) returns (ghost ids: seq<nat>)
      requires Valid() && poll.polling && i < poll.copycount
      modifies this`threads, this`ready, this`read, this`write, this`poll
      ensures Valid() && Promoted(old(S()), S(), ids)
      ensures poll.copy == old(poll).copy && poll.copycount == old(poll).copycount && poll.polling && i < |old(poll).pfds|
      ensures var q := old(poll).pfds[i];
              poll == old(poll).(pfds := old(poll).pfds[i := q.(events := q.events - Delivered(old(poll).copy[i].revents))])
      ensures var e := old(poll).copy[i];
              var inn, out := e.revents * {PollIn, PollHup} != {}, e.revents * {PollOut} != {};
              && read == (if inn then old(read) - {e.fd} else old(read))
              && write == (if out then old(write) - {e.fd} else old(write))
              && ids == (if inn && e.fd in old(read) then [old(read)[e.fd]] else [])
                        + (if out && e.fd in old(write) then [old(write)[e.fd]] else [])
    {
      hide IoStep, Inv, Delivered, Promoted, ClearAt, Timers;
      CopyFits(S());
      SlotsFit(S());
      ghost var s := S();
      var e := poll.copy[i];
      ClearedEntry(poll, i, e.revents);
      NonePromoted(s);
      ids := [];
      if e.revents * {PollIn, PollHup} != {} {
        ids := IoStepPromotes(S(), Read, i);
        IoHelper(Read, i);
      }
      ghost var t := S();
      SlotsFit(t);
      ClearSame(s.poll, i, PollIn);
      if e.revents * {PollOut} != {} {
        ghost var more := IoStepPromotes(S(), Write, i);
        IoHelper(Write, i);
        PromotedMore(s, t, S(), ids, more);
        ids := ids + more;
      } else {
        assert ids + [] == ids;
      }
    }

    /** Answers entry `i` after `moved` were made ready for the entries before it. */
    method IoNext(i: nat, ghost s: State, ghost moved: seq<nat>) returns (active: bool, ghost moved': seq<nat>)
      requires Valid() && poll.polling && i < poll.copycount && poll.copycount <= |poll.copy|
      requires poll.copycount == s.poll.copycount && poll.copy == s.poll.copy && Promoted(s, S(), moved)
      requires Answered(s, S(), i, moved)
      requires Cleared(s.poll, poll, i) && forall j | 0 <= j < i :: s.poll.copy[j].fd != s.poll.copy[i].fd
      modifies this`threads, this`ready, this`read, this`write, this`poll
      ensures Valid() && poll.polling && poll.copycount == s.poll.copycount && poll.copy == s.poll.copy
      ensures active <==> s.poll.copy[i].revents != {}
      ensures Promoted(s, S(), moved') && Answered(s, S(), i + 1, moved') && Cleared(s.poll, poll, i + 1)
    {
      hide Inv, Promoted, Answered;
      CopyFits(S());
      active := poll.copy[i].revents != {};
      ghost var t := S();
      if active {
        ghost var ids := IoEntry(i);
        moved' := moved + ids;
        PromotedMore(s, t, S(), moved, ids);
        AnsweredStep(s, t, S(), i, moved, ids);
      } else {
        moved' := moved;
        assert moved + [] == moved;
        assert Delivered({}) == {} && poll.pfds[i].events - {} == poll.pfds[i].events;
        AnsweredStep(s, t, t, i, moved, []);
      }
    }

    /** Answers what poll reported, `num` being the number of entries with something
        reported: every thread waiting for a reported event becomes ready, in the
        order of the entries, and no other does. */
    method ThreadProcessIo(num: nat) returns (ghost moved: seq<nat>)
      requires Valid() && poll.polling && num == Actives(poll, 0)
      modifies this`threads, this`ready, this`read, this`write, this`poll
      ensures Valid() && poll.polling && Promoted(old(S()), S(), moved) && old(poll).copycount <= |old(poll).copy|
      ensures Answered(old(S()), S(), old(poll).copycount, moved) && Cleared(old(poll), poll, old(poll).copycount)
    {
      hide Inv, Promoted, Answered;
      ghost var s := S();
      CopyFits(s);
      CopyDistinct(s.poll, read, write);
      moved := [];
      NonePromoted(s);
      AnsweredNone(s);
      var done, i := 0, 0;
      while i < poll.copycount && done < num
        invariant i <= poll.copycount == s.poll.copycount <= |s.poll.copy| && poll.copy == s.poll.copy && poll.polling && Valid()
        invariant done + Actives(s.poll, i) == num
        invariant Promoted(s, S(), moved) && Answered(s, S(), i, moved) && Cleared(s.poll, poll, i)
      {
        var active;
        active, moved := IoNext(i, s, moved);
        if active {
          done := done + 1;
        }
        i := i + 1;
      }
      AnsweredRest(s, S(), i, moved);
      ClearedRest(s.poll, poll, i);
    }

    // ---- fetching ----

    /** Hands the first ready thread to the caller and gives its structure back. */
    method PopReady() returns (fetch: Thread)
      requires Valid() && ready != []
      modifies this`threads, this`unuse, this`alloc, this`hist, this`ledger, this`refs, this`ready
      ensures Valid() && old(ready[0]) in old(threads) && fetch == old(threads[ready[0]]) && fetch.task in LiveTasks(old(threads))
      ensures fetch.func in old(hist) && S() == Retire(old(S()).(ready := old(ready)[1..]), old(ready[0]), false)
    {
      ghost var s := S();
      assert ready[0] in ready;
      hide Inv;
      DetachReady(s, 0);
      var id := ready[0];
      fetch := threads[id];
      assert fetch.task in LiveTasks(threads);
      ready := ready[1..];
      assert Drop(s.ready, 0) == ready;
      assert S() == s.(ready := Drop(s.ready, 0));
      RetireInv(S(), id, false);
      GiveBack(id, false);
    }

    /** Posts events, then dies when there is nothing ready, no timer and no poll
        entry, or hands the poll array to poll. */
    method BeforePoll() returns (o: Outcome)
      requires Valid() && !poll.polling && ready == []
      modifies this`event, this`threads, this`ready, this`poll
      ensures Valid() && !o.Fetched? && !o.Misdirected?
      ensures event == [] && Promoted(old(S()), S(), old(event))
      ensures o.Die? <==> old(event) == [] && old(timer.size) == 0 && old(poll).count == 0
      ensures o.Die? ==> forall id | id in threads && threads[id].Live() :: id in executing
      ensures |old(poll).copy| == |old(poll).pfds| && old(poll).count <= |old(poll).pfds|
      ensures poll == if o.Polling? then Snapshot(old(poll)) else old(poll)
    {
      hide Inv;
      CopyFits(S());
      var _ := ThreadProcess();
      if ready == [] && timer.size == 0 && poll.count == 0 {
        NothingLeft(S());
        return Die;
      }
      PollRoom(S());
      assert poll.count + 1 < |poll.pfds|;
      StartPoll();
      return Polling;
    }

    method StartPoll()
      requires Valid()
      modifies this`poll
      ensures |old(poll).copy| == |old(poll).pfds| && old(poll).count <= |old(poll).pfds|
      ensures poll == Snapshot(old(poll)) && Valid()
    {
      SnapshotPolled(poll, read, write);
      PollOnly(S(), Snapshot(poll));
      hide Inv;
      ghost var s := S();
      poll := Snapshot(poll);
      assert S() == s.(poll := poll);
    }

    /** The first half of a fetch, up to the call of poll: the pending cancellations are
        served, which gives `mid`, and then a ready thread is fetched at once.  What is
        fetched was never started or cancelled before. */
    method FetchBegin() returns (o: Outcome, ghost mid: State)
      requires Valid() && !poll.polling && forall cr | cr in cancelReq :: Safe(executing, refs, cr)
      modifies this, timer`size, timer`index, timer.items
      ensures o.Misdirected? <==> !InOrder(old(S()), old(cancelReq), |old(cancelReq)|)
      ensures !o.Misdirected? ==>
                && Valid() && cancelReq == [] && Inv(mid) && Begun(mid, o, S())
                && Served(old(S()), mid) && Left(old(S()), mid, TakenBy(old(S()), old(cancelReq), |old(cancelReq)|))
      ensures old(cancelReq) == [] ==> mid == old(S())
      ensures o.Fetched? ==>
                o.thread.task !in mid.ledger.started && o.thread.task !in ledger.cancelled && o.thread.task < ledger.next
      ensures o.Die? ==> forall id | id in threads && threads[id].Live() :: id in executing
      ensures !o.Misdirected? ==>
                && (o.Fetched? <==> mid.ready != [])
                && (o.Die? <==> mid.ready == [] && mid.event == [] && mid.timers == {} && mid.poll.count == 0)
      ensures o.Fetched? ==> mid.ready[0] in mid.threads && o.thread == mid.threads[mid.ready[0]] && ready == mid.ready[1..]
      ensures o.Polling? ==> ready == mid.event && event == []
      ensures o.Polling? ==>
                && poll.polling && poll.pfds == mid.poll.pfds && poll.count == mid.poll.count == poll.copycount <= |poll.copy|
                && poll.count <= |poll.pfds| && (forall i | 0 <= i < poll.copycount :: poll.copy[i] == poll.pfds[i])
                && (forall fd | fd in read :: Shown(poll, fd, PollIn)) && (forall fd | fd in write :: Shown(poll, fd, PollOut))
    {
      hide Inv, Left, TakenBy, InOrder, Safe, Snapshot, Shown, LiveTasks, Timers;
      mid := S();
      var ok := DoThreadCancel();
      if !ok {
        return Misdirected, mid;
      }
      mid := S();
      if ready != [] {
        var fetch := PopReady();
        StartedOnce(mid, S(), fetch.task);
        return Fetched(fetch), mid;
      }
      NoTimers();
      CopyFits(mid);
      SnapshotExact(poll, read, write);
      o := BeforePoll();
    }

    lemma NoTimers()
      requires timer.size <= timer.items.Length
      ensures timer.size == 0 <==> Timers() == {}
    {
      if timer.size > 0 {
        assert timer.Live()[0] in Timers();
      } else {
        assert timer.Live() == [];
      }
    }

    method SetPoll(p: Poll)
      requires Valid() && Polled(p, read, write)
      modifies this`poll
      ensures Valid() && poll == p
    {
      PollOnly(S(), p);
      hide Inv;
      ghost var s := S();
      poll := p;
      assert S() == s.(poll := p);
    }

    /** Posts due timers, then answers what poll reported. */
    method AfterPoll(now: int) returns (ghost due: seq<TimerEntry>, ghost moved: seq<nat>)
      requires Valid() && poll.polling && poll.copycount <= |poll.copy|
      modifies this`threads, this`ready, this`read, this`write, this`poll, timer`size, timer`index, timer.items
      ensures Valid() && poll.polling && Promoted(old(S()), S(), Ids(due) + moved)
      ensures Expired(old(Timers()), due, Timers(), now) && forall e | e in Timers() :: now < e.sands
      ensures Answered(old(S()), S(), old(poll).copycount, moved) && Cleared(old(poll), poll, old(poll).copycount)
    {
      hide Inv, Promoted, Answered, Ids, Cleared;
      ghost var s := S();
      var n;
      n, due := ThreadProcessTimers(now);
      ghost var t := S();
      moved := ThreadProcessIo(Actives(poll, 0));
      PromotedMore(s, t, S(), Ids(due), moved);
      AnsweredAlike(s, t, S(), S(), s.poll.copycount, moved);
    }

    /** The second half of a fetch, after poll found `f(fd)` for each descriptor of
        the copy, or failed.  Due timers become ready, then exactly the threads
        whose descriptor reported their event; other threads may have added work
        since the copy was made, and lose nothing. */
    method FetchEnd(f: nat -> set<Flag>, failed: bool, now: int) returns (ghost due: seq<TimerEntry>, ghost moved: seq<nat>)
      requires Valid() && poll.polling
      modifies this`threads, this`ready, this`read, this`write, this`poll, timer`size, timer`index, timer.items
      ensures Valid() && Ended(old(S()), f, failed, now, S(), due, moved)
      ensures !failed ==> Woken(old(S()), f, now, S())
    {
      hide Inv, Promoted, Answered, Polled, Cleared, Woken;
      ghost var s := S();
      CopyFits(s);
      ReportedPolled(poll, f, read, write);
      SetPoll(Reported(poll, f));
      ghost var t := S();
      due, moved := [], [];
      NonePromoted(t);
      if !failed {
        due, moved := AfterPoll(now);
      }
      ghost var r := S();
      EndPoll();
      PromotedAlike(t, s, r, S(), Ids(due) + moved);
      if !failed {
        AnsweredAlike(t, t, r, S(), s.poll.copycount, moved);
        ClearedEnd(t.poll, r.poll, s.poll.copycount);
        EndedExact(s, f, now, S(), due, moved);
      }
    }

    method EndPoll()
      requires Valid()
      modifies this`poll
      ensures Valid() && poll == old(poll).(polling := false)
    {
      PollOver(poll, read, write);
      SetPoll(poll.(polling := false));
    }

    // ---- direct execution ----

    /** Takes a structure for a function about to be called directly. */
    method ExecuteBegin(func: nat, arg: nat, val: int, spare: nat) returns (id: nat)
      requires Valid() && spare !in threads
      modifies this`threads, this`unuse, this`alloc, this`hist, this`ledger, this`refs, this`executing
      ensures Valid() && id == GetId(old(S()), spare) && id !in old(executing)
      ensures S() == Enlist(old(S()), spare, Thread(Event, None, func, arg, Val(val), old(ledger.next)))
                     .(executing := old(executing) + {id})
    {
      hide Inv;
      ghost var s, th := S(), Thread(Event, None, func, arg, Val(val), ledger.next);
      EnlistInv(s, spare, th);
      EnlistThreads(s, spare, th);
      id := Enroll(Event, None, func, arg, Val(val), spare);
      ghost var e := S();
      executing := executing + {id};
      assert S() == e.(executing := e.executing + {id});
      AttachExecuting(e, id);
    }

    /** The call is over: the structure is given back. */
    method ExecuteEnd(id: nat)
      requires Valid() && id in executing
      modifies this`threads, this`unuse, this`alloc, this`hist, this`ledger, this`refs, this`executing
      ensures Valid() && id in old(threads) && old(threads[id]).func in old(hist)
      ensures S() == Retire(old(S()).(executing := old(executing) - {id}), id, false)
    {
      ghost var s := S();
      hide Inv;
      DetachExecuting(s, id);
      executing := executing - {id};
      assert S() == s.(executing := s.executing - {id});
      RetireInv(S(), id, false);
      GiveBack(id, false);
    }

    /** Another thread asks for a cancellation, to be served at the next fetch. */
    method PostCancel(cr: CancelReq)
      requires Valid()
      modifies this`cancelReq, this`canceled
      ensures Valid() && S() == old(S()) && cancelReq == old(cancelReq) + [cr] && !canceled
    {
      hide Inv;
      cancelReq, canceled := cancelReq + [cr], false;
    }

    /** The owner cancels a thread or an argument at once, serving what else is
        pending first. */
    method CancelNow(cr: CancelReq) returns (ok: bool)
      requires Valid() && !poll.polling && forall x | x in cancelReq + [cr] :: Safe(executing, refs, x)
      modifies this, timer`size, timer`index, timer.items
      ensures ok <==> InOrder(old(S()), old(cancelReq) + [cr], |old(cancelReq)| + 1)
      ensures ok ==> Valid() && cancelReq == [] && canceled && Served(old(S()), S())
      ensures ok ==> Left(old(S()), S(), TakenBy(old(S()), old(cancelReq) + [cr], |old(cancelReq)| + 1))
    {
      hide Inv, Left, TakenBy, InOrder;
      PostCancel(cr);
      ok := DoThreadCancel();
    }

    /** The first timer of the queue is due no later than any other. */
    lemma FirstTimer()
      requires timer.Valid() && ByDeadline(timer.cmp) && timer.size > 0
      ensures timer.items[0] in Timers() && forall e | e in Timers() :: timer.items[0].sands <= e.sands
    {
      forall e | e in timer.Live()
        ensures timer.items[0].sands <= e.sands
      {
        var k :| 0 <= k < timer.size && timer.items[k] == e;
        PQ.RootIsLeast(timer.cmp, timer.Live(), k);
      }
      assert timer.Live()[0] in timer.Live();
    }
  }

  /** How the first half of a fetch ends; `Misdirected` is a batch of cancellations that
      went wrong. */
  datatype Outcome = Fetched(thread: Thread) | Die | Polling | Misdirected

  /** What a fetch without pending cancellations makes of `mid` before it polls: the
      first ready thread is fetched, or all events become ready and the array is handed
      to poll; with nothing at all to wait for the fetch gives up. */
  ghost predicate Begun(mid: State, o: Outcome, r: State) {
    if mid.ready != [] then
      && o.Fetched? && mid.ready[0] in mid.threads && o.thread == mid.threads[mid.ready[0]] && o.thread.func in mid.hist
      && r == Retire(mid.(ready := mid.ready[1..]), mid.ready[0], false)
    else
      && (o.Die? || o.Polling?) && (o.Die? <==> mid.event == [] && mid.timers == {} && mid.poll.count == 0)
      && Promoted(mid, r, mid.event) && r.event == [] && r.read == mid.read && r.write == mid.write && r.timers == mid.timers
      && |mid.poll.copy| == |mid.poll.pfds| && mid.poll.count <= |mid.poll.pfds|
      && r.poll == if o.Polling? then Snapshot(mid.poll) else mid.poll
  }

  /** What a fetch makes of `s` after poll found `f(fd)` for each descriptor of the copy:
      the timers `due` and then the threads `moved` become ready; a poll that failed
      changes nothing. */
  ghost predicate Ended(s: State, f: nat -> set<Flag>, failed: bool, now: int, r: State, due: seq<TimerEntry>, moved: seq<nat>) {
    && s.poll.copycount <= |s.poll.copy| && !r.poll.polling && r.event == s.event && Promoted(s, r, Ids(due) + moved)
    && var p := Reported(s.poll, f);
       if failed then
         && due == [] && moved == [] && r.read == s.read && r.write == s.write && r.timers == s.timers
         && r.poll == p.(polling := false)
       else
         && Expired(s.timers, due, r.timers, now) && (forall e | e in r.timers :: now < e.sands)
         && Answered(s.(poll := p), r, s.poll.copycount, moved) && Cleared(p.(polling := false), r.poll, s.poll.copycount)
  }

  /** Poll was asked about `fd` and found input or a hang-up. */
  ghost predicate Readable(s: State, f: nat -> set<Flag>, fd: nat) {
    InCopy(s.poll, fd) && (PollIn in f(fd) || PollHup in f(fd))
  }

  /** Poll was asked about `fd` and found room. */
  ghost predicate Writable(s: State, f: nat -> set<Flag>, fd: nat) {
    InCopy(s.poll, fd) && PollOut in f(fd)
  }

  ghost predicate InCopy(p: Poll, fd: nat) {
    exists i | 0 <= i < p.copycount && i < |p.copy| :: p.copy[i].fd == fd
  }

  /** What poll found and the time make of `s`: exactly the readers with input or a
      hang-up, the writers with room and the timers that are due become ready and leave
      their places, and exactly what was found is no longer asked for. */
  ghost predicate Woken(s: State, f: nat -> set<Flag>, now: int, r: State) {
    && s.ready <= r.ready
    && (forall fd | fd in s.read :: if Readable(s, f, fd) then s.read[fd] in r.ready && fd !in r.read else fd in r.read)
    && (forall fd | fd in s.write :: if Writable(s, f, fd) then s.write[fd] in r.ready && fd !in r.write else fd in r.write)
    && (forall e | e in s.timers :: if e.sands <= now then e.id in r.ready && e !in r.timers else e in r.timers)
    && (forall id | id in r.ready && id !in s.ready ::
          || (exists e | e in s.timers :: e.id == id && e.sands <= now)
          || (exists fd | fd in s.read :: s.read[fd] == id && Readable(s, f, fd))
          || (exists fd | fd in s.write :: s.write[fd] == id && Writable(s, f, fd)))
    && AsksLess(s.poll, f, r.poll)
  }

  /** Entry by entry, exactly what was found for the copy is no longer asked for. */
  ghost predicate AsksLess(p: Poll, f: nat -> set<Flag>, q: Poll) {
    && |q.pfds| == |p.pfds| && q.count == p.count && p.copycount <= |p.copy|
    && forall i | 0 <= i < |p.pfds| ::
         && q.pfds[i].fd == p.pfds[i].fd
         && forall flag :: flag in q.pfds[i].events <==>
              && flag in p.pfds[i].events
              && (i < p.copycount && flag.PollIn? ==> PollIn !in f(p.copy[i].fd) && PollHup !in f(p.copy[i].fd))
              && (i < p.copycount && flag.PollOut? ==> PollOut !in f(p.copy[i].fd))
  }

  lemma EndedExact(s: State, f: nat -> set<Flag>, now: int, r: State, due: seq<TimerEntry>, moved: seq<nat>)
    requires Ended(s, f, false, now, r, due, moved)
    ensures Woken(s, f, now, r)
  {
    hide Ended, Readable, Writable, AsksLess;
    EndedTimers(s, f, now, r, due, moved);
    EndedIo(s, f, now, r, due, moved);
    EndedAsks(s, f, now, r, due, moved);
  }

  lemma EndedTimers(s: State, f: nat -> set<Flag>, now: int, r: State, due: seq<TimerEntry>, moved: seq<nat>)
    requires Ended(s, f, false, now, r, due, moved)
    ensures s.ready <= r.ready && forall id | id in r.ready && id !in s.ready :: id in Ids(due) || id in moved
    ensures forall e | e in s.timers :: if e.sands <= now then e.id in r.ready && e !in r.timers else e in r.timers
    ensures forall id | id in Ids(due) :: exists e | e in s.timers :: e.id == id && e.sands <= now
  {
    hide Answered, Cleared, Reported;
    forall e | e in s.timers
      ensures if e.sands <= now then e.id in r.ready && e !in r.timers else e in r.timers
    {
      IdsMember(due, e.id);
      assert e in due || e in r.timers;
    }
    forall id | id in Ids(due)
      ensures exists e | e in s.timers :: e.id == id && e.sands <= now
    {
      IdsMember(due, id);
      var e :| e in due && e.id == id;
    }
  }

  lemma {:induction false} IdsMember(due: seq<TimerEntry>, id: nat)
    ensures id in Ids(due) <==> exists e | e in due :: e.id == id
  {
    if due != [] {
      IdsMember(due[1..], id);
      assert due == [due[0]] + due[1..];
      assert due[0] in due;
    }
  }

  lemma FoundSignals(s: State, f: nat -> set<Flag>, fd: nat)
    requires s.poll.copycount <= |s.poll.copy|
    ensures var p, n := Reported(s.poll, f), s.poll.copycount;
            && (Signalled(p, n, fd, {PollIn, PollHup}) <==> Readable(s, f, fd))
            && (Signalled(p, n, fd, {PollOut}) <==> Writable(s, f, fd))
  {
    var p, n, v := Reported(s.poll, f), s.poll.copycount, f(fd);
    assert PollIn in v || PollHup in v ==> (if PollIn in v then PollIn else PollHup) in v * {PollIn, PollHup};
    assert PollOut in v ==> PollOut in v * {PollOut};
    forall i | 0 <= i < n
      ensures p.copy[i].fd == s.poll.copy[i].fd && p.copy[i].revents == f(s.poll.copy[i].fd)
    {
    }
  }

  lemma EndedIo(s: State, f: nat -> set<Flag>, now: int, r: State, due: seq<TimerEntry>, moved: seq<nat>)
    requires Ended(s, f, false, now, r, due, moved)
    ensures forall fd | fd in s.read :: if Readable(s, f, fd) then s.read[fd] in r.ready && fd !in r.read else fd in r.read
    ensures forall fd | fd in s.write :: if Writable(s, f, fd) then s.write[fd] in r.ready && fd !in r.write else fd in r.write
    ensures forall id | id in moved ::
              || (exists fd | fd in s.read :: s.read[fd] == id && Readable(s, f, fd))
              || (exists fd | fd in s.write :: s.write[fd] == id && Writable(s, f, fd))
  {
    hide Readable, Writable, Signalled, Signals, Reported, Expired, Cleared, Ids;
    forall fd
      ensures var p, n := Reported(s.poll, f), s.poll.copycount;
              && (Signalled(p, n, fd, {PollIn, PollHup}) <==> Readable(s, f, fd))
              && (Signalled(p, n, fd, {PollOut}) <==> Writable(s, f, fd))
    {
      FoundSignals(s, f, fd);
    }
    forall id | id in moved
      ensures || (exists fd | fd in s.read :: s.read[fd] == id && Readable(s, f, fd))
              || (exists fd | fd in s.write :: s.write[fd] == id && Writable(s, f, fd))
    {
      if Waited(s.read, r.read, id) {
        var fd :| fd in s.read && fd !in r.read && s.read[fd] == id;
      } else {
        var fd :| fd in s.write && fd !in r.write && s.write[fd] == id;
      }
    }
  }

  lemma EndedAsks(s: State, f: nat -> set<Flag>, now: int, r: State, due: seq<TimerEntry>, moved: seq<nat>)
    requires Ended(s, f, false, now, r, due, moved)
    ensures AsksLess(s.poll, f, r.poll)
  {
    hide Answered, Promoted, Expired, Ids, Delivered;
    forall i, flag | 0 <= i < s.poll.copycount
      ensures var v := f(s.poll.copy[i].fd);
              flag in Delivered(v) <==> (flag.PollIn? && (PollIn in v || PollHup in v)) || (flag.PollOut? && PollOut in v)
    {
      DeliveredExact(f(s.poll.copy[i].fd), flag);
    }
  }

  lemma DeliveredExact(v: set<Flag>, flag: Flag)
    ensures flag in Delivered(v) <==> (flag.PollIn? && (PollIn in v || PollHup in v)) || (flag.PollOut? && PollOut in v)
  {
    if PollIn in v || PollHup in v {
      assert (if PollIn in v then PollIn else PollHup) in v * {PollIn, PollHup};
    }
    if PollOut in v {
      assert PollOut in v * {PollOut};
    }
  }

  lemma ClearedEnd(p: Poll, q: Poll, n: nat)
    requires n <= |p.copy| && Cleared(p, q, n)
    ensures Cleared(p.(polling := false), q.(polling := false), n)
  {
  }

  lemma Onward(done: seq<nat>, list: seq<nat>)
    requires list != []
    ensures done + list == done + [list[0]] + list[1..]
  {
  }

  lemma WithinArrays(p: Poll, read: map<nat, nat>, write: map<nat, nat>)
    requires Polled(p, read, write)
    ensures p.count <= |p.pfds| && p.copycount <= |p.copy|
  {
  }

  lemma InItsContainer(s: State, id: nat)
    requires Cancellable(s, id)
    ensures id in s.threads && !s.threads[id].kind.Unused? && Polled(s.poll, s.read, s.write)
    ensures var t := s.threads[id];
            && (t.kind.Read? ==> t.u.Fd? && t.u.fd in s.read) && (t.kind.Write? ==> t.u.Fd? && t.u.fd in s.write)
            && (t.kind.Timer? ==> t.u.Sands? && TimerEntry(t.u.sands, id) in s.timers)
            && (t.kind.Event? ==> id in s.event) && (t.kind.Ready? ==> id in s.ready)
  {
  }

  lemma SlotsFit(s: State)
    requires Inv(s)
    ensures SlotsExact(s.threads, s.read, Read, None) && SlotsExact(s.threads, s.write, Write, None)
    ensures |s.poll.copy| == |s.poll.pfds| && s.poll.copycount <= |s.poll.copy|
  {
  }

  lemma ClearSame(p: Poll, i: nat, flag: Flag)
    requires i < |p.pfds|
    ensures var q := ClearAt(p, i, flag); q == p.(pfds := q.pfds) && |q.pfds| == |p.pfds|
  {
  }

  lemma SweepBegins(s: State, all: seq<nat>, arg: nat)
    requires Inv(s) && (all == s.event || all == s.ready)
    ensures Spares(s, s) && Sweeping(s, all, arg, s, all, 0)
  {
    assert all[0..] == all && all[..0] == [];
  }

  lemma SweepEvents(s0: State, s: State, arg: nat, k: nat)
    requires Inv(s) && Spares(s0, s) && k < |s.event| && Sweeping(s0, s0.event, arg, s, s.event, k)
    ensures s.event[k] in s.threads && s.event[k] in s0.threads && s.threads[s.event[k]] == s0.threads[s.event[k]]
  {
    assert s.event[k] in s.event;
  }

  lemma SweepReadies(s0: State, s: State, arg: nat, k: nat)
    requires Inv(s) && Spares(s0, s) && k < |s.ready| && Sweeping(s0, s0.ready, arg, s, s.ready, k)
    ensures s.ready[k] in s.threads && s.ready[k] in s0.threads && s.threads[s.ready[k]] == s0.threads[s.ready[k]]
  {
    assert s.ready[k] in s.ready;
  }

  lemma AllListed(s: State)
    requires Inv(s)
    ensures Listed(s)
  {
  }

  /** While polling, the entries of the copy are of different descriptors. */
  lemma CopyDistinct(p: Poll, read: map<nat, nat>, write: map<nat, nat>)
    requires Polled(p, read, write) && p.polling
    ensures |p.copy| == |p.pfds| && p.copycount <= |p.copy|
    ensures forall i, j | 0 <= i < j < p.copycount :: p.copy[i].fd != p.copy[j].fd
  {
  }

  /** A scheduling that starts was live until then. */
  lemma StartedOnce(s: State, r: State, task: nat)
    requires Inv(s) && Inv(r) && task in LiveTasks(s.threads)
    requires r.ledger == s.ledger.(started := s.ledger.started + {task})
    ensures task !in s.ledger.started && task !in r.ledger.cancelled && task < s.ledger.next
  {
    assert task in LiveTasks(s.threads) + s.ledger.started + s.ledger.cancelled;
  }

  /** Without ready threads, events, timers and poll entries nothing is scheduled. */
  lemma NothingLeft(s: State)
    requires Inv(s) && s.ready == [] && s.event == [] && s.timers == {} && s.poll.count == 0
    ensures forall id | id in s.threads && s.threads[id].Live() :: id in s.executing
  {
    forall fd
      ensures fd !in s.read && fd !in s.write
    {
      assert !Watched(s.poll, fd, PollIn) && !Watched(s.poll, fd, PollOut);
    }
  }

  lemma NonePromoted(s: State)
    ensures Promoted(s, s, [])
  {
    assert s.ready + [] == s.ready;
  }

  ghost function Ids(moved: seq<TimerEntry>): (r: seq<nat>)
    ensures |r| == |moved|
  {
    if moved == [] then [] else [moved[0].id] + Ids(moved[1..])
  }

  lemma {:induction false} IdsSnoc(moved: seq<TimerEntry>, e: TimerEntry)
    ensures Ids(moved + [e]) == Ids(moved) + [e.id]
  {
    if moved != [] {
      IdsSnoc(moved[1..], e);
      assert (moved + [e])[1..] == moved[1..] + [e];
    }
  }

  /** `moved` are timers that were due, earliest first, and `left` the others, none
      earlier than any moved. */
  ghost predicate Expired(all: set<TimerEntry>, moved: seq<TimerEntry>, left: set<TimerEntry>, now: int) {
    && (forall e :: e in all <==> e in moved || e in left)
    && (forall e | e in moved :: e !in left && e.sands <= now && forall f | f in left :: e.sands <= f.sands)
    && (forall i, j | 0 <= i < j < |moved| :: moved[i].sands <= moved[j].sands && moved[i] != moved[j])
  }

  lemma ExpiredMore(all: set<TimerEntry>, moved: seq<TimerEntry>, left: set<TimerEntry>, now: int, e: TimerEntry)
    requires Expired(all, moved, left, now) && e in left && e.sands <= now
    requires forall f | f in left :: e.sands <= f.sands
    ensures Expired(all, moved + [e], left - {e}, now)
  {
    var more := moved + [e];
    assert more[|moved|] == e;
    assert forall x :: x in more <==> x in moved || x == e;
    forall i | 0 <= i < |moved|
      ensures moved[i].sands <= e.sands && moved[i] != e
    {
      assert moved[i] in moved;
    }
  }

  lemma NoTimerYet(s: State, id: nat, sands: int)
    requires InvBut(s, id)
    ensures TimerEntry(sands, id) !in s.timers
  {
  }

  lemma CopyFits(s: State)
    requires Inv(s)
    ensures s.poll.copycount <= |s.poll.copy| && Polled(s.poll, s.read, s.write)
  {
  }

  /** What remains to be done once a thread is out of its container. */
  lemma UprootKeeps(s: State, id: nat)
    requires Cancellable(s, id)
    ensures id in s.threads && !s.threads[id].kind.Unused? && s.threads[id].func in s.hist
    ensures Uproot(s, id).threads == s.threads && Uproot(s, id).hist == s.hist
    ensures CancelThread(s, id) == Retire(Uproot(s, id), id, true)
  {
  }

  lemma NamedCancellable(s: State, t: State, gone: set<nat>, cr: CancelReq)
    requires Inv(s) && Inv(t) && Served(s, t) && Left(s, t, gone) && Safe(s.executing, s.refs, cr)
    ensures Target(t, cr) == if Target(s, cr).Some? && Target(s, cr).value !in gone then Target(s, cr) else None
    ensures Target(t, cr).None? ==> RankBut(s, gone, cr).None?
    ensures cr.ByArg? ==> Target(t, cr).None?
    ensures Target(t, cr).Some? ==> Cancellable(t, Target(t, cr).value) &&
                                    RankBut(s, gone, cr) == Some(Rank(t.threads[Target(t, cr).value].kind))
  {
    TargetLeft(s, t, gone, cr);
  }

  /** Sets the container variable of a thread's type.  The queue is used if it was
      ever set, else the list, else the slot array: that is the thread's own
      container or not. */
  method Select(kind: Kind, queue: bool, list: Option<Kind>) returns (queue': bool, list': Option<Kind>, own: bool)
    requires !kind.Unused?
    ensures own <==> Level(queue, list) <= Rank(kind)
    ensures own ==> Level(queue', list') == Rank(kind)
  {
    queue' := queue || kind.Timer?;
    list' := if kind.Event? || kind.Ready? then Some(kind) else list;
    if queue' {
      own := kind.Timer?;
    } else if list'.Some? {
      own := kind.Event? || kind.Ready?;
    } else {
      own := true;
    }
  }

  /** The highest rank of container that the carried-over variables select. */
  function Level(queue: bool, list: Option<Kind>): nat {
    if queue then 2 else if list.Some? then 1 else 0
  }

  /** Sweeping the ready list after the event list amounts to sweeping both. */
  lemma BothSwept(s: State, t: State, r: State, arg: nat)
    requires Inv(s) && Inv(t) && Spares(s, t) && Spares(t, r)
    requires Swept(s, s.event, arg, t, t.event) && t.ready == s.ready && r.event == t.event
    requires Swept(t, t.ready, arg, r, r.ready)
    ensures Swept(s, s.event, arg, r, r.event) && Swept(s, s.ready, arg, r, r.ready)
  {
    forall i | i in t.ready
      ensures i in s.threads && i in t.threads && t.threads[i] == s.threads[i]
    {
    }
    RestAlike(s.ready, Having(s, arg), Having(t, arg));
  }

  function Wanted(dir: Kind): Flag {
    if dir.Read? then PollIn else PollOut
  }

  function Housing(s: State, dir: Kind, fd: nat, id: nat): State
    requires s.poll.count <= |s.poll.pfds| && PosOf(s.poll, fd) < |s.poll.pfds|
  {
    var p := AddAt(s.poll, PosOf(s.poll, fd), fd, Wanted(dir));
    if dir.Read? then s.(read := s.read[fd := id], poll := p) else s.(write := s.write[fd := id], poll := p)
  }

  lemma HousingInv(s: State, dir: Kind, fd: nat, id: nat)
    requires InvBut(s, id) && s.threads[id].kind == dir && s.threads[id].u == Fd(fd) && (dir.Read? || dir.Write?)
    requires fd !in (if dir.Read? then s.read else s.write) && fd < |s.poll.pfds| && fd != s.poll.ear && fd != s.poll.mouth
    requires s.poll.count <= |s.poll.pfds| && PosOf(s.poll, fd) + 1 < |s.poll.pfds|
    ensures Inv(Housing(s, dir, fd, id))
  {
    var i := PosOf(s.poll, fd);
    var p := AddAt(s.poll, i, fd, Wanted(dir));
    AddPolled(s.poll, i, fd, Wanted(dir), s.read, s.write);
    if dir.Read? {
      AttachRead(s, id, fd, p);
    } else {
      AttachWrite(s, id, fd, p);
    }
  }
}
