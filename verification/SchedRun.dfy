/** Whole runs of a thread master. */
module SchedRun {
  import opened Wrappers
  import opened Lists
  import opened SchedState
  import opened SchedSteps
  import opened SchedPoll
  import opened SchedCancel
  import opened SchedReady
  import opened Scheduler

  /** One operation on a master.  `spare` is the address the allocator would return;
      `Polled` is the return of poll, and `Return` that of a function executed
      directly, which may itself schedule, cancel and execute. */
  datatype Op =
    | Event(func: nat, arg: nat, val: int, ref: Option<nat>, spare: nat)
    | Timer(func: nat, arg: nat, sands: int, ref: Option<nat>, spare: nat)
    | Io(dir: Kind, func: nat, arg: nat, fd: nat, ref: Option<nat>, spare: nat)
    | Cancel(cr: CancelReq)
    | Post(cr: CancelReq)
    | Execute(func: nat, arg: nat, val: int, spare: nat)
    | Return(id: nat)
    | Fetch
    | Polled(f: nat -> set<Flag>, failed: bool, now: int)

  /** A master between two operations: its state and the pending cancellations. */
  datatype Snap = Snap(s: State, reqs: seq<CancelReq>)

  /** The caller may do this now: addresses are free, slots are empty or the reference
      is in use, and only the owner, when not polling, cancels, executes and fetches.
      What is being executed directly is not cancelled. */
  predicate Allowed(a: Snap, op: Op) {
    match op
    case Event(_, _, _, _, spare) => spare !in a.s.threads
    case Timer(_, _, _, _, spare) => spare !in a.s.threads
    case Io(dir, _, _, fd, ref, spare) =>
      && spare !in a.s.threads && (dir.Read? || dir.Write?)
      && fd < |a.s.poll.pfds| && fd != a.s.poll.ear && fd != a.s.poll.mouth
      && (InUse(a, ref) || fd !in (if dir.Read? then a.s.read else a.s.write))
    case Cancel(cr) => !a.s.poll.polling && forall x | x in a.reqs + [cr] :: Safe(a.s.executing, a.s.refs, x)
    case Post(_) => true
    case Execute(_, _, _, spare) => spare !in a.s.threads && !a.s.poll.polling
    case Return(id) => id in a.s.executing
    case Fetch => !a.s.poll.polling && forall x | x in a.reqs :: Safe(a.s.executing, a.s.refs, x)
    case Polled(_, _, _) => a.s.poll.polling
  }

  predicate InUse(a: Snap, ref: Option<nat>) {
    ref.Some? && ref.value in a.s.refs
  }

  /** Nothing keeps the owner or another thread from these. */
  lemma MayAlways(a: Snap, func: nat, arg: nat, val: int, ref: Option<nat>, spare: nat, fd: nat, id: nat, cr: CancelReq,
                  f: nat -> set<Flag>, failed: bool)
    requires spare !in a.s.threads
    ensures Allowed(a, Op.Event(func, arg, val, ref, spare)) && Allowed(a, Op.Timer(func, arg, val, ref, spare))
    ensures Allowed(a, Post(cr))
    ensures fd < |a.s.poll.pfds| && fd != a.s.poll.ear && fd != a.s.poll.mouth ==>
              && (fd !in a.s.read || InUse(a, ref) ==> Allowed(a, Io(Read, func, arg, fd, ref, spare)))
              && (fd !in a.s.write || InUse(a, ref) ==> Allowed(a, Io(Write, func, arg, fd, ref, spare)))
    ensures a.s.poll.polling ==> Allowed(a, Polled(f, failed, val))
    ensures !a.s.poll.polling ==> Allowed(a, Execute(func, arg, val, spare))
    ensures !a.s.poll.polling && a.s.executing == {} ==> Allowed(a, Fetch) && Allowed(a, Cancel(cr))
    ensures id in a.s.executing ==> Allowed(a, Return(id))
  {
  }

  /** The batch of cancellations the operation serves, if any, is in order. */
  ghost predicate Goes(a: Snap, op: Op) {
    match op
    case Cancel(cr) => InOrder(a.s, a.reqs + [cr], |a.reqs| + 1)
    case Fetch => InOrder(a.s, a.reqs, |a.reqs|)
    case _ => true
  }

  /** The state after the batch was served: exactly the threads it names are gone. */
  ghost predicate Cancelled(a: Snap, reqs: seq<CancelReq>, t: State) {
    Inv(t) && Served(a.s, t) && Left(a.s, t, TakenBy(a.s, reqs, |reqs|)) && (reqs == [] ==> t == a.s)
  }

  /** What one operation makes of `a`; `got` is what it fetches. */
  ghost predicate Next(a: Snap, op: Op, b: Snap, got: Option<nat>) {
    match op
    case Event(func, arg, val, ref, spare) =>
      && got.None? && b.reqs == a.reqs
      && b.s == if InUse(a, ref) then a.s
                else Enlist(a.s, spare, Thread(Kind.Event, ref, func, arg, Val(val), a.s.ledger.next))
                     .(event := a.s.event + [GetId(a.s, spare)])
    case Timer(func, arg, sands, ref, spare) =>
      && got.None? && b.reqs == a.reqs
      && b.s == if InUse(a, ref) then a.s
                else Enlist(a.s, spare, Thread(Kind.Timer, ref, func, arg, Sands(sands), a.s.ledger.next))
                     .(timers := a.s.timers + {TimerEntry(sands, GetId(a.s, spare))})
    case Io(dir, func, arg, fd, ref, spare) =>
      && got.None? && b.reqs == a.reqs && a.s.poll.count <= |a.s.poll.pfds| && PosOf(a.s.poll, fd) < |a.s.poll.pfds|
      && b.s == if InUse(a, ref) then a.s
                else Housing(Enlist(a.s, spare, Thread(dir, ref, func, arg, Fd(fd), a.s.ledger.next)), dir, fd, GetId(a.s, spare))
    case Cancel(cr) => got.None? && b.reqs == [] && Cancelled(a, a.reqs + [cr], b.s)
    case Post(cr) => got.None? && b == Snap(a.s, a.reqs + [cr])
    case Execute(func, arg, val, spare) =>
      && got.None? && b.reqs == a.reqs
      && b.s == Enlist(a.s, spare, Thread(Kind.Event, None, func, arg, Val(val), a.s.ledger.next))
                .(executing := a.s.executing + {GetId(a.s, spare)})
    case Return(id) =>
      && got.None? && b.reqs == a.reqs && id in a.s.threads && a.s.threads[id].func in a.s.hist
      && b.s == Retire(a.s.(executing := a.s.executing - {id}), id, false)
    case Fetch =>
      && b.reqs == []
      && exists mid, o ::
           Cancelled(a, a.reqs, mid) && Begun(mid, o, b.s) && got == if o.Fetched? then Some(o.thread.task) else None
    case Polled(f, failed, now) =>
      got.None? && b.reqs == a.reqs && exists due, moved :: Ended(a.s, f, failed, now, b.s, due, moved)
  }

  /** Operations the caller may not do are skipped. */
  ghost predicate Took(a: Snap, op: Op, b: Snap, got: Option<nat>) {
    if Allowed(a, op) then Goes(a, op) && Next(a, op, b, got) else b == a && got.None?
  }

  /** The state but for the timers, which `Allowed` does not look at. */
  function Outline(m: ThreadMaster): Snap
    reads m
  {
    Snap(State(m.threads, m.read, m.write, {}, m.event, m.ready, m.unuse, m.executing, m.refs, m.hist, m.alloc, m.poll, m.ledger),
         m.cancelReq)
  }

  ghost function Now(m: ThreadMaster): Snap
    requires m.timer.size <= m.timer.items.Length
    reads m, m.timer, m.timer.items
  {
    Snap(m.S(), m.cancelReq)
  }

  /** Starting goes on, and what is fetched starts now. */
  ghost predicate Started(a: Ledger, b: Ledger, got: Option<nat>) {
    a.started <= b.started && (got.Some? ==> got.value !in a.started && got.value in b.started)
  }

  /** Scheduling, by the owner or another thread. */
  method Add(m: ThreadMaster, op: Op)
    requires m.Valid() && (op.Event? || op.Timer? || op.Io?) && Allowed(Outline(m), op)
    modifies m, m.timer, m.timer.items
    ensures m.Valid() && (m.timer.items == old(m.timer.items) || fresh(m.timer.items))
    ensures Next(old(Now(m)), op, Now(m), None) && m.ledger.started == old(m.ledger).started
  {
    hide Inv, Enlist;
    ghost var a := Now(m);
    EnlistStarts(a, op);
    var r;
    match op
    case Event(func, arg, val, ref, spare) => r := m.AddEvent(func, arg, val, ref, spare);
    case Timer(func, arg, sands, ref, spare) => r := m.AddTimer(func, arg, sands, ref, spare);
    case Io(_, _, _, _, _, _) => AddIo(m, op);
  }

  method AddIo(m: ThreadMaster, op: Op)
    requires m.Valid() && op.Io? && Allowed(Outline(m), op)
    modifies m, m.timer, m.timer.items
    ensures m.Valid() && m.timer.items == old(m.timer.items)
    ensures Next(old(Now(m)), op, Now(m), None) && m.ledger.started == old(m.ledger).started
  {
    hide Inv, Enlist;
    EnlistStarts(Now(m), op);
    CopyFits(m.S());
    RoomForMore(m.poll, m.read, m.write, op.fd);
    var r := m.AddReadWrite(op.dir, op.func, op.arg, op.fd, op.ref, op.spare);
  }

  lemma EnlistStarts(a: Snap, op: Op)
    ensures forall spare, th ::
              Enlist(a.s, spare, th).ledger.started == a.s.ledger.started && Enlist(a.s, spare, th).poll == a.s.poll
  {
  }

  /** One operation of the owner or of another thread.  It goes wrong exactly when the
      batch of cancellations it serves is not in order. */
  method Step(m: ThreadMaster, op: Op) returns (ok: bool, got: Option<nat>)
    requires m.Valid() && Allowed(Outline(m), op)
    modifies m, m.timer, m.timer.items
    ensures m.timer.items == old(m.timer.items) || fresh(m.timer.items)
    ensures ok <==> Goes(old(Now(m)), op)
    ensures ok ==> m.Valid() && Next(old(Now(m)), op, Now(m), got) && Started(old(m.ledger), m.ledger, got)
  {
    hide Inv, Left, TakenBy, InOrder, Enlist, Begun, Ended, Safe;
    ghost var a := Now(m);
    ok, got := true, None;
    match op
    case Cancel(cr) =>
      ok := m.CancelNow(cr);
    case Post(cr) => m.PostCancel(cr);
    case Execute(func, arg, val, spare) =>
      EnlistStarts(a, op);
      var id := m.ExecuteBegin(func, arg, val, spare);
    case Return(id) =>
      m.ExecuteEnd(id);
    case Fetch =>
      ok, got := DoFetch(m);
    case Polled(f, failed, now) =>
      var due, moved := m.FetchEnd(f, failed, now);
      EndedBooks(a.s, f, failed, now, m.S(), due, moved);
    case _ => Add(m, op);
  }

  method DoFetch(m: ThreadMaster) returns (ok: bool, got: Option<nat>)
    requires m.Valid() && Allowed(Outline(m), Fetch)
    modifies m, m.timer, m.timer.items
    ensures m.timer.items == old(m.timer.items)
    ensures ok <==> Goes(old(Now(m)), Fetch)
    ensures ok ==> m.Valid() && Next(old(Now(m)), Fetch, Now(m), got) && Started(old(m.ledger), m.ledger, got)
  {
    hide Inv, Left, TakenBy, InOrder, Begun, Safe;
    var o, mid := m.FetchBegin();
    ok := !o.Misdirected?;
    got := if o.Fetched? then Some(o.thread.task) else None;
    if ok {
      BegunBooks(mid, o, m.S());
    }
  }

  lemma BegunBooks(mid: State, o: Outcome, r: State)
    requires Begun(mid, o, r)
    ensures r.ledger.started == mid.ledger.started + if o.Fetched? then {o.thread.task} else {}
  {
  }

  lemma EndedBooks(s: State, f: nat -> set<Flag>, failed: bool, now: int, r: State, due: seq<TimerEntry>, moved: seq<nat>)
    requires Ended(s, f, failed, now, r, due, moved)
    ensures r.ledger == s.ledger
  {
  }

  /** What was fetched, in order. */
  ghost function Fetches(gots: seq<Option<nat>>): seq<nat> {
    if gots == [] then []
    else
      var last := gots[|gots| - 1];
      Fetches(gots[..|gots| - 1]) + if last.Some? then [last.value] else []
  }

  /** A run so far: each state comes from the one before by the operation done. */
  ghost predicate Traced(ops: seq<Op>, trace: seq<Snap>, gots: seq<Option<nat>>) {
    && |trace| == |gots| + 1 && |gots| <= |ops|
    && (forall i | 0 <= i < |gots| :: Took(trace[i], ops[i], trace[i + 1], gots[i]))
    && (forall i | 0 <= i < |trace| :: Inv(trace[i].s))
  }

  lemma TracedMore(ops: seq<Op>, trace: seq<Snap>, gots: seq<Option<nat>>, b: Snap, got: Option<nat>)
    requires Traced(ops, trace, gots) && |gots| < |ops| && Took(trace[|gots|], ops[|gots|], b, got) && Inv(b.s)
    ensures Traced(ops, trace + [b], gots + [got])
    ensures Fetches(gots + [got]) == Fetches(gots) + if got.Some? then [got.value] else []
  {
    hide Took, Inv;
    assert (gots + [got])[..|gots|] == gots;
    var t, g := trace + [b], gots + [got];
    forall i | 0 <= i < |g|
      ensures Took(t[i], ops[i], t[i + 1], g[i])
    {
    }
  }

  /** A master just made. */
  ghost predicate New(a: Snap, fdLimit: nat) {
    && a.reqs == [] && a.s.threads == map[] && a.s.refs == map[] && a.s.hist == map[] && a.s.alloc == 0 && a.s.timers == {}
    && a.s.event == [] && a.s.ready == [] && a.s.unuse == [] && a.s.executing == {} && a.s.read == map[] && a.s.write == map[]
    && a.s.ledger == Ledger(0, {}, {}) && |a.s.poll.pfds| == fdLimit && a.s.poll.count == 0 && !a.s.poll.polling
  }

  /** Every run of a new master, operation by operation.  It stops early exactly at an
      operation whose batch of cancellations is not in order.  Schedulings are numbered
      in the order they are made; each is fetched at most once, none is both started and
      cancelled, and none is lost. */
  method Run(fdLimit: nat, ear: nat, mouth: nat, ops: seq<Op>)
    returns (m: ThreadMaster, ok: bool, log: seq<nat>, ghost trace: seq<Snap>, ghost gots: seq<Option<nat>>)
    requires ear < fdLimit && mouth < fdLimit && ear != mouth
    ensures Traced(ops, trace, gots) && New(trace[0], fdLimit) && log == Fetches(gots)
    ensures ok <==> |gots| == |ops|
    ensures (forall op | op in ops :: !op.Post?) ==> ok
    ensures !ok ==> Allowed(trace[|gots|], ops[|gots|]) && !Goes(trace[|gots|], ops[|gots|])
    ensures ok ==> m.Valid() && trace[|gots|] == Now(m)
    ensures Distinct(log) && forall t | t in log :: t in trace[|gots|].s.ledger.started
    ensures ok ==> forall t | t in log :: t !in m.ledger.cancelled && t !in LiveTasks(m.threads)
    ensures ok ==> forall t | 0 <= t < m.ledger.next ::
                     t in LiveTasks(m.threads) || t in m.ledger.started || t in m.ledger.cancelled
  {
    hide Inv, Next, Allowed, Goes, Traced, Fetches;
    m := new ThreadMaster(fdLimit, ear, mouth);
    m.NoTimers();
    ok, log, trace, gots := true, [], [Now(m)], [];
    TracedNone(ops, trace[0]);
    var i := 0;
    while i < |ops|
      invariant i <= |ops| && fresh(m) && fresh(m.timer) && fresh(m.timer.items) && m.Valid()
      invariant |gots| == i && |trace| == i + 1 && trace[i] == Now(m) && New(trace[0], fdLimit)
      invariant Traced(ops, trace, gots) && log == Fetches(gots) && Distinct(log) && forall t | t in log :: t in m.ledger.started
    {
      AllowedOutline(m, ops[i]);
      var got := None;
      if Allowed(Outline(m), ops[i]) {
        PendingNone(ops, trace, gots, i);
        ok, got := Step(m, ops[i]);
        if !ok {
          return;
        }
      }
      TracedMore(ops, trace, gots, Now(m), got);
      trace, gots := trace + [Now(m)], gots + [got];
      if got.Some? {
        log := log + [got.value];
      }
      i := i + 1;
    }
    Accounted(m.S());
  }

  lemma AllowedOutline(m: ThreadMaster, op: Op)
    requires m.timer.size <= m.timer.items.Length
    ensures Allowed(Outline(m), op) <==> Allowed(Now(m), op)
  {
  }

  lemma TracedNone(ops: seq<Op>, a: Snap)
    requires Inv(a.s)
    ensures Traced(ops, [a], []) && Fetches([]) == []
  {
  }

  /** A run without cancellations by other threads never stops early. */
  lemma {:induction false} NothingPending(ops: seq<Op>, trace: seq<Snap>, gots: seq<Option<nat>>, i: nat)
    requires Traced(ops, trace, gots) && trace[0].reqs == [] && i <= |gots| && forall op | op in ops :: !op.Post?
    ensures trace[i].reqs == [] && (i < |ops| ==> Goes(trace[i], ops[i]))
  {
    hide Next, Goes, Inv;
    if i > 0 {
      NothingPending(ops, trace, gots, i - 1);
      assert Took(trace[i - 1], ops[i - 1], trace[i - 1 + 1], gots[i - 1]) && ops[i - 1] in ops;
      NonePosted(trace[i - 1], ops[i - 1], trace[i], gots[i - 1]);
    }
    if i < |ops| {
      AloneGoes(trace[i], ops[i]);
    }
  }

  // ---- no pending reader or writer is forgotten ----

  /** While poll waits its copy stays, and nobody who waits is lost. */
  ghost predicate Waits(a: State, b: State) {
    && b.poll.polling && b.poll.copy == a.poll.copy && b.poll.copycount == a.poll.copycount
    && (forall fd | fd in a.read :: fd in b.read && b.read[fd] == a.read[fd])
    && (forall fd | fd in a.write :: fd in b.write && b.write[fd] == a.write[fd])
  }

  lemma WaitsStep(a: Snap, op: Op, b: Snap, got: Option<nat>)
    requires Took(a, op, b, got) && a.s.poll.polling && !op.Polled?
    ensures Waits(a.s, b.s)
  {
    hide Inv, Cancelled, Begun, Ended, Goes, Enlist, Housing, Retire;
    EnlistSlots(a.s);
    if op.Io? && Allowed(a, op) && !InUse(a, op.ref) {
      HousingSlots(Enlist(a.s, op.spare, Thread(op.dir, op.ref, op.func, op.arg, Fd(op.fd), a.s.ledger.next)), op.dir, op.fd,
                   GetId(a.s, op.spare));
    }
    if op.Return? && Allowed(a, op) {
      RetireSlots(a.s.(executing := a.s.executing - {op.id}), op.id);
    }
  }

  lemma HousingSlots(s: State, dir: Kind, fd: nat, id: nat)
    requires s.poll.count <= |s.poll.pfds| && PosOf(s.poll, fd) < |s.poll.pfds| && s.poll.polling
    requires fd !in if dir.Read? then s.read else s.write
    ensures Waits(s, Housing(s, dir, fd, id))
  {
  }

  lemma RetireSlots(s: State, id: nat)
    requires id in s.threads && s.threads[id].func in s.hist && s.poll.polling
    ensures Waits(s, Retire(s, id, false))
  {
  }

  lemma EnlistSlots(s: State)
    ensures forall spare, th :: var r := Enlist(s, spare, th); r.poll == s.poll && r.read == s.read && r.write == s.write
  {
  }

  lemma {:induction false} WaitsOn(ops: seq<Op>, trace: seq<Snap>, gots: seq<Option<nat>>, i: nat, j: nat)
    requires Traced(ops, trace, gots) && i <= j < |trace| && trace[i].s.poll.polling && forall k | i <= k < j :: !ops[k].Polled?
    ensures Waits(trace[i].s, trace[j].s)
    decreases j - i
  {
    hide Took, Inv;
    if i < j {
      WaitsOn(ops, trace, gots, i, j - 1);
      assert Took(trace[j - 1], ops[j - 1], trace[j - 1 + 1], gots[j - 1]);
      WaitsStep(trace[j - 1], ops[j - 1], trace[j], gots[j - 1]);
    }
  }

  /** A fetch that polls asks for everything pending. */
  lemma FetchShows(a: Snap, b: Snap, got: Option<nat>)
    requires Took(a, Fetch, b, got) && !a.s.poll.polling && b.s.poll.polling
    ensures forall fd | fd in b.s.read || fd in b.s.write :: InCopy(b.s.poll, fd)
  {
    hide Inv, Left, TakenBy;
    var mid, o :| Cancelled(a, a.reqs, mid) && Begun(mid, o, b.s);
    CopyFits(mid);
    SnapshotExact(mid.poll, mid.read, mid.write);
  }

  /** In every run, between a fetch that polls and the return of poll: whoever waited when
      the fetch began to poll and is found to have input, or room, is ready afterwards,
      whatever other threads scheduled or posted in between. */
  lemma PendingAnswered(ops: seq<Op>, trace: seq<Snap>, gots: seq<Option<nat>>, i: nat, j: nat, f: nat -> set<Flag>, now: int)
    requires Traced(ops, trace, gots) && i < j < |gots| && ops[i].Fetch? && ops[j] == Polled(f, false, now)
    requires !trace[i].s.poll.polling && trace[i + 1].s.poll.polling && forall k | i < k < j :: !ops[k].Polled?
    ensures forall fd | fd in trace[i + 1].s.read && (PollIn in f(fd) || PollHup in f(fd)) ::
              trace[i + 1].s.read[fd] in trace[j + 1].s.ready
    ensures forall fd | fd in trace[i + 1].s.write && PollOut in f(fd) :: trace[i + 1].s.write[fd] in trace[j + 1].s.ready
  {
    hide Inv, Goes, Ended, Woken;
    var a, b, c := trace[i + 1].s, trace[j].s, trace[j + 1].s;
    assert Took(trace[i], ops[i], trace[i + 1], gots[i]) && Took(trace[j], ops[j], trace[j + 1], gots[j]);
    FetchShows(trace[i], trace[i + 1], gots[i]);
    WaitsOn(ops, trace, gots, i + 1, j);
    var due, moved :| Ended(b, f, false, now, c, due, moved);
    EndedExact(b, f, now, c, due, moved);
    StillAsked(a, b, f, now, c);
  }

  lemma StillAsked(a: State, b: State, f: nat -> set<Flag>, now: int, c: State)
    requires Waits(a, b) && Woken(b, f, now, c) && forall fd | fd in a.read || fd in a.write :: InCopy(a.poll, fd)
    ensures forall fd | fd in a.read && (PollIn in f(fd) || PollHup in f(fd)) :: a.read[fd] in c.ready
    ensures forall fd | fd in a.write && PollOut in f(fd) :: a.write[fd] in c.ready
  {
    forall fd | InCopy(a.poll, fd)
      ensures InCopy(b.poll, fd)
    {
    }
  }

  lemma PendingNone(ops: seq<Op>, trace: seq<Snap>, gots: seq<Option<nat>>, i: nat)
    requires Traced(ops, trace, gots) && trace[0].reqs == [] && i <= |gots| && i < |ops|
    ensures (forall op | op in ops :: !op.Post?) ==> Goes(trace[i], ops[i])
  {
    hide Traced, Goes;
    if forall op | op in ops :: !op.Post? {
      NothingPending(ops, trace, gots, i);
    }
  }

  lemma NonePosted(a: Snap, op: Op, b: Snap, got: Option<nat>)
    requires a.reqs == [] && !op.Post?
    ensures Next(a, op, b, got) ==> b.reqs == []
  {
    hide Begun, Ended, Cancelled, Housing, Enlist;
  }

  /** One cancellation alone is in order. */
  lemma AloneGoes(a: Snap, op: Op)
    requires a.reqs == []
    ensures Goes(a, op)
  {
    hide RankAt;
  }

  lemma Accounted(s: State)
    requires Inv(s)
    ensures s.ledger.started !! s.ledger.cancelled && LiveTasks(s.threads) !! s.ledger.started
    ensures forall t | 0 <= t < s.ledger.next :: t in LiveTasks(s.threads) || t in s.ledger.started || t in s.ledger.cancelled
  {
    hide LiveTasks;
    forall t: nat | t < s.ledger.next
      ensures t in LiveTasks(s.threads) || t in s.ledger.started || t in s.ledger.cancelled
    {
      assert t in LiveTasks(s.threads) + s.ledger.started + s.ledger.cancelled;
    }
  }

  // ---- where promises fail ----

  lemma Descends(s: State)
    requires 0 in s.refs && 1 in s.refs && s.refs[0] in s.threads && s.refs[1] in s.threads && s.refs[0] != s.refs[1]
    requires s.threads[s.refs[0]].kind.Timer? && s.threads[s.refs[1]].kind.Event?
    ensures !InOrder(s, [ByRef(0), ByRef(1)], 2)
  {
    var reqs := [ByRef(0), ByRef(1)];
    assert RankAt(s, reqs, 0) == Some(2) && RankAt(s, reqs, 1) == Some(1);
  }

  method OneTimer() returns (m: ThreadMaster)
    ensures fresh(m) && fresh(m.timer) && fresh(m.timer.items)
    ensures m.Valid() && !m.poll.polling && m.executing == {} && m.cancelReq == [] && m.unuse == []
    ensures m.refs == map[0 := 0] && m.threads.Keys == {0} && m.threads[0].kind.Timer?
  {
    hide Inv;
    m := new ThreadMaster(8, 3, 4);
    var r := m.AddTimer(0, 0, 10, Some(0), 0);
  }

  /** A batch that goes from the timer queue to the event list goes wrong. */
  method DescendingBatch() returns (o: Outcome)
    ensures o.Misdirected?
  {
    hide Inv, InOrder;
    var m := OneTimer();
    var r := m.AddEvent(0, 0, 0, Some(1), 1);
    assert m.refs == map[0 := 0, 1 := 1] && m.threads[0].kind.Timer? && m.threads[1].kind.Event?;
    Descends(m.S());
    m.PostCancel(ByRef(0));
    m.PostCancel(ByRef(1));
    assert m.cancelReq == [ByRef(0), ByRef(1)];
    ghost var mid;
    o, mid := m.FetchBegin();
  }

  /** Nothing but one reader of descriptor 5 is scheduled, or was. */
  ghost predicate Alone(s: State, polling: bool, reading: bool, ready: seq<nat>) {
    && s.threads.Keys == {0} && s.executing == {} && s.unuse == (if reading || ready != [] then [] else [0])
    && s.event == [] && s.ready == ready && s.timers == {} && s.write == map[]
    && s.read == (if reading then map[5 := 0] else map[])
    && |s.poll.copy| == |s.poll.pfds| == 8 && s.poll.count == 1 && s.poll.pfds[0].fd == 5
    && s.poll.polling == polling && (polling ==> s.poll.copycount == 1 && s.poll.copy[0].fd == 5)
  }

  method Reader() returns (m: ThreadMaster)
    ensures fresh(m) && fresh(m.timer) && fresh(m.timer.items) && m.Valid() && m.cancelReq == [] && Alone(m.S(), false, true, [])
  {
    hide Inv;
    m := new ThreadMaster(8, 3, 4);
    m.NoTimers();
    CopyFits(m.S());
    var r := m.AddReadWrite(Read, 7, 0, 5, None, 0);
  }

  lemma AloneBegins(s: State, o: Outcome, r: State, reading: bool)
    requires Alone(s, false, reading, []) && Begun(s, o, r)
    ensures o.Polling? && Alone(r, true, reading, []) && r.threads == s.threads
  {
    assert s.ready + [] == [];
  }

  lemma AloneEnds(s: State, r: State, due: seq<TimerEntry>, moved: seq<nat>)
    requires Alone(s, true, true, []) && Ended(s, _ => {PollIn}, false, 0, r, due, moved)
    ensures Alone(r, false, false, [0])
  {
    var p := Reported(s.poll, _ => {PollIn});
    var t := s.(poll := p);
    assert p.copy[0].revents == {PollIn} && p.copy[0].fd == 5;
    assert {PollIn} * {PollIn, PollHup} == {PollIn} && {PollIn} * {PollOut} == {};
    assert Signals(t, 0) == [];
    assert Signals(t, 1) == [0];
    assert Signalled(p, 1, 5, {PollIn, PollHup});
    assert due == [] && r.timers == {} by {
      forall e
        ensures e !in due && e !in r.timers
      {
        assert e !in s.timers;
      }
    }
    assert Ids([]) + [0] == [0] && s.ready + [0] == [0];
  }

  lemma AloneFetched(s: State, o: Outcome, r: State)
    requires Alone(s, false, false, [0]) && Begun(s, o, r)
    ensures o.Fetched? && Alone(r, false, false, []) && r.threads == map[0 := BLANK]
  {
    assert s.ready[1..] == [];
  }

  /** A fetch without pending cancellations. */
  method PlainFetch(m: ThreadMaster) returns (o: Outcome)
    requires m.Valid() && !m.poll.polling && m.cancelReq == []
    modifies m, m.timer, m.timer.items
    ensures m.Valid() && m.cancelReq == [] && m.timer.items == old(m.timer.items) && Begun(old(m.S()), o, m.S())
  {
    hide Inv, Begun, Left, TakenBy, Served;
    AloneGoes(Now(m), Fetch);
    ghost var mid;
    o, mid := m.FetchBegin();
  }

  /** A reader of descriptor 5 that ran. */
  method ReaderRan() returns (m: ThreadMaster)
    ensures fresh(m) && fresh(m.timer) && fresh(m.timer.items) && m.Valid() && m.cancelReq == []
    ensures Alone(m.S(), false, false, []) && m.threads == map[0 := BLANK]
  {
    hide Inv, Begun, Ended;
    m := Reader();
    ghost var s := m.S();
    var o := PlainFetch(m);
    AloneBegins(s, o, m.S(), true);
    s := m.S();
    var due, moved := m.FetchEnd(_ => {PollIn}, false, 0);
    AloneEnds(s, m.S(), due, moved);
    s := m.S();
    o := PlainFetch(m);
    AloneFetched(s, o, m.S());
  }

  /** With nothing scheduled at all, a fetch may still wait: the entry of a reader that
      was answered stays in the poll array. */
  method IdlePolls() returns (m: ThreadMaster, o: Outcome)
    ensures o.Polling? && m.executing == {} && forall id | id in m.threads :: !m.threads[id].Live()
  {
    hide Inv, Begun, Ended;
    m := ReaderRan();
    ghost var s := m.S();
    o := PlainFetch(m);
    AloneBegins(s, o, m.S(), false);
  }

  /** The reader is scheduled again.  The structure is the one it had before, and until
      then it names no function. */
  method SameAgain() returns (before: Thread, r: Option<nat>, after: Thread)
    ensures before == BLANK && r == Some(0) && after.kind == Read && after.func == 7 != before.func
  {
    hide Inv;
    var m := ReaderRan();
    before := m.threads[0];
    CopyFits(m.S());
    r := m.AddReadWrite(Read, 7, 0, 5, None, 1);
    after := m.threads[0];
  }

  /** A new master with a reader or writer of descriptor 5 and, beside it, perhaps one of
      descriptor 6. */
  ghost predicate Fresh(s: State, dir: Kind, both: bool) {
    && s.threads.Keys == (if both then {0, 1} else {0}) && s.threads[0].kind == dir && s.threads[0].u == Fd(5)
    && s.executing == {} && s.unuse == [] && s.event == [] && s.ready == [] && s.timers == {}
    && s.read == (if dir.Read? then map[5 := 0] else if both then map[6 := 1] else map[])
    && s.write == (if dir.Read? then map[] else map[5 := 0])
    && |s.poll.pfds| == 8 && s.poll.ear == 3 && s.poll.mouth == 4 && s.poll.count == (if both then 2 else 1) && !s.poll.polling
    && s.poll.pfds[0].fd == 5 && s.poll.pfds[0].events == {if dir.Read? then PollIn else PollOut}
    && (both ==> s.poll.pfds[1].fd == 6 && s.poll.pfds[1].events == {PollIn})
    && (!both ==> s.poll.pfds[1].events == {})
  }

  method One(dir: Kind) returns (m: ThreadMaster)
    requires dir.Read? || dir.Write?
    ensures fresh(m) && fresh(m.timer) && fresh(m.timer.items) && m.Valid() && m.cancelReq == [] && Fresh(m.S(), dir, false)
  {
    hide Inv;
    m := new ThreadMaster(8, 3, 4);
    m.NoTimers();
    ghost var p := m.poll;
    var r := m.AddReadWrite(dir, 7, 0, 5, None, 0);
    assert PosOf(p, 5) == 0;
    assert p.pfds[1] == m.poll.pfds[1];
  }

  lemma FirstGone(s: State, dir: Kind, both: bool)
    requires Inv(s) && Fresh(s, dir, both) && (dir.Read? || dir.Write?)
    ensures Cancellable(s, 0)
    ensures var r := CancelThread(s, 0);
            && r.poll.count == s.poll.count - 1 && |r.poll.pfds| == 8 && r.poll.ear == 3 && r.poll.mouth == 4 && !r.poll.polling
            && r.event == [] && r.ready == [] && r.timers == {} && r.unuse == [0]
            && r.read == s.read - {5} && r.write == s.write - {5} && r.threads.Keys == s.threads.Keys
            && (both ==> r.poll.pfds[0] == s.poll.pfds[1] && r.poll.pfds[1] == s.poll.pfds[1])
  {
    hide Inv, InvBut;
    assert PosOf(s.poll, 5) == 0;
    CopyFits(s);
    UprootKeeps(s, 0);
    var e := s.poll.pfds[0].events;
    var flag := if dir.Read? then PollIn else PollOut;
    assert e - {flag, PollHup} == {};
  }

  lemma NothingDies(s: State, o: Outcome, r: State)
    requires Begun(s, o, r) && s.ready == [] && s.event == [] && s.timers == {} && s.poll.count == 0
    ensures o.Die? && r.poll.count == 0 && r.read == s.read
  {
  }

  /** A reader that is cancelled before it runs leaves nothing behind: the fetch gives
      up. */
  method ReaderCancelled() returns (o: Outcome, m: ThreadMaster)
    ensures o.Die? && m.poll.count == 0 && m.read == map[]
  {
    hide Inv, Begun, CancelThread;
    m := One(Read);
    ghost var s := m.S();
    FirstGone(s, Read, false);
    var ok, queue, list := m.CancelTarget(0, false, None);
    assert map[5 := 0] - {5} == map[];
    s := m.S();
    o := PlainFetch(m);
    NothingDies(s, o, m.S());
  }

  /** A writer of descriptor 5 is cancelled while a reader of 6 waits; then a writer of 7
      is added.  Poll is asked for input on 7, which nobody waits for. */
  method StaleRequest() returns (m: ThreadMaster)
    ensures m.Valid() && m.poll.count == 2 && |m.poll.pfds| == 8
    ensures m.poll.pfds[1].fd == 7 && PollIn in m.poll.pfds[1].events && 7 !in m.read && 7 in m.write
  {
    hide Inv, CancelThread, Housing, Enlist;
    m := Two();
    ghost var s := m.S();
    FirstGone(s, Write, true);
    var ok, queue, list := m.CancelTarget(0, false, None);
    ghost var p := m.poll;
    var r := m.AddReadWrite(Write, 7, 0, 7, None, 2);
    assert PosOf(p, 7) == 1;
  }

  method Two() returns (m: ThreadMaster)
    ensures fresh(m) && fresh(m.timer) && fresh(m.timer.items) && m.Valid() && m.cancelReq == [] && Fresh(m.S(), Write, true)
  {
    hide Inv;
    m := One(Write);
    ghost var p := m.poll;
    var r := m.AddReadWrite(Read, 7, 0, 6, None, 1);
    assert PosOf(p, 6) == 1;
  }
}
