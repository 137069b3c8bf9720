/** Cancellation on the state: what one request should do, and the order of a
    batch of requests. */
module SchedCancel {
  import opened Wrappers
  import opened Lists
  import opened SchedState
  import opened SchedSteps
  import opened SchedMoves
  import opened SchedPoll

  /** A request names a thread, a place that holds a reference to one, or an argument.
      The argument stands for one that is not null: a null one makes the code read the
      place instead, and there is none. */
  datatype CancelReq = ByThread(id: nat) | ByRef(ref: nat) | ByArg(arg: nat)

  function IndexOf(list: seq<nat>, id: nat): (k: nat)
    requires id in list
    ensures k < |list| && list[k] == id
  {
    if list[0] == id then 0 else 1 + IndexOf(list[1..], id)
  }

  /** The list without the threads in `gone`, in order. */
  ghost function Rest(list: seq<nat>, gone: set<nat>): seq<nat> {
    if list == [] then [] else (if list[0] in gone then [] else [list[0]]) + Rest(list[1..], gone)
  }

  lemma {:induction false} RestConcat(a: seq<nat>, b: seq<nat>, gone: set<nat>)
    ensures Rest(a + b, gone) == Rest(a, gone) + Rest(b, gone)
  {
    if a == [] {
      assert a + b == b;
    } else {
      assert (a + b)[1..] == a[1..] + b;
      RestConcat(a[1..], b, gone);
    }
  }

  lemma {:induction false} RestAlike(list: seq<nat>, a: set<nat>, b: set<nat>)
    requires forall i | i in list :: i in a <==> i in b
    ensures Rest(list, a) == Rest(list, b)
  {
    if list != [] {
      RestAlike(list[1..], a, b);
    }
  }

  lemma {:induction false} RestTwice(list: seq<nat>, a: set<nat>, b: set<nat>)
    ensures Rest(Rest(list, a), b) == Rest(list, a + b)
  {
    if list != [] {
      RestTwice(list[1..], a, b);
      var rest := Rest(list[1..], a);
      if list[0] in a {
        assert Rest(list, a) == [] + rest == rest;
      } else {
        assert ([list[0]] + rest)[1..] == rest;
      }
    }
  }

  lemma {:induction false} RestAll(list: seq<nat>, gone: set<nat>)
    requires forall i | i in list :: i !in gone
    ensures Rest(list, gone) == list
  {
    if list != [] {
      RestAll(list[1..], gone);
    }
  }

  lemma RestDrop(list: seq<nat>, k: nat)
    requires k < |list| && Distinct(list)
    ensures Drop(list, k) == Rest(list, {list[k]})
  {
    hide Rest, Distinct;
    var a, x, b := list[..k], list[k], list[k + 1..];
    OnlyHere(list, k);
    assert list == a + ([x] + b);
    RestConcat(a, [x] + b, {x});
    RestConcat([x], b, {x});
    RestOne(x);
    RestAll(a, {x});
    RestAll(b, {x});
  }

  lemma OnlyHere(list: seq<nat>, k: nat)
    requires k < |list| && Distinct(list)
    ensures list[k] !in list[..k] && list[k] !in list[k + 1..]
  {
  }

  lemma RestOne(x: nat)
    ensures Rest([x], {x}) == []
  {
    assert [x][1..] == [];
  }

  /** The threads with the argument. */
  ghost function Having(s: State, arg: nat): set<nat> {
    set i | i in s.threads && s.threads[i].arg == arg
  }

  predicate Alive(threads: map<nat, Thread>, id: nat) {
    id in threads && threads[id].Live()
  }

  /** The thread a request names, if it is still there. */
  function Target(s: State, cr: CancelReq): Option<nat> {
    match cr
    case ByThread(id) => if Alive(s.threads, id) then Some(id) else None
    case ByRef(r) => if r in s.refs then Some(s.refs[r]) else None
    case ByArg(_) => None
  }

  /** Slots, then lists, then the timer queue. */
  function Rank(k: Kind): nat {
    match k
    case Read | Write => 0
    case Timer => 2
    case _ => 1
  }

  ghost predicate Cancellable(s: State, id: nat) {
    Inv(s) && !s.poll.polling && id in s.threads && s.threads[id].Live() && id !in s.executing
  }

  /** The poll arrays once the request of a pending descriptor is withdrawn. */
  ghost function Withdrawn(s: State, fd: nat, flag: Flag): (p: Poll)
    requires Polled(s.poll, s.read, s.write) && (fd in s.read || fd in s.write)
    ensures p.polling == s.poll.polling
  {
    PendingFound(s.poll, s.read, s.write, fd, PosOf(s.poll, fd));
    CancelAt(s.poll, PosOf(s.poll, fd), flag)
  }

  /** Takes a thread out of the container its type names; a reader's or writer's
      poll request is withdrawn. */
  ghost function Uproot(s: State, id: nat): (r: State)
    requires Cancellable(s, id)
    ensures r == s.(read := r.read, write := r.write, timers := r.timers, event := r.event, ready := r.ready, poll := r.poll)
    ensures !r.poll.polling
  {
    var t := s.threads[id];
    match t.kind
    case Read => s.(read := s.read - {t.u.fd}, poll := Withdrawn(s, t.u.fd, PollIn))
    case Write => s.(write := s.write - {t.u.fd}, poll := Withdrawn(s, t.u.fd, PollOut))
    case Timer => s.(timers := s.timers - {TimerEntry(t.u.sands, id)})
    case Event => s.(event := Drop(s.event, IndexOf(s.event, id)))
    case Ready => s.(ready := Drop(s.ready, IndexOf(s.ready, id)))
    case Unused => s
  }

  lemma UprootInv(s: State, id: nat)
    requires Cancellable(s, id)
    ensures InvBut(Uproot(s, id), id)
  {
    var t := s.threads[id];
    if t.kind.Read? || t.kind.Write? {
      UprootSlot(s, id);
    } else if t.kind.Timer? {
      DetachTimer(s, TimerEntry(t.u.sands, id));
    } else if t.kind.Event? {
      DetachEvent(s, IndexOf(s.event, id));
    } else {
      DetachReady(s, IndexOf(s.ready, id));
    }
  }

  lemma UprootSlot(s: State, id: nat)
    requires Cancellable(s, id) && (s.threads[id].kind.Read? || s.threads[id].kind.Write?)
    ensures InvBut(Uproot(s, id), id)
  {
    var fd := s.threads[id].u.fd;
    var i := PosOf(s.poll, fd);
    PendingFound(s.poll, s.read, s.write, fd, i);
    if s.threads[id].kind.Read? {
      FewerPolled(s.poll, s.read, s.write, s.read - {fd}, s.write);
      CancelPolled(s.poll, i, fd, PollIn, s.read - {fd}, s.write);
      DetachRead(s, fd, CancelAt(s.poll, i, PollIn));
    } else {
      FewerPolled(s.poll, s.read, s.write, s.read, s.write - {fd});
      CancelPolled(s.poll, i, fd, PollOut, s.read, s.write - {fd});
      DetachWrite(s, fd, CancelAt(s.poll, i, PollOut));
    }
  }

  /** The thread is taken out and its structure given back. */
  ghost function CancelThread(s: State, id: nat): (r: State)
    requires Cancellable(s, id)
    ensures Inv(r)
  {
    UprootInv(s, id);
    RetireInv(Uproot(s, id), id, true);
    Retire(Uproot(s, id), id, true)
  }

  /** Cancelling touches only what belongs to the threads cancelled: the other
      containers, and everything about the threads that stay, are as before. */
  ghost predicate Spares(s: State, r: State) {
    && r.executing == s.executing && r.poll == s.poll && r.read == s.read && r.write == s.write && r.timers == s.timers
    && r.ledger.next == s.ledger.next && r.ledger.started == s.ledger.started && s.ledger.cancelled <= r.ledger.cancelled
    && (forall i | i in r.threads && r.threads[i].Live() :: i in s.threads && r.threads[i] == s.threads[i])
    && (forall x | x in r.refs :: x in s.refs && r.refs[x] == s.refs[x])
  }

  lemma SparesTransitive(a: State, b: State, c: State)
    requires Spares(a, b) && Spares(b, c)
    ensures Spares(a, c)
  {
  }

  lemma RetireSpares(s: State, s': State, id: nat)
    requires id in s.threads && s.threads[id].func in s.hist
    requires s' == s.(event := s'.event, ready := s'.ready)
    ensures Spares(s, Retire(s', id, true))
  {
  }

  ghost function CancelEventAt(s: State, k: nat): (r: State)
    requires Inv(s) && k < |s.event|
    ensures Inv(r) && Spares(s, r) && r.ready == s.ready && r.event == Drop(s.event, k)
    ensures s.event[k] in s.threads && r.ledger.cancelled == s.ledger.cancelled + {s.threads[s.event[k]].task}
  {
    DetachEvent(s, k);
    RetireInv(s.(event := Drop(s.event, k)), s.event[k], true);
    RetireSpares(s, s.(event := Drop(s.event, k)), s.event[k]);
    Retire(s.(event := Drop(s.event, k)), s.event[k], true)
  }

  ghost function CancelReadyAt(s: State, k: nat): (r: State)
    requires Inv(s) && k < |s.ready|
    ensures Inv(r) && Spares(s, r) && r.event == s.event && r.ready == Drop(s.ready, k)
    ensures s.ready[k] in s.threads && r.ledger.cancelled == s.ledger.cancelled + {s.threads[s.ready[k]].task}
  {
    DetachReady(s, k);
    RetireInv(s.(ready := Drop(s.ready, k)), s.ready[k], true);
    RetireSpares(s, s.(ready := Drop(s.ready, k)), s.ready[k]);
    Retire(s.(ready := Drop(s.ready, k)), s.ready[k], true)
  }

  /** `list` is what is left of `all` after its first members up to position `k` of
      `list` were looked at and those with the argument cancelled. */
  ghost predicate Sweeping(s0: State, all: seq<nat>, arg: nat, s: State, list: seq<nat>, k: nat) {
    && k <= |list| && Distinct(list)
    && (forall i | i in list :: i in all && i in s0.threads)
    && (forall i | i in all && i in s0.threads && s0.threads[i].arg != arg :: i in list)
    && (forall i | i in all && i in s0.threads && s0.threads[i].arg == arg ::
          i in list[k..] || s0.threads[i].task in s.ledger.cancelled)
    && (forall j | 0 <= j < k :: s0.threads[list[j]].arg != arg)
    && LookedAt(all, list, k, Having(s0, arg))
  }

  /** The first `k` members of `list` are those left of the beginning of `all`, and the
      others are the rest of it. */
  ghost predicate LookedAt(all: seq<nat>, list: seq<nat>, k: nat, gone: set<nat>) {
    && k <= |list| <= |all| + k
    && var n := |all| - (|list| - k); list[k..] == all[n..] && list[..k] == Rest(all[..n], gone)
  }

  lemma LookFurther(all: seq<nat>, list: seq<nat>, k: nat, gone: set<nat>)
    requires LookedAt(all, list, k, gone) && k < |list|
    ensures list[k] !in gone ==> LookedAt(all, list, k + 1, gone)
    ensures list[k] in gone ==> LookedAt(all, Drop(list, k), k, gone)
  {
    var n := |all| - (|list| - k);
    assert all[n] == list[k..][0] == list[k];
    assert all[..n + 1] == all[..n] + [all[n]];
    RestConcat(all[..n], [all[n]], gone);
    assert list[k + 1..] == list[k..][1..] == all[n..][1..] == all[n + 1..];
    if list[k] in gone {
      assert Drop(list, k)[k..] == list[k + 1..] && Drop(list, k)[..k] == list[..k];
    } else {
      assert list[..k + 1] == list[..k] + [list[k]];
    }
  }

  lemma SweepPast(s0: State, all: seq<nat>, arg: nat, s: State, list: seq<nat>, k: nat)
    requires Sweeping(s0, all, arg, s, list, k) && k < |list| && s0.threads[list[k]].arg != arg
    ensures Sweeping(s0, all, arg, s, list, k + 1)
  {
    assert list[k] in list;
    LookFurther(all, list, k, Having(s0, arg));
    forall i | i in list[k..] && i != list[k]
      ensures i in list[k + 1..]
    {
      var j :| k <= j < |list| && list[j] == i;
      assert list[k + 1..][j - k - 1] == i;
    }
  }

  lemma SweepOne(s0: State, all: seq<nat>, arg: nat, s: State, list: seq<nat>, k: nat, t: State)
    requires Sweeping(s0, all, arg, s, list, k) && k < |list| && s0.threads[list[k]].arg == arg
    requires t.ledger.cancelled == s.ledger.cancelled + {s0.threads[list[k]].task}
    ensures Sweeping(s0, all, arg, t, Drop(list, k), k)
  {
    assert list[k] in list;
    LookFurther(all, list, k, Having(s0, arg));
    hide LookedAt;
    var d := Drop(list, k);
    DropExact(list, k);
    assert d[k..] == list[k + 1..];
    forall i | i in list[k..] && i != list[k]
      ensures i in d[k..]
    {
      var j :| k <= j < |list| && list[j] == i;
      assert list[k + 1..][j - k - 1] == i;
    }
  }

  /** `r` has cancelled exactly the members of `list` with the argument, `rest`
      being those left, in order. */
  ghost predicate Swept(s: State, list: seq<nat>, arg: nat, r: State, rest: seq<nat>) {
    && (forall i :: i in rest <==> i in list && i in s.threads && s.threads[i].arg != arg)
    && (forall i | i in list && i in s.threads && s.threads[i].arg == arg :: s.threads[i].task in r.ledger.cancelled)
    && rest == Rest(list, Having(s, arg))
  }

  lemma SweepDone(s0: State, all: seq<nat>, arg: nat, s: State, list: seq<nat>)
    requires Sweeping(s0, all, arg, s, list, |list|)
    ensures Swept(s0, all, arg, s, list)
  {
    forall i | i in list
      ensures s0.threads[i].arg != arg
    {
      var j :| 0 <= j < |list| && list[j] == i;
    }
    assert list[|list|..] == [] && list[..|list|] == list && all[..|all|] == all;
  }

  // ---- batches ----

  /** No request names a thread that is being executed directly. */
  predicate Safe(executing: set<nat>, refs: map<nat, nat>, cr: CancelReq) {
    match cr
    case ByThread(id) => id !in executing
    case ByRef(r) => r in refs ==> refs[r] !in executing
    case ByArg(_) => true
  }

  /** Serving cancellations starts nothing and adds no reference. */
  ghost predicate Served(s: State, r: State) {
    && !r.poll.polling && r.executing == s.executing
    && (forall x | x in r.refs :: x in s.refs && r.refs[x] == s.refs[x])
    && r.ledger.started == s.ledger.started && r.ledger.next == s.ledger.next && s.ledger.cancelled <= r.ledger.cancelled
  }

  /** Among `gone` is a live reader, or writer, of `fd`, the one that `flag` is asked for. */
  ghost predicate Loses(threads: map<nat, Thread>, gone: set<nat>, fd: nat, flag: Flag) {
    exists id | id in gone ::
      && Alive(threads, id) && threads[id].u == Fd(fd)
      && ((flag.PollIn? && threads[id].kind.Read?) || (flag.PollOut? && threads[id].kind.Write?))
  }

  /** Poll is asked for the same as before, but for what the threads of `gone` waited
      for. */
  ghost predicate Asked(s: State, t: State, gone: set<nat>) {
    forall fd, flag: Flag | flag.PollIn? || flag.PollOut? ::
      Asks(t.poll, fd, flag) <==> Asks(s.poll, fd, flag) && !Loses(s.threads, gone, fd, flag)
  }

  /** The live threads of `t` are those of `s` but for `gone`, unchanged, the lists keep
      their order, and poll is no longer asked for what `gone` waited for. */
  ghost predicate Left(s: State, t: State, gone: set<nat>) {
    && (forall id :: Alive(t.threads, id) <==> Alive(s.threads, id) && id !in gone)
    && (forall id | Alive(t.threads, id) :: t.threads[id] == s.threads[id])
    && t.event == Rest(s.event, gone) && t.ready == Rest(s.ready, gone)
    && Asked(s, t, gone)
  }

  lemma AskedTransitive(s: State, t: State, r: State, gone: set<nat>, more: set<nat>)
    requires Left(s, t, gone) && Asked(t, r, more)
    ensures Asked(s, r, gone + more)
  {
    hide Rest, Asks;
    forall fd, flag
      ensures Loses(s.threads, gone + more, fd, flag) <==> Loses(s.threads, gone, fd, flag) || Loses(t.threads, more, fd, flag)
    {
      LosesMore(s, t, gone, more, fd, flag);
    }
    hide Loses;
  }

  lemma LosesMore(s: State, t: State, gone: set<nat>, more: set<nat>, fd: nat, flag: Flag)
    requires Left(s, t, gone)
    ensures Loses(s.threads, gone + more, fd, flag) <==> Loses(s.threads, gone, fd, flag) || Loses(t.threads, more, fd, flag)
  {
    hide Rest, Asks, Asked;
    if Loses(s.threads, gone + more, fd, flag) {
      var id :| id in gone + more && Alive(s.threads, id) && s.threads[id].u == Fd(fd)
                && ((flag.PollIn? && s.threads[id].kind.Read?) || (flag.PollOut? && s.threads[id].kind.Write?));
      assert id !in gone ==> Alive(t.threads, id) && t.threads[id] == s.threads[id];
    }
    if Loses(t.threads, more, fd, flag) {
      var id :| id in more && Alive(t.threads, id) && t.threads[id].u == Fd(fd)
                && ((flag.PollIn? && t.threads[id].kind.Read?) || (flag.PollOut? && t.threads[id].kind.Write?));
      assert Alive(s.threads, id) && t.threads[id] == s.threads[id];
    }
  }

  /** One thread leaves: poll is no longer asked for what it waited for, and for nothing
      less. */
  lemma CancelAsked(s: State, id: nat)
    requires Cancellable(s, id)
    ensures Asked(s, CancelThread(s, id), {id})
  {
    hide Asks, Conserved, Counted, Referenced, Kept, Housed;
    var t, p := s.threads[id], Uproot(s, id).poll;
    assert CancelThread(s, id).poll == p;
    CancelSlot(s, id);
  }

  lemma CancelSlot(s: State, id: nat)
    requires Cancellable(s, id)
    ensures var p := Uproot(s, id).poll;
            forall fd, flag: Flag | flag.PollIn? || flag.PollOut? ::
              Asks(p, fd, flag) <==> Asks(s.poll, fd, flag) && !Loses(s.threads, {id}, fd, flag)
  {
    hide Asks, Inv, Uproot, CancelAt, Lapsed;
    SlotEntry(s, id);
    var t, p := s.threads[id], Uproot(s, id).poll;
    assert Alive(s.threads, id);
    if t.kind.Read? || t.kind.Write? {
      var fd, flag := t.u.fd, if t.kind.Read? then PollIn else PollOut;
      LapsedExact(s.poll, p, PosOf(s.poll, fd), fd, flag);
    }
  }

  lemma SlotEntry(s: State, id: nat)
    requires Cancellable(s, id)
    ensures var t, p := s.threads[id], Uproot(s, id).poll;
            && s.poll.count <= |s.poll.pfds|
            && (forall a, b | 0 <= a < b < s.poll.count :: s.poll.pfds[a].fd != s.poll.pfds[b].fd)
            && (!t.kind.Read? && !t.kind.Write? ==> p == s.poll)
            && (t.kind.Read? || t.kind.Write? ==>
                  && t.u.Fd? && PosOf(s.poll, t.u.fd) < s.poll.count
                  && var flag := if t.kind.Read? then PollIn else PollOut;
                     Lapsed(s.poll.pfds, s.poll.count, p.pfds, p.count, PosOf(s.poll, t.u.fd), flag))
  {
    hide Referenced, Counted, Conserved, Lapsed, CancelBit, Blanked, EventsExact, ListExact, TimersExact;
    var t := s.threads[id];
    if t.kind.Read? || t.kind.Write? {
      var i := PosOf(s.poll, t.u.fd);
      PendingFound(s.poll, s.read, s.write, t.u.fd, i);
      CancelExact(s.poll.pfds, s.poll.count, i, if t.kind.Read? then PollIn else PollOut);
    }
  }

  /** Listed threads are live. */
  ghost predicate Listed(s: State) {
    (forall i | i in s.event :: Alive(s.threads, i)) && (forall i | i in s.ready :: Alive(s.threads, i))
  }

  /** The threads a request asks to cancel. */
  ghost function Takes(s: State, cr: CancelReq): set<nat> {
    match cr
    case ByArg(arg) =>
      set id | id in s.threads && s.threads[id].arg == arg
               && (s.threads[id].kind.Ready? || (s.threads[id].kind.Event? && id !in s.executing))
    case _ => if Target(s, cr).Some? then {Target(s, cr).value} else {}
  }

  /** The threads the first `n` requests ask to cancel. */
  ghost function TakenBy(s: State, reqs: seq<CancelReq>, n: nat): set<nat>
    requires n <= |reqs|
  {
    set k, id | 0 <= k < n && id in Takes(s, reqs[k]) :: id
  }

  lemma TakenByNext(s: State, reqs: seq<CancelReq>, n: nat)
    requires n < |reqs|
    ensures TakenBy(s, reqs, n + 1) == TakenBy(s, reqs, n) + Takes(s, reqs[n])
  {
  }

  /** The rank of the container a request works on: that of the thread it names,
      unless that thread is gone. */
  ghost function RankBut(s: State, gone: set<nat>, cr: CancelReq): Option<nat> {
    var id := Target(s, cr);
    if id.Some? && id.value !in gone && id.value in s.threads then Some(Rank(s.threads[id.value].kind)) else None
  }

  ghost function RankAt(s: State, reqs: seq<CancelReq>, k: nat): Option<nat>
    requires k < |reqs|
  {
    RankBut(s, TakenBy(s, reqs, k), reqs[k])
  }

  /** The container ranks of the first `n` requests never go down. */
  ghost predicate InOrder(s: State, reqs: seq<CancelReq>, n: nat)
    requires n <= |reqs|
  {
    forall i, j | 0 <= i < j < n && RankAt(s, reqs, i).Some? && RankAt(s, reqs, j).Some? ::
      RankAt(s, reqs, i).value <= RankAt(s, reqs, j).value
  }

  /** The thread that request `k` takes, unless an earlier one took it. */
  ghost function Named(s: State, reqs: seq<CancelReq>, k: nat): Option<nat>
    requires k < |reqs|
  {
    var id := Target(s, reqs[k]);
    if id.Some? && id.value !in TakenBy(s, reqs, k) then id else None
  }

  /** In order means, by kinds of threads: after a timer only timers, and after an event
      or a ready thread no reader or writer. */
  lemma OrderExact(s: State, reqs: seq<CancelReq>, n: nat)
    requires n <= |reqs| && Referenced(s.threads, s.refs)
    ensures InOrder(s, reqs, n) <==>
              forall i, j | 0 <= i < j < n && Named(s, reqs, i).Some? && Named(s, reqs, j).Some? ::
                && Named(s, reqs, i).value in s.threads && Named(s, reqs, j).value in s.threads
                && var x, y := s.threads[Named(s, reqs, i).value].kind, s.threads[Named(s, reqs, j).value].kind;
                   (x.Timer? ==> y.Timer?) && (x.Event? || x.Ready? ==> !y.Read? && !y.Write?)
  {
    hide TakenBy;
    forall k | 0 <= k < n
      ensures RankAt(s, reqs, k).Some? <==> Named(s, reqs, k).Some?
      ensures Named(s, reqs, k).Some? ==>
                && Alive(s.threads, Named(s, reqs, k).value)
                && RankAt(s, reqs, k).value == Rank(s.threads[Named(s, reqs, k).value].kind)
    {
    }
  }

  /** No rank among the first `n` is above `level`, which is 0 or one of them. */
  ghost predicate Reached(s: State, reqs: seq<CancelReq>, n: nat, level: nat)
    requires n <= |reqs|
  {
    && (forall k | 0 <= k < n && RankAt(s, reqs, k).Some? :: RankAt(s, reqs, k).value <= level)
    && (level == 0 || exists k | 0 <= k < n :: RankAt(s, reqs, k) == Some(level))
  }

  lemma OrderStep(s: State, reqs: seq<CancelReq>, n: nat, level: nat)
    requires n < |reqs| && InOrder(s, reqs, n) && Reached(s, reqs, n, level)
    ensures var rank := RankBut(s, TakenBy(s, reqs, n), reqs[n]);
            && (rank.None? ==> InOrder(s, reqs, n + 1) && Reached(s, reqs, n + 1, level))
            && (rank.Some? && level <= rank.value ==> InOrder(s, reqs, n + 1) && Reached(s, reqs, n + 1, rank.value))
            && (rank.Some? && rank.value < level ==> !InOrder(s, reqs, |reqs|))
  {
    hide TakenBy, RankBut;
    assert RankAt(s, reqs, n) == RankBut(s, TakenBy(s, reqs, n), reqs[n]);
  }

  /** Cancelling one thread: the schedulings started are the same ones, and no new
      reference or execution appears. */
  lemma CancelKeeps(s: State, id: nat)
    requires Cancellable(s, id)
    ensures var r := CancelThread(s, id);
            && Served(s, r) && Left(s, r, {id})
            && r.ledger == s.ledger.(cancelled := s.ledger.cancelled + {s.threads[id].task})
  {
    hide Inv, InvBut, Rest, Asked;
    CancelLists(s, id);
    CancelAsked(s, id);
    assert Alive(s.threads, id);
  }

  lemma CancelLists(s: State, id: nat)
    requires Cancellable(s, id)
    ensures Uproot(s, id).event == Rest(s.event, {id}) && Uproot(s, id).ready == Rest(s.ready, {id})
  {
    hide Rest;
    if s.threads[id].kind.Event? {
      RestDrop(s.event, IndexOf(s.event, id));
    } else {
      RestAll(s.event, {id});
    }
    if s.threads[id].kind.Ready? {
      RestDrop(s.ready, IndexOf(s.ready, id));
    } else {
      RestAll(s.ready, {id});
    }
  }

  /** Sweeping an argument takes exactly the listed threads that have it. */
  lemma SweptLeft(s: State, r: State, arg: nat)
    requires Inv(s) && Inv(r) && Spares(s, r)
    requires Swept(s, s.event, arg, r, r.event) && Swept(s, s.ready, arg, r, r.ready)
    ensures Left(s, r, Takes(s, ByArg(arg)))
  {
    hide Rest, Asked;
    SweptAsked(s, r, arg);
    var gone := Takes(s, ByArg(arg));
    SweptRest(s, arg);
    forall id | Alive(r.threads, id)
      ensures Alive(s.threads, id) && id !in gone
    {
      assert r.threads[id].task in LiveTasks(r.threads);
    }
    forall id | Alive(s.threads, id) && id !in gone
      ensures Alive(r.threads, id)
    {
      SparedAlive(s, r, arg, id);
    }
  }

  lemma SweptAsked(s: State, r: State, arg: nat)
    requires r.poll == s.poll
    ensures Asked(s, r, Takes(s, ByArg(arg)))
  {
    hide Asks;
  }

  lemma SweptRest(s: State, arg: nat)
    requires Housed(s, None)
    ensures Rest(s.event, Having(s, arg)) == Rest(s.event, Takes(s, ByArg(arg)))
    ensures Rest(s.ready, Having(s, arg)) == Rest(s.ready, Takes(s, ByArg(arg)))
  {
    hide Rest;
    RestAlike(s.event, Having(s, arg), Takes(s, ByArg(arg)));
    RestAlike(s.ready, Having(s, arg), Takes(s, ByArg(arg)));
  }

  lemma SparedAlive(s: State, r: State, arg: nat, id: nat)
    requires Inv(s) && Housed(r, None) && Spares(s, r) && Alive(s.threads, id) && id !in Takes(s, ByArg(arg))
    requires Swept(s, s.event, arg, r, r.event) && Swept(s, s.ready, arg, r, r.ready)
    ensures Alive(r.threads, id)
  {
    hide Kept, Distinct;
    var t := s.threads[id];
    if t.kind.Event? && id !in s.executing {
      assert id in r.event;
    } else if t.kind.Ready? {
      assert id in r.ready;
    }
  }

  /** What a request names in a later state of the batch. */
  lemma TargetLeft(s: State, t: State, gone: set<nat>, cr: CancelReq)
    requires Referenced(s.threads, s.refs) && Referenced(t.threads, t.refs) && Served(s, t) && Left(s, t, gone)
    ensures Target(t, cr) == if Target(s, cr).Some? && Target(s, cr).value !in gone then Target(s, cr) else None
    ensures Target(t, cr).Some? ==> Alive(t.threads, Target(t, cr).value)
  {
    if cr.ByRef? && cr.ref in s.refs {
      assert Alive(s.threads, s.refs[cr.ref]);
      if cr.ref in t.refs {
        assert Alive(t.threads, t.refs[cr.ref]);
      }
    }
  }

  lemma LeftTransitive(s: State, t: State, r: State, gone: set<nat>, more: set<nat>)
    requires Left(s, t, gone) && Left(t, r, more)
    ensures Left(s, r, gone + more)
  {
    hide Rest, Asked;
    AskedTransitive(s, t, r, gone, more);
    RestTwice(s.event, gone, more);
    RestTwice(s.ready, gone, more);
  }

  lemma LeftAlike(s: State, t: State, gone: set<nat>, more: set<nat>)
    requires Left(s, t, gone)
    requires Listed(s) && forall id | Alive(s.threads, id) :: id in gone <==> id in more
    ensures Left(s, t, more)
  {
    hide Rest;
    RestAlike(s.event, gone, more);
    RestAlike(s.ready, gone, more);
  }

  /** One more request served: its threads are gone as well. */
  lemma LeftFurther(s: State, t: State, r: State, gone: set<nat>, cr: CancelReq)
    requires Listed(s) && Served(s, t) && Left(s, t, gone) && Left(t, r, Takes(t, cr))
    requires Target(t, cr) == if Target(s, cr).Some? && Target(s, cr).value !in gone then Target(s, cr) else None
    ensures Left(s, r, gone + Takes(s, cr))
  {
    hide Rest, Asked;
    LeftTransitive(s, t, r, gone, Takes(t, cr));
    forall id | Alive(s.threads, id)
      ensures id in gone + Takes(t, cr) <==> id in gone + Takes(s, cr)
    {
      assert Alive(t.threads, id) <==> id !in gone;
    }
    LeftAlike(s, r, gone + Takes(t, cr), gone + Takes(s, cr));
  }

  /** Serving an argument. */
  lemma TookArg(s: State, t: State, r: State, gone: set<nat>, arg: nat)
    requires Listed(s) && Inv(t) && Inv(r) && Served(s, t) && Left(s, t, gone) && Spares(t, r)
    requires Swept(t, t.event, arg, r, r.event) && Swept(t, t.ready, arg, r, r.ready)
    ensures Served(s, r) && Left(s, r, gone + Takes(s, ByArg(arg)))
  {
    hide Rest;
    SweptLeft(t, r, arg);
    LeftFurther(s, t, r, gone, ByArg(arg));
  }

  /** Serving a request that names a thread. */
  lemma TookThread(s: State, t: State, gone: set<nat>, cr: CancelReq)
    requires Listed(s) && Served(s, t) && Left(s, t, gone) && !cr.ByArg?
    requires Target(s, cr).Some? && Target(s, cr).value !in gone && Target(t, cr) == Target(s, cr)
    requires Cancellable(t, Target(t, cr).value)
    ensures var r := CancelThread(t, Target(t, cr).value); Served(s, r) && Left(s, r, gone + Takes(s, cr))
  {
    hide Rest, Inv;
    var id := Target(t, cr).value;
    CancelKeeps(t, id);
    LeftFurther(s, t, CancelThread(t, id), gone, cr);
  }

  lemma LeftNothing(s: State, t: State, gone: set<nat>, cr: CancelReq)
    requires Left(s, t, gone) && !cr.ByArg?
    requires Target(s, cr).Some? ==> Target(s, cr).value in gone
    ensures Left(s, t, gone + Takes(s, cr))
  {
    assert gone + Takes(s, cr) == gone;
  }

  lemma LeftAll(s: State, reqs: seq<CancelReq>)
    ensures Left(s, s, TakenBy(s, reqs, 0)) && InOrder(s, reqs, 0) && Reached(s, reqs, 0, 0)
    ensures !s.poll.polling ==> Served(s, s)
  {
    RestAll(s.event, {});
    RestAll(s.ready, {});
    assert TakenBy(s, reqs, 0) == {};
  }
}
