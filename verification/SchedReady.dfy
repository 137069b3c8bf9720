/** Moving threads to the ready list: events, expired timers and signalled
    descriptors. */
module SchedReady {
  import opened Wrappers
  import opened SchedState
  import opened SchedSteps
  import opened SchedMoves
  import opened SchedPoll

  /** Thread `id`, out of its container, becomes ready. */
  function Readied(s: State, id: nat): State
    requires id in s.threads
  {
    s.(threads := s.threads[id := s.threads[id].(kind := Ready)], ready := s.ready + [id])
  }

  lemma ReadiedInv(s: State, id: nat)
    requires InvBut(s, id)
    ensures Inv(Readied(s, id))
  {
    var th := s.threads[id].(kind := Ready);
    Rekind(s, id, th);
    AttachReady(s.(threads := s.threads[id := th]), id);
  }

  /** `r` differs from `s` by the threads of `ids`, in that order, having become
      ready; nobody's books change. */
  ghost predicate Promoted(s: State, r: State, ids: seq<nat>) {
    && r.ready == s.ready + ids && r.threads.Keys == s.threads.Keys
    && (forall i | i in r.threads :: r.threads[i] == if i in ids then s.threads[i].(kind := Ready) else s.threads[i])
    && r.refs == s.refs && r.hist == s.hist && r.alloc == s.alloc && r.ledger == s.ledger
    && r.unuse == s.unuse && r.executing == s.executing
  }

  lemma PromotedMore(a: State, b: State, c: State, x: seq<nat>, y: seq<nat>)
    requires Promoted(a, b, x) && Promoted(b, c, y)
    ensures Promoted(a, c, x + y)
  {
    assert a.ready + x + y == a.ready + (x + y);
  }

  lemma PromotedOne(s: State, s': State, id: nat)
    requires id in s.threads
    requires s' == s.(read := s'.read, write := s'.write, timers := s'.timers, event := s'.event, poll := s'.poll)
    ensures Promoted(s, Readied(s', id), [id])
  {
  }

  // ---- descriptors ----

  /** Poll reported one of `flags` for `fd`. */
  ghost predicate Signalled(p: Poll, n: nat, fd: nat, flags: set<Flag>)
    requires n <= |p.copy|
  {
    exists i | 0 <= i < n :: p.copy[i].fd == fd && p.copy[i].revents * flags != {}
  }

  /** The copy as poll returns it when it finds `f(fd)` for each descriptor. */
  function Reported(p: Poll, f: nat -> set<Flag>): (q: Poll)
    requires p.copycount <= |p.copy|
    ensures |q.copy| == |p.copy| && q == p.(copy := q.copy)
    ensures forall i | 0 <= i < p.copycount :: q.copy[i] == p.copy[i].(revents := f(p.copy[i].fd))
  {
    var n := p.copycount;
    p.(copy := seq(n, i requires 0 <= i < n => p.copy[i].(revents := f(p.copy[i].fd))) + p.copy[n..])
  }

  lemma ReportedPolled(p: Poll, f: nat -> set<Flag>, read: map<nat, nat>, write: map<nat, nat>)
    requires Polled(p, read, write)
    ensures Polled(Reported(p, f), read, write)
  {
    var q := Reported(p, f);
    forall fd, flag | Watched(p, fd, flag)
      ensures Watched(q, fd, flag)
    {
      var j :| 0 <= j < p.count && p.pfds[j].fd == fd && flag in p.pfds[j].events;
      assert q.pfds[j] == p.pfds[j];
    }
  }

  /** The copy is no longer needed. */
  lemma PollOver(p: Poll, read: map<nat, nat>, write: map<nat, nat>)
    requires Polled(p, read, write)
    ensures Polled(p.(polling := false), read, write)
  {
    var q := p.(polling := false);
    forall fd, flag | Watched(p, fd, flag)
      ensures Watched(q, fd, flag)
    {
      var j :| 0 <= j < p.count && p.pfds[j].fd == fd && flag in p.pfds[j].events;
      assert q.pfds[j] == p.pfds[j];
    }
  }

  /** The number of entries from `i` on with something reported. */
  function Actives(p: Poll, i: nat): nat
    requires i <= p.copycount <= |p.copy|
    decreases p.copycount - i
  {
    if i == p.copycount then 0 else (if p.copy[i].revents != {} then 1 else 0) + Actives(p, i + 1)
  }

  lemma {:induction false} NoneActive(p: Poll, i: nat, j: nat)
    requires i <= j < p.copycount <= |p.copy| && Actives(p, i) == 0
    ensures p.copy[j].revents == {}
    decreases j - i
  {
    if i < j {
      NoneActive(p, i + 1, j);
    }
  }

  /** What one reported event does: poll stops asking for it, and the thread waiting
      for it, if any, becomes ready. */
  ghost function IoStep(s: State, kind: Kind, i: nat): State
    requires i < |s.poll.copy| && i < |s.poll.pfds|
    requires SlotsExact(s.threads, s.read, Read, None) && SlotsExact(s.threads, s.write, Write, None)
  {
    var fd := s.poll.copy[i].fd;
    var p := ClearAt(s.poll, i, if kind.Read? then PollIn else PollOut);
    if kind.Read? then
      if fd in s.read then Readied(s.(read := s.read - {fd}, poll := p), s.read[fd]) else s.(poll := p)
    else
      if fd in s.write then Readied(s.(write := s.write - {fd}, poll := p), s.write[fd]) else s.(poll := p)
  }

  lemma IoStepInv(s: State, kind: Kind, i: nat)
    requires Inv(s) && s.poll.polling && i < s.poll.copycount
    ensures Inv(IoStep(s, kind, i))
  {
    hide InvBut;
    var fd := s.poll.copy[i].fd;
    var p := ClearAt(s.poll, i, if kind.Read? then PollIn else PollOut);
    ClearedPolled(s, kind, i);
    if kind.Read? && fd in s.read {
      DetachRead(s, fd, p);
      ReadiedInv(s.(read := s.read - {fd}, poll := p), s.read[fd]);
    } else if !kind.Read? && fd in s.write {
      DetachWrite(s, fd, p);
      ReadiedInv(s.(write := s.write - {fd}, poll := p), s.write[fd]);
    } else {
      PollOnly(s, p);
    }
  }

  /** With the slot emptied nobody misses the request that was cleared. */
  lemma ClearedPolled(s: State, kind: Kind, i: nat)
    requires Polled(s.poll, s.read, s.write) && s.poll.polling && i < s.poll.copycount
    ensures var fd := s.poll.copy[i].fd;
            var p := ClearAt(s.poll, i, if kind.Read? then PollIn else PollOut);
            && Polled(p, if kind.Read? then s.read - {fd} else s.read, if kind.Read? then s.write else s.write - {fd})
            && (fd !in (if kind.Read? then s.read else s.write) ==> Polled(p, s.read, s.write))
  {
    var fd := s.poll.copy[i].fd;
    if kind.Read? {
      FewerPolled(s.poll, s.read, s.write, s.read - {fd}, s.write);
      ClearPolled(s.poll, i, fd, PollIn, s.read - {fd}, s.write);
      assert fd !in s.read ==> s.read - {fd} == s.read;
    } else {
      FewerPolled(s.poll, s.read, s.write, s.read, s.write - {fd});
      ClearPolled(s.poll, i, fd, PollOut, s.read, s.write - {fd});
      assert fd !in s.write ==> s.write - {fd} == s.write;
    }
  }

  lemma PollOnly(s: State, p: Poll)
    requires Inv(s) && Polled(p, s.read, s.write)
    ensures Inv(s.(poll := p))
  {
  }

  /** What one step promotes and which slots it leaves. */
  lemma IoStepPromotes(s: State, kind: Kind, i: nat) returns (ids: seq<nat>)
    requires s.poll.polling && i < s.poll.copycount && i < |s.poll.copy| && i < |s.poll.pfds|
    requires SlotsExact(s.threads, s.read, Read, None) && SlotsExact(s.threads, s.write, Write, None)
    ensures var r, fd := IoStep(s, kind, i), s.poll.copy[i].fd;
            && Promoted(s, r, ids)
            && r.poll == ClearAt(s.poll, i, if kind.Read? then PollIn else PollOut)
            && r.read == (if kind.Read? then s.read - {fd} else s.read)
            && r.write == (if kind.Read? then s.write else s.write - {fd})
            && r.timers == s.timers && r.event == s.event
            && ids == (if kind.Read? then (if fd in s.read then [s.read[fd]] else [])
                       else if fd in s.write then [s.write[fd]] else [])
  {
    var r, fd := IoStep(s, kind, i), s.poll.copy[i].fd;
    var p := ClearAt(s.poll, i, if kind.Read? then PollIn else PollOut);
    if kind.Read? && fd in s.read {
      ids := [s.read[fd]];
      PromotedOne(s, s.(read := s.read - {fd}, poll := p), s.read[fd]);
    } else if !kind.Read? && fd in s.write {
      ids := [s.write[fd]];
      PromotedOne(s, s.(write := s.write - {fd}, poll := p), s.write[fd]);
    } else {
      ids := [];
      assert s.ready + [] == s.ready;
      assert fd !in s.read ==> s.read - {fd} == s.read;
      assert fd !in s.write ==> s.write - {fd} == s.write;
    }
  }

  /** Exactly the slots of the descriptors signalled by the first `n` entries were
      emptied, and their threads are among `ids`. */
  ghost predicate Emptied(p: Poll, n: nat, flags: set<Flag>, slots: map<nat, nat>, left: map<nat, nat>, ids: seq<nat>)
    requires n <= |p.copy|
  {
    && (forall fd :: fd in left <==> fd in slots && !Signalled(p, n, fd, flags))
    && (forall fd | fd in left :: left[fd] == slots[fd])
    && (forall fd | fd in slots && fd !in left :: slots[fd] in ids)
  }

  /** `id` waited in a slot that was emptied. */
  ghost predicate Waited(slots: map<nat, nat>, left: map<nat, nat>, id: nat) {
    exists fd :: fd in slots && fd !in left && slots[fd] == id
  }

  /** The threads that wait for what the first `n` entries report, entry by entry, the
      reader first. */
  ghost function Signals(s: State, n: nat): seq<nat>
    requires n <= |s.poll.copy|
  {
    if n == 0 then []
    else
      var e := s.poll.copy[n - 1];
      Signals(s, n - 1)
      + ((if e.revents * {PollIn, PollHup} != {} && e.fd in s.read then [s.read[e.fd]] else [])
         + (if e.revents * {PollOut} != {} && e.fd in s.write then [s.write[e.fd]] else []))
  }

  /** `r` is `s` after the first `n` poll entries were answered: exactly the slots of
      signalled descriptors are empty, and `ids` are exactly their threads, in the
      order of the entries. */
  ghost predicate Answered(s: State, r: State, n: nat, ids: seq<nat>)
    requires n <= |s.poll.copy|
  {
    && Emptied(s.poll, n, {PollIn, PollHup}, s.read, r.read, ids)
    && Emptied(s.poll, n, {PollOut}, s.write, r.write, ids)
    && (forall id | id in ids :: Waited(s.read, r.read, id) || Waited(s.write, r.write, id))
    && ids == Signals(s, n)
  }

  /** What a report makes poll stop asking for. */
  function Delivered(revents: set<Flag>): set<Flag> {
    (if revents * {PollIn, PollHup} != {} then {PollIn} else {}) + (if revents * {PollOut} != {} then {PollOut} else {})
  }

  /** In the array, exactly what the first `n` entries of the copy report is no longer
      asked for. */
  ghost predicate Cleared(p: Poll, q: Poll, n: nat)
    requires n <= |p.copy|
  {
    && q == p.(pfds := q.pfds) && |q.pfds| == |p.pfds| && n <= |p.pfds|
    && forall i | 0 <= i < |p.pfds| ::
         q.pfds[i] == if i < n then p.pfds[i].(events := p.pfds[i].events - Delivered(p.copy[i].revents)) else p.pfds[i]
  }

  lemma ClearedEntry(p: Poll, i: nat, revents: set<Flag>)
    requires i < |p.pfds|
    ensures var inn, out := revents * {PollIn, PollHup} != {}, revents * {PollOut} != {};
            var q := if inn then ClearAt(p, i, PollIn) else p;
            (if out then ClearAt(q, i, PollOut) else q) ==
              p.(pfds := p.pfds[i := p.pfds[i].(events := p.pfds[i].events - Delivered(revents))])
  {
    var inn, out := revents * {PollIn, PollHup} != {}, revents * {PollOut} != {};
    var ev := p.pfds[i].events;
    if inn && out {
      assert ev - {PollIn} - {PollOut} == ev - Delivered(revents);
    } else if inn {
      assert Delivered(revents) == {PollIn};
    } else if out {
      assert Delivered(revents) == {PollOut};
    } else {
      assert ev - Delivered(revents) == ev;
    }
  }

  lemma {:induction false} ClearedRest(p: Poll, q: Poll, n: nat)
    requires n <= p.copycount <= |p.copy| && |p.copy| == |p.pfds| && Cleared(p, q, n) && Actives(p, n) == 0
    ensures Cleared(p, q, p.copycount)
    decreases p.copycount - n
  {
    if n < p.copycount {
      assert p.copy[n].revents == {} && Delivered({}) == {};
      assert p.pfds[n].events - {} == p.pfds[n].events;
      ClearedRest(p, q, n + 1);
    }
  }

  lemma SignalledStep(p: Poll, n: nat, fd: nat, flags: set<Flag>)
    requires n < |p.copy|
    ensures Signalled(p, n + 1, fd, flags) <==>
              Signalled(p, n, fd, flags) || (p.copy[n].fd == fd && p.copy[n].revents * flags != {})
  {
  }

  lemma EmptiedStep(p: Poll, n: nat, flags: set<Flag>, slots: map<nat, nat>, left: map<nat, nat>, left': map<nat, nat>,
                    ids: seq<nat>, ids': seq<nat>)
    requires n < |p.copy| && Emptied(p, n, flags, slots, left, ids)
    requires left' == if p.copy[n].revents * flags != {} then left - {p.copy[n].fd} else left
    requires forall id | id in ids :: id in ids'
    requires p.copy[n].revents * flags != {} && p.copy[n].fd in left ==> left[p.copy[n].fd] in ids'
    ensures Emptied(p, n + 1, flags, slots, left', ids')
    ensures forall id | Waited(slots, left, id) :: Waited(slots, left', id)
    ensures p.copy[n].revents * flags != {} && p.copy[n].fd in left ==> Waited(slots, left', left[p.copy[n].fd])
  {
    forall fd
      ensures fd in left' <==> fd in slots && !Signalled(p, n + 1, fd, flags)
    {
      SignalledStep(p, n, fd, flags);
    }
    forall id | Waited(slots, left, id)
      ensures Waited(slots, left', id)
    {
      var fd :| fd in slots && fd !in left && slots[fd] == id;
      assert fd !in left';
    }
  }

  /** One more entry answered. */
  lemma AnsweredStep(s: State, t: State, r: State, n: nat, ids: seq<nat>, more: seq<nat>)
    requires n < |s.poll.copy| && Answered(s, t, n, ids) && forall i | 0 <= i < n :: s.poll.copy[i].fd != s.poll.copy[n].fd
    requires var e := s.poll.copy[n];
             var inn, out := e.revents * {PollIn, PollHup} != {}, e.revents * {PollOut} != {};
             && r.read == (if inn then t.read - {e.fd} else t.read)
             && r.write == (if out then t.write - {e.fd} else t.write)
             && more == (if inn && e.fd in t.read then [t.read[e.fd]] else [])
                        + (if out && e.fd in t.write then [t.write[e.fd]] else [])
    ensures Answered(s, r, n + 1, ids + more)
  {
    hide Emptied, Waited, Signals, Signalled;
    SignalsStep(s, t, n, ids, more);
    EmptiedStep(s.poll, n, {PollIn, PollHup}, s.read, t.read, r.read, ids, ids + more);
    EmptiedStep(s.poll, n, {PollOut}, s.write, t.write, r.write, ids, ids + more);
  }

  lemma SignalsStep(s: State, t: State, n: nat, ids: seq<nat>, more: seq<nat>)
    requires n < |s.poll.copy| && ids == Signals(s, n) && forall i | 0 <= i < n :: s.poll.copy[i].fd != s.poll.copy[n].fd
    requires Emptied(s.poll, n, {PollIn, PollHup}, s.read, t.read, ids) && Emptied(s.poll, n, {PollOut}, s.write, t.write, ids)
    requires var e := s.poll.copy[n];
             more == (if e.revents * {PollIn, PollHup} != {} && e.fd in t.read then [t.read[e.fd]] else [])
                     + (if e.revents * {PollOut} != {} && e.fd in t.write then [t.write[e.fd]] else [])
    ensures ids + more == Signals(s, n + 1)
  {
    hide Emptied, Signalled;
    StillWaiting(s.poll, n, {PollIn, PollHup}, s.read, t.read, ids);
    StillWaiting(s.poll, n, {PollOut}, s.write, t.write, ids);
  }

  /** Whoever waits for the descriptor of entry `n` is still there. */
  lemma StillWaiting(p: Poll, n: nat, flags: set<Flag>, slots: map<nat, nat>, left: map<nat, nat>, ids: seq<nat>)
    requires n < |p.copy| && Emptied(p, n, flags, slots, left, ids) && forall i | 0 <= i < n :: p.copy[i].fd != p.copy[n].fd
    ensures var fd := p.copy[n].fd; (fd in left <==> fd in slots) && (fd in left ==> left[fd] == slots[fd])
  {
    assert !Signalled(p, n, p.copy[n].fd, flags);
  }

  lemma AnsweredNone(s: State)
    ensures Answered(s, s, 0, [])
  {
  }

  /** Entries with nothing reported change nothing. */
  lemma {:induction false} AnsweredRest(s: State, r: State, n: nat, ids: seq<nat>)
    requires n <= s.poll.copycount <= |s.poll.copy| && Answered(s, r, n, ids) && Actives(s.poll, n) == 0
    requires forall i, j | 0 <= i < j < s.poll.copycount :: s.poll.copy[i].fd != s.poll.copy[j].fd
    ensures Answered(s, r, s.poll.copycount, ids)
    decreases s.poll.copycount - n
  {
    if n < s.poll.copycount {
      assert s.poll.copy[n].revents == {};
      assert ids + [] == ids;
      hide Answered;
      AnsweredStep(s, r, r, n, ids, []);
      AnsweredRest(s, r, n + 1, ids);
    }
  }

  /** Only the copy and the slots matter to what was answered. */
  lemma AnsweredAlike(s: State, t: State, r: State, r': State, n: nat, ids: seq<nat>)
    requires n <= |t.poll.copy| && Answered(t, r, n, ids)
    requires s.poll.copy == t.poll.copy && s.read == t.read && s.write == t.write && r'.read == r.read && r'.write == r.write
    ensures Answered(s, r', n, ids)
  {
    SignalsAlike(s, t, n);
    hide Signals;
    forall fd, flags
      ensures Signalled(s.poll, n, fd, flags) <==> Signalled(t.poll, n, fd, flags)
    {
    }
  }

  lemma {:induction false} SignalsAlike(s: State, t: State, n: nat)
    requires n <= |t.poll.copy| && s.poll.copy == t.poll.copy && s.read == t.read && s.write == t.write
    ensures Signals(s, n) == Signals(t, n)
  {
    if n > 0 {
      SignalsAlike(s, t, n - 1);
    }
  }

  /** Nor do the poll arrays matter to what was promoted. */
  lemma PromotedAlike(s: State, s': State, r: State, r': State, ids: seq<nat>)
    requires Promoted(s, r, ids) && s' == s.(poll := s'.poll) && r' == r.(poll := r'.poll)
    ensures Promoted(s', r', ids)
  {
  }
}
