/** Housing a thread in a container and moving it out again. */
module SchedMoves {
  import opened Wrappers
  import opened Lists
  import opened SchedState
  import opened SchedSteps

  /** The list without its element at `k`. */
  function Drop(s: seq<nat>, k: nat): seq<nat>
    requires k < |s|
  {
    s[..k] + s[k + 1..]
  }

  lemma DropExact(s: seq<nat>, k: nat)
    requires k < |s| && Distinct(s)
    ensures Distinct(Drop(s, k))
    ensures forall x :: x in Drop(s, k) <==> x in s && x != s[k]
  {
    var d := Drop(s, k);
    assert forall i | 0 <= i < |d| :: d[i] == if i < k then s[i] else s[i + 1];
    forall x | x in s && x != s[k]
      ensures x in d
    {
      var i :| 0 <= i < |s| && s[i] == x;
      assert d[if i < k then i else i - 1] == x;
    }
  }

  lemma SnocExact(s: seq<nat>, x: nat)
    requires Distinct(s) && x !in s
    ensures Distinct(s + [x]) && forall y :: y in s + [x] <==> y in s || y == x
  {
    assert (s + [x])[|s|] == x;
  }

  // ---- housing ----

  lemma AttachEvent(s: State, id: nat)
    requires InvBut(s, id) && s.threads[id].kind.Event?
    ensures Inv(s.(event := s.event + [id]))
  {
    Elsewhere(s, id);
    SnocExact(s.event, id);
  }

  lemma AttachExecuting(s: State, id: nat)
    requires InvBut(s, id) && s.threads[id].kind.Event?
    ensures Inv(s.(executing := s.executing + {id}))
  {
    Elsewhere(s, id);
  }

  lemma AttachReady(s: State, id: nat)
    requires InvBut(s, id) && s.threads[id].kind.Ready?
    ensures Inv(s.(ready := s.ready + [id]))
  {
    Elsewhere(s, id);
    SnocExact(s.ready, id);
  }

  lemma AttachTimer(s: State, id: nat)
    requires InvBut(s, id) && s.threads[id].kind.Timer? && s.threads[id].u.Sands?
    ensures Inv(s.(timers := s.timers + {TimerEntry(s.threads[id].u.sands, id)}))
  {
    Elsewhere(s, id);
  }

  lemma SlotFilled(threads: map<nat, Thread>, slots: map<nat, nat>, kind: Kind, id: nat, fd: nat)
    requires SlotsExact(threads, slots, kind, Some(id)) && fd !in slots
    requires id in threads && threads[id].kind == kind && threads[id].u == Fd(fd)
    ensures SlotsExact(threads, slots[fd := id], kind, None)
  {
  }

  lemma AttachRead(s: State, id: nat, fd: nat, p: Poll)
    requires InvBut(s, id) && s.threads[id].kind.Read? && s.threads[id].u == Fd(fd) && fd !in s.read
    requires Polled(p, s.read[fd := id], s.write)
    ensures Inv(s.(read := s.read[fd := id], poll := p))
  {
    Elsewhere(s, id);
    SlotFilled(s.threads, s.read, Read, id, fd);
  }

  lemma AttachWrite(s: State, id: nat, fd: nat, p: Poll)
    requires InvBut(s, id) && s.threads[id].kind.Write? && s.threads[id].u == Fd(fd) && fd !in s.write
    requires Polled(p, s.read, s.write[fd := id])
    ensures Inv(s.(write := s.write[fd := id], poll := p))
  {
    Elsewhere(s, id);
    SlotFilled(s.threads, s.write, Write, id, fd);
  }

  // ---- moving out ----

  lemma DetachEvent(s: State, k: nat)
    requires Inv(s) && k < |s.event|
    ensures InvBut(s.(event := Drop(s.event, k)), s.event[k])
  {
    assert s.event[k] in s.event;
    Elsewhere(s, s.event[k]);
    DropExact(s.event, k);
  }

  lemma DetachReady(s: State, k: nat)
    requires Inv(s) && k < |s.ready|
    ensures InvBut(s.(ready := Drop(s.ready, k)), s.ready[k])
  {
    assert s.ready[k] in s.ready;
    Elsewhere(s, s.ready[k]);
    DropExact(s.ready, k);
  }

  lemma DetachExecuting(s: State, id: nat)
    requires Inv(s) && id in s.executing
    ensures InvBut(s.(executing := s.executing - {id}), id)
  {
    Elsewhere(s, id);
  }

  lemma DetachTimer(s: State, e: TimerEntry)
    requires Inv(s) && e in s.timers
    ensures InvBut(s.(timers := s.timers - {e}), e.id)
  {
    Elsewhere(s, e.id);
  }

  lemma SlotEmptied(threads: map<nat, Thread>, slots: map<nat, nat>, kind: Kind, fd: nat)
    requires SlotsExact(threads, slots, kind, None) && fd in slots
    ensures SlotsExact(threads, slots - {fd}, kind, Some(slots[fd]))
  {
  }

  lemma DetachRead(s: State, fd: nat, p: Poll)
    requires Inv(s) && fd in s.read && Polled(p, s.read - {fd}, s.write)
    ensures InvBut(s.(read := s.read - {fd}, poll := p), s.read[fd])
  {
    Elsewhere(s, s.read[fd]);
    SlotEmptied(s.threads, s.read, Read, fd);
  }

  lemma DetachWrite(s: State, fd: nat, p: Poll)
    requires Inv(s) && fd in s.write && Polled(p, s.read, s.write - {fd})
    ensures InvBut(s.(write := s.write - {fd}, poll := p), s.write[fd])
  {
    Elsewhere(s, s.write[fd]);
    SlotEmptied(s.threads, s.write, Write, fd);
  }

  // ---- changing a thread that is in no container ----

  lemma SameTasks(a: map<nat, Thread>, b: map<nat, Thread>)
    requires a.Keys == b.Keys
    requires forall i | i in a :: a[i].Live() == b[i].Live() && a[i].task == b[i].task
    ensures LiveTasks(a) == LiveTasks(b)
  {
    forall t
      ensures t in LiveTasks(a) <==> t in LiveTasks(b)
    {
      if t in LiveTasks(a) {
        var i :| i in a && a[i].Live() && a[i].task == t;
        assert b[i].task == t;
      }
      if t in LiveTasks(b) {
        var i :| i in b && b[i].Live() && b[i].task == t;
        assert a[i].task == t;
      }
    }
  }

  lemma BooksKept(threads: map<nat, Thread>, id: nat, th: Thread, hist: map<nat, int>, alloc: int, ledger: Ledger)
    requires Counted(threads, hist, alloc) && Conserved(threads, ledger)
    requires id in threads && threads[id].Live() && th.Live() && th.func == threads[id].func && th.task == threads[id].task
    ensures Counted(threads[id := th], hist, alloc) && Conserved(threads[id := th], ledger)
  {
    hide Conserved, LiveTasks;
    var b := threads[id := th];
    assert b.Keys == threads.Keys;
    forall f
      ensures Active(b, f) == Active(threads, f)
    {
    }
    TasksKept(threads, id, th, ledger);
  }

  lemma TasksKept(threads: map<nat, Thread>, id: nat, th: Thread, ledger: Ledger)
    requires Conserved(threads, ledger) && id in threads && threads[id].Live() && th.Live() && th.task == threads[id].task
    ensures Conserved(threads[id := th], ledger)
  {
    SameTasks(threads, threads[id := th]);
  }

  lemma SameReferences(threads: map<nat, Thread>, refs: map<nat, nat>, id: nat, th: Thread)
    requires Referenced(threads, refs) && id in threads && threads[id].Live() && th.Live() && th.ref == threads[id].ref
    ensures Referenced(threads[id := th], refs)
  {
  }

  lemma TiedReferences(threads: map<nat, Thread>, refs: map<nat, nat>, id: nat, r: nat)
    requires Referenced(threads, refs) && id in threads && threads[id].Live() && threads[id].ref.None? && r !in refs
    ensures Referenced(threads[id := threads[id].(ref := Some(r))], refs[r := id])
  {
  }

  lemma Rekind(s: State, id: nat, th: Thread)
    requires InvBut(s, id) && th.Live() && th == s.threads[id].(kind := th.kind, u := th.u)
    ensures InvBut(s.(threads := s.threads[id := th]), id)
  {
    BooksKept(s.threads, id, th, s.hist, s.alloc, s.ledger);
    SameReferences(s.threads, s.refs, id, th);
    ThreadsOnly(s, s.threads[id := th], id, s.refs);
  }

  lemma ThreadsOnly(s: State, threads: map<nat, Thread>, id: nat, refs: map<nat, nat>)
    requires InvBut(s, id) && Only(s.threads, threads, id) && id in threads && threads[id].Live()
    requires Referenced(threads, refs) && Counted(threads, s.hist, s.alloc) && Conserved(threads, s.ledger)
    ensures InvBut(s.(threads := threads, refs := refs), id)
  {
    HousedOnly(s, s.(threads := threads, refs := refs), id);
  }

  /** A caller's empty reference is tied to the thread. */
  lemma Tie(s: State, id: nat, r: nat)
    requires InvBut(s, id) && s.threads[id].ref.None? && r !in s.refs
    ensures InvBut(s.(threads := s.threads[id := s.threads[id].(ref := Some(r))], refs := s.refs[r := id]), id)
  {
    var th := s.threads[id].(ref := Some(r));
    BooksKept(s.threads, id, th, s.hist, s.alloc, s.ledger);
    TiedReferences(s.threads, s.refs, id, r);
    ThreadsOnly(s, s.threads[id := th], id, s.refs[r := id]);
  }
}
