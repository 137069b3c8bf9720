/** The elementary moves of the scheduler on its state: taking a structure,
    housing it, moving it out and giving it back, each keeping the invariant. */
module SchedSteps {
  import opened Wrappers
  import opened SchedState

  /** The structure the next scheduling uses: the first unused one, or a new one. */
  function GetId(s: State, spare: nat): nat {
    if s.unuse != [] then s.unuse[0] else spare
  }

  function Get(s: State, spare: nat, th: Thread): State {
    s.(threads := s.threads[GetId(s, spare) := th],
       unuse := if s.unuse != [] then s.unuse[1..] else [],
       alloc := if s.unuse != [] then s.alloc else s.alloc + 1,
       hist := s.hist[th.func := (if th.func in s.hist then s.hist[th.func] else 0) + 1],
       ledger := s.ledger.(next := s.ledger.next + 1))
  }

  /** Clears structure `id`, whose record counts one less, and keeps it for reuse or
      frees it. */
  function Store(s: State, id: nat): State
    requires id in s.threads && s.threads[id].func in s.hist
  {
    var f := s.threads[id].func;
    var keep := |s.unuse| < THREAD_UNUSED_DEPTH;
    s.(threads := if keep then s.threads[id := BLANK] else s.threads - {id},
       unuse := if keep then s.unuse + [id] else s.unuse,
       alloc := if keep then s.alloc else s.alloc - 1,
       hist := s.hist[f := s.hist[f] - 1])
  }

  /** Gives thread `id` back: its caller's reference is cleared and its scheduling
      entered as started or cancelled. */
  function Retire(s: State, id: nat, cancelled: bool): State
    requires id in s.threads && s.threads[id].func in s.hist
  {
    var t := s.threads[id];
    Store(s.(refs := if t.ref.Some? then s.refs - {t.ref.value} else s.refs,
             ledger := if cancelled then s.ledger.(cancelled := s.ledger.cancelled + {t.task})
                       else s.ledger.(started := s.ledger.started + {t.task})), id)
  }

  // ---- containers when thread `id` changes without being in one ----

  /** `b` is `a` with thread `id` changed, added or removed. */
  ghost predicate Only(a: map<nat, Thread>, b: map<nat, Thread>, id: nat) {
    && (forall i | i in a && i != id :: i in b && b[i] == a[i])
    && (forall i | i in b && i != id :: i in a)
  }

  lemma SlotsOnly(a: map<nat, Thread>, b: map<nat, Thread>, id: nat, slots: map<nat, nat>, kind: Kind)
    requires Only(a, b, id) && SlotsExact(a, slots, kind, Some(id))
    ensures SlotsExact(b, slots, kind, Some(id))
  {
  }

  lemma TimersOnly(a: map<nat, Thread>, b: map<nat, Thread>, id: nat, timers: set<TimerEntry>)
    requires Only(a, b, id) && TimersExact(a, timers, Some(id))
    ensures TimersExact(b, timers, Some(id))
  {
  }

  lemma ListOnly(a: map<nat, Thread>, b: map<nat, Thread>, id: nat, list: seq<nat>, kind: Kind)
    requires Only(a, b, id) && ListExact(a, list, kind, Some(id))
    ensures ListExact(b, list, kind, Some(id))
  {
  }

  lemma EventsOnly(a: map<nat, Thread>, b: map<nat, Thread>, id: nat, list: seq<nat>, executing: set<nat>)
    requires Only(a, b, id) && EventsExact(a, list, executing, Some(id))
    ensures EventsExact(b, list, executing, Some(id))
  {
  }

  lemma HousedOnly(s: State, s': State, id: nat)
    requires Housed(s, Some(id)) && Only(s.threads, s'.threads, id)
    requires s'.read == s.read && s'.write == s.write && s'.timers == s.timers && s'.event == s.event
    requires s'.executing == s.executing && s'.ready == s.ready && s'.unuse == s.unuse
    ensures Housed(s', Some(id))
  {
    SlotsOnly(s.threads, s'.threads, id, s.read, Read);
    SlotsOnly(s.threads, s'.threads, id, s.write, Write);
    TimersOnly(s.threads, s'.threads, id, s.timers);
    EventsOnly(s.threads, s'.threads, id, s.event, s.executing);
    ListOnly(s.threads, s'.threads, id, s.ready, Ready);
    ListOnly(s.threads, s'.threads, id, s.unuse, Unused);
  }

  // ---- leaving a thread out of account and taking it back in ----

  /** Whether a thread of type `kind` is left out matters only to its container. */
  lemma SlotsElse(threads: map<nat, Thread>, slots: map<nat, nat>, kind: Kind, id: nat)
    requires id in threads ==> threads[id].kind != kind
    ensures SlotsExact(threads, slots, kind, Some(id)) <==> SlotsExact(threads, slots, kind, None)
  {
  }

  lemma TimersElse(threads: map<nat, Thread>, timers: set<TimerEntry>, id: nat)
    requires id in threads ==> threads[id].kind != Timer
    ensures TimersExact(threads, timers, Some(id)) <==> TimersExact(threads, timers, None)
  {
  }

  lemma ListElse(threads: map<nat, Thread>, list: seq<nat>, kind: Kind, id: nat)
    requires id in threads ==> threads[id].kind != kind
    ensures ListExact(threads, list, kind, Some(id)) <==> ListExact(threads, list, kind, None)
  {
  }

  lemma EventsElse(threads: map<nat, Thread>, list: seq<nat>, executing: set<nat>, id: nat)
    requires id in threads ==> threads[id].kind != Event
    ensures EventsExact(threads, list, executing, Some(id)) <==> EventsExact(threads, list, executing, None)
  {
  }

  /** All containers that thread `id` does not belong in, at once. */
  lemma Elsewhere(s: State, id: nat)
    ensures (id in s.threads ==> s.threads[id].kind != Read) ==>
              (SlotsExact(s.threads, s.read, Read, Some(id)) <==> SlotsExact(s.threads, s.read, Read, None))
    ensures (id in s.threads ==> s.threads[id].kind != Write) ==>
              (SlotsExact(s.threads, s.write, Write, Some(id)) <==> SlotsExact(s.threads, s.write, Write, None))
    ensures (id in s.threads ==> s.threads[id].kind != Timer) ==>
              (TimersExact(s.threads, s.timers, Some(id)) <==> TimersExact(s.threads, s.timers, None))
    ensures (id in s.threads ==> s.threads[id].kind != Event) ==>
              (EventsExact(s.threads, s.event, s.executing, Some(id)) <==> EventsExact(s.threads, s.event, s.executing, None))
    ensures (id in s.threads ==> s.threads[id].kind != Ready) ==>
              (ListExact(s.threads, s.ready, Ready, Some(id)) <==> ListExact(s.threads, s.ready, Ready, None))
    ensures (id in s.threads ==> s.threads[id].kind != Unused) ==>
              (ListExact(s.threads, s.unuse, Unused, Some(id)) <==> ListExact(s.threads, s.unuse, Unused, None))
  {
    if id in s.threads ==> s.threads[id].kind != Read { SlotsElse(s.threads, s.read, Read, id); }
    if id in s.threads ==> s.threads[id].kind != Write { SlotsElse(s.threads, s.write, Write, id); }
    if id in s.threads ==> s.threads[id].kind != Timer { TimersElse(s.threads, s.timers, id); }
    if id in s.threads ==> s.threads[id].kind != Event { EventsElse(s.threads, s.event, s.executing, id); }
    if id in s.threads ==> s.threads[id].kind != Ready { ListElse(s.threads, s.ready, Ready, id); }
    if id in s.threads ==> s.threads[id].kind != Unused { ListElse(s.threads, s.unuse, Unused, id); }
  }

  // ---- the books ----

  lemma ActiveGrows(threads: map<nat, Thread>, id: nat, th: Thread, f: nat)
    requires id in threads ==> !threads[id].Live()
    requires th.Live()
    ensures |Active(threads[id := th], f)| == |Active(threads, f)| + (if th.func == f then 1 else 0)
  {
    if th.func == f {
      assert Active(threads[id := th], f) == Active(threads, f) + {id};
    } else {
      assert Active(threads[id := th], f) == Active(threads, f);
    }
  }

  lemma LiveTasksGrow(threads: map<nat, Thread>, id: nat, th: Thread)
    requires id in threads ==> !threads[id].Live()
    requires th.Live()
    ensures LiveTasks(threads[id := th]) == LiveTasks(threads) + {th.task}
  {
    var threads' := threads[id := th];
    assert th.task in LiveTasks(threads') by {
      assert threads'[id].task == th.task;
    }
    forall t | t in LiveTasks(threads)
      ensures t in LiveTasks(threads')
    {
      var i :| i in threads && threads[i].Live() && threads[i].task == t;
      assert threads'[i] == threads[i];
    }
  }

  lemma GetCounted(s: State, spare: nat, th: Thread)
    requires Counted(s.threads, s.hist, s.alloc) && spare !in s.threads && th.Live()
    requires ListExact(s.threads, s.unuse, Unused, None)
    ensures var s' := Get(s, spare, th); Counted(s'.threads, s'.hist, s'.alloc)
  {
    hide ListExact, Active;
    var s', id := Get(s, spare, th), GetId(s, spare);
    GetFree(s, spare);
    assert s'.threads.Keys == s.threads.Keys + {id};
    forall f | f in s'.hist
      ensures s'.hist[f] == |Active(s'.threads, f)|
    {
      ActiveGrows(s.threads, id, th, f);
      NoneActive(s.threads, s.hist, s.alloc, f);
    }
  }

  /** The structure taken is unused or new. */
  lemma GetFree(s: State, spare: nat)
    requires ListExact(s.threads, s.unuse, Unused, None)
    ensures s.unuse != [] ==> GetId(s, spare) in s.threads && !s.threads[GetId(s, spare)].Live()
  {
    if s.unuse != [] {
      assert s.unuse[0] in s.unuse;
    }
  }

  lemma NoneActive(threads: map<nat, Thread>, hist: map<nat, int>, alloc: int, f: nat)
    requires Counted(threads, hist, alloc)
    ensures f !in hist ==> |Active(threads, f)| == 0
  {
    if f !in hist {
      assert Active(threads, f) == {};
    }
  }

  lemma GetConserved(s: State, spare: nat, th: Thread)
    requires Conserved(s.threads, s.ledger) && spare !in s.threads && th.Live() && th.task == s.ledger.next
    requires ListExact(s.threads, s.unuse, Unused, None)
    ensures var s' := Get(s, spare, th); Conserved(s'.threads, s'.ledger)
  {
    var s', id := Get(s, spare, th), GetId(s, spare);
    if s.unuse != [] {
      assert s.unuse[0] in s.unuse;
    }
    LiveTasksGrow(s.threads, id, th);
    forall a | a in s.threads && s.threads[a].Live()
      ensures s.threads[a].task < th.task
    {
      assert s.threads[a].task in LiveTasks(s.threads) + s.ledger.started + s.ledger.cancelled;
    }
    assert th.task !in LiveTasks(s.threads) + s.ledger.started + s.ledger.cancelled;
  }

  lemma GetReferenced(s: State, spare: nat, th: Thread)
    requires Referenced(s.threads, s.refs) && spare !in s.threads && th.ref.None?
    requires ListExact(s.threads, s.unuse, Unused, None)
    ensures var s' := Get(s, spare, th); Referenced(s'.threads, s'.refs)
  {
    if s.unuse != [] {
      assert s.unuse[0] in s.unuse;
    }
  }

  /** The unused list without its first element. */
  lemma GetUnuse(s: State, spare: nat, th: Thread)
    requires spare !in s.threads && ListExact(s.threads, s.unuse, Unused, None)
    ensures var s' := Get(s, spare, th); ListExact(s'.threads, s'.unuse, Unused, Some(GetId(s, spare)))
  {
    if s.unuse != [] {
      var rest := s.unuse[1..];
      assert s.unuse == [s.unuse[0]] + rest;
      assert s.unuse[0] !in rest;
    }
  }

  lemma GetHoused(s: State, spare: nat, th: Thread)
    requires Housed(s, None) && spare !in s.threads
    ensures Housed(Get(s, spare, th), Some(GetId(s, spare)))
  {
    var s', id := Get(s, spare, th), GetId(s, spare);
    GetUnuse(s, spare, th);
    assert id in s.threads ==> s.threads[id].kind == Unused by {
      if s.unuse != [] {
        assert s.unuse[0] in s.unuse;
      }
    }
    Elsewhere(s, id);
    SlotsOnly(s.threads, s'.threads, id, s.read, Read);
    SlotsOnly(s.threads, s'.threads, id, s.write, Write);
    TimersOnly(s.threads, s'.threads, id, s.timers);
    EventsOnly(s.threads, s'.threads, id, s.event, s.executing);
    ListOnly(s.threads, s'.threads, id, s.ready, Ready);
  }

  /** Taking a structure leaves it the only one without a container. */
  lemma GetInv(s: State, spare: nat, th: Thread)
    requires Inv(s) && spare !in s.threads && th.Live() && th.ref.None? && th.task == s.ledger.next
    ensures InvBut(Get(s, spare, th), GetId(s, spare))
  {
    hide Referenced, Counted, Conserved, Polled, SlotsExact, TimersExact, EventsExact, ListExact;
    GetFree(s, spare);
    GetCounted(s, spare, th);
    GetConserved(s, spare, th);
    GetReferenced(s, spare, th);
    GetHoused(s, spare, th);
  }

  /** The test by which a structure taken for `func` would keep its history record: it is
      a reused one and names that function already. */
  predicate KeepsRecord(s: State, func: nat) {
    s.unuse != [] && s.unuse[0] in s.threads && s.threads[s.unuse[0]].func == func
  }

  /** No structure keeps its record, whatever it was used for before: the test fails for
      every function but the null one that a cleared structure holds. */
  lemma RecordLookedUp(s: State, func: nat)
    requires Inv(s)
    ensures KeepsRecord(s, func) <==> s.unuse != [] && func == 0
  {
    if s.unuse != [] {
      assert s.unuse[0] in s.unuse;
    }
  }

  // ---- giving a structure back ----

  lemma RetireCounted(s: State, id: nat, cancelled: bool)
    requires Counted(s.threads, s.hist, s.alloc) && id in s.threads && s.threads[id].Live()
    ensures var s' := Retire(s, id, cancelled); Counted(s'.threads, s'.hist, s'.alloc)
  {
    var s', t := Retire(s, id, cancelled), s.threads[id];
    if |s.unuse| < THREAD_UNUSED_DEPTH {
      assert s'.threads.Keys == s.threads.Keys;
    } else {
      assert s'.threads.Keys == s.threads.Keys - {id};
    }
    forall f | f in s'.hist
      ensures s'.hist[f] == |Active(s'.threads, f)|
    {
      if f == t.func {
        assert Active(s'.threads, f) == Active(s.threads, f) - {id};
      } else {
        assert Active(s'.threads, f) == Active(s.threads, f);
      }
    }
  }

  lemma RetireConserved(s: State, id: nat, cancelled: bool)
    requires Conserved(s.threads, s.ledger) && id in s.threads && s.threads[id].Live() && s.threads[id].func in s.hist
    ensures var s' := Retire(s, id, cancelled); Conserved(s'.threads, s'.ledger)
  {
    var s', t := Retire(s, id, cancelled), s.threads[id].task;
    assert t in LiveTasks(s.threads);
    assert LiveTasks(s'.threads) == LiveTasks(s.threads) - {t} by {
      forall x | x in LiveTasks(s.threads) && x != t
        ensures x in LiveTasks(s'.threads)
      {
        var i :| i in s.threads && s.threads[i].Live() && s.threads[i].task == x;
        assert s'.threads[i] == s.threads[i];
      }
    }
    assert LiveTasks(s'.threads) + s'.ledger.started + s'.ledger.cancelled
        == LiveTasks(s.threads) + s.ledger.started + s.ledger.cancelled;
  }

  lemma RetireReferenced(s: State, id: nat, cancelled: bool)
    requires Referenced(s.threads, s.refs) && id in s.threads && s.threads[id].Live() && s.threads[id].func in s.hist
    ensures var s' := Retire(s, id, cancelled); Referenced(s'.threads, s'.refs)
  {
  }

  lemma RetireUnuse(s: State, id: nat, cancelled: bool)
    requires id in s.threads && s.threads[id].Live() && s.threads[id].func in s.hist
    requires ListExact(s.threads, s.unuse, Unused, Some(id))
    ensures var s' := Retire(s, id, cancelled); ListExact(s'.threads, s'.unuse, Unused, None)
  {
    var s' := Retire(s, id, cancelled);
    assert id !in s.unuse;
    if |s.unuse| < THREAD_UNUSED_DEPTH {
      assert s'.unuse[|s.unuse|] == id;
      assert forall i | i in s'.unuse :: i in s.unuse || i == id;
    }
  }

  /** Giving back a thread that left its container restores the invariant. */
  lemma RetireInv(s: State, id: nat, cancelled: bool)
    requires InvBut(s, id)
    ensures Inv(Retire(s, id, cancelled))
  {
    hide Kept, Housed;
    RetireKept(s, id, cancelled);
    RetireHoused(s, id, cancelled);
  }

  lemma RetireKept(s: State, id: nat, cancelled: bool)
    requires Kept(s) && id in s.threads && s.threads[id].Live()
    ensures s.threads[id].func in s.hist && Kept(Retire(s, id, cancelled))
  {
    hide Referenced, Conserved, Polled, Active;
    RetireCounted(s, id, cancelled);
    RetireConserved(s, id, cancelled);
    RetireReferenced(s, id, cancelled);
  }

  lemma RetireHoused(s: State, id: nat, cancelled: bool)
    requires Housed(s, Some(id)) && id in s.threads && s.threads[id].Live() && s.threads[id].func in s.hist
    ensures Housed(Retire(s, id, cancelled), None)
  {
    hide SlotsExact, TimersExact, EventsExact, ListExact;
    var s' := Retire(s, id, cancelled);
    RetireUnuse(s, id, cancelled);
    SlotsOnly(s.threads, s'.threads, id, s.read, Read);
    SlotsOnly(s.threads, s'.threads, id, s.write, Write);
    TimersOnly(s.threads, s'.threads, id, s.timers);
    EventsOnly(s.threads, s'.threads, id, s.event, s.executing);
    ListOnly(s.threads, s'.threads, id, s.ready, Ready);
    Elsewhere(s', id);
  }
}
