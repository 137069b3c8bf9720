/** The state of a thread master and the invariant its operations keep. */
module SchedState {
  import opened Wrappers
  import opened Lists

  datatype Kind = Read | Write | Timer | Event | Ready | Unused

  /** The union holding an event value, a descriptor or a deadline. */
  datatype Payload = Val(val: int) | Fd(fd: nat) | Sands(sands: int)

  /** A thread structure.  `func` names the function and its history record, `task`
      the scheduling this structure currently stands for. */
  datatype Thread = Thread(kind: Kind, ref: Option<nat>, func: nat, arg: nat, u: Payload, task: nat) {
    predicate Live() {
      !kind.Unused?
    }
  }

  /** A structure on the unused list. */
  const BLANK := Thread(Unused, None, 0, 0, Val(0), 0)

  datatype TimerEntry = TimerEntry(sands: int, id: nat)

  datatype Flag = PollIn | PollOut | PollHup | PollErr

  datatype PollFd = PollFd(fd: nat, events: set<Flag>, revents: set<Flag>)

  /** The poll arrays, as long as there may be descriptors: only the first `count` and
      `copycount` entries are in use, and the copy matters while `polling`.  `ear` and
      `mouth` are the ends of the master's own wake-up pipe. */
  datatype Poll = Poll(pfds: seq<PollFd>, count: nat, copy: seq<PollFd>, copycount: nat, polling: bool, ear: nat, mouth: nat)

  /** Every scheduling ever made is numbered; it is live, started or cancelled. */
  datatype Ledger = Ledger(next: nat, started: set<nat>, cancelled: set<nat>)

  datatype State = State(
    threads: map<nat, Thread>, read: map<nat, nat>, write: map<nat, nat>, timers: set<TimerEntry>,
    event: seq<nat>, ready: seq<nat>, unuse: seq<nat>, executing: set<nat>,
    refs: map<nat, nat>, hist: map<nat, int>, alloc: int, poll: Poll, ledger: Ledger)

  const THREAD_UNUSED_DEPTH: nat := 10

  /** A slot array holds exactly the threads of its type, each at its descriptor.
      Here and below thread `but`, if any, is left out of account. */
  ghost predicate SlotsExact(threads: map<nat, Thread>, slots: map<nat, nat>, kind: Kind, but: Option<nat>) {
    && (forall fd | fd in slots ::
          && slots[fd] in threads && Some(slots[fd]) != but
          && threads[slots[fd]].kind == kind && threads[slots[fd]].u == Fd(fd))
    && (forall id | id in threads && threads[id].kind == kind && Some(id) != but ::
          threads[id].u.Fd? && threads[id].u.fd in slots && slots[threads[id].u.fd] == id)
  }

  /** The timer queue holds exactly the timers, each under its deadline. */
  ghost predicate TimersExact(threads: map<nat, Thread>, timers: set<TimerEntry>, but: Option<nat>) {
    && (forall e | e in timers ::
          && e.id in threads && Some(e.id) != but
          && threads[e.id].kind == Timer && threads[e.id].u == Sands(e.sands))
    && (forall id | id in threads && threads[id].kind == Timer && Some(id) != but ::
          threads[id].u.Sands? && TimerEntry(threads[id].u.sands, id) in timers)
  }

  /** A list holds exactly the threads of its type, each once. */
  ghost predicate ListExact(threads: map<nat, Thread>, list: seq<nat>, kind: Kind, but: Option<nat>) {
    && (forall id :: id in list <==> id in threads && threads[id].kind == kind && Some(id) != but)
    && Distinct(list)
  }

  /** An event is on the event list or being executed directly, never both. */
  ghost predicate EventsExact(threads: map<nat, Thread>, list: seq<nat>, executing: set<nat>, but: Option<nat>) {
    && (forall id :: id in list || id in executing <==> id in threads && threads[id].kind == Event && Some(id) != but)
    && (forall id | id in list :: id !in executing)
    && Distinct(list)
  }

  /** Callers' references and threads point at each other. */
  ghost predicate Referenced(threads: map<nat, Thread>, refs: map<nat, nat>) {
    && (forall r | r in refs :: refs[r] in threads && threads[refs[r]].Live() && threads[refs[r]].ref == Some(r))
    && (forall id | id in threads && threads[id].Live() && threads[id].ref.Some? ::
          threads[id].ref.value in refs && refs[threads[id].ref.value] == id)
  }

  /** The live threads running function `f`. */
  ghost function Active(threads: map<nat, Thread>, f: nat): set<nat> {
    set id | id in threads && threads[id].Live() && threads[id].func == f
  }

  /** The counters: structures allocated, and for each history record the live
      threads that use it. */
  ghost predicate Counted(threads: map<nat, Thread>, hist: map<nat, int>, alloc: int) {
    && alloc == |threads|
    && (forall id | id in threads && threads[id].Live() :: threads[id].func in hist)
    && (forall f | f in hist :: hist[f] == |Active(threads, f)|)
  }

  ghost function LiveTasks(threads: map<nat, Thread>): set<nat> {
    set id | id in threads && threads[id].Live() :: threads[id].task
  }

  /** Conservation: the schedulings made so far are exactly the live, the started
      and the cancelled ones, and no scheduling is two of these or live twice. */
  ghost predicate Conserved(threads: map<nat, Thread>, ledger: Ledger) {
    && (forall t :: t in LiveTasks(threads) + ledger.started + ledger.cancelled <==> 0 <= t < ledger.next)
    && LiveTasks(threads) !! ledger.started && LiveTasks(threads) !! ledger.cancelled
    && ledger.started !! ledger.cancelled
    && (forall a, b | a in threads && b in threads && a != b && threads[a].Live() && threads[b].Live() ::
          threads[a].task != threads[b].task)
  }

  /** Some poll entry watches `fd` for `flag`. */
  ghost predicate Watched(p: Poll, fd: nat, flag: Flag)
    requires p.count <= |p.pfds|
  {
    exists i | 0 <= i < p.count :: p.pfds[i].fd == fd && flag in p.pfds[i].events
  }

  /** The pipe's ends and the descriptors of the entries are below the limit, and no
      entry is for the pipe. */
  ghost predicate WithinLimit(p: Poll) {
    && p.ear != p.mouth && p.ear < |p.pfds| && p.mouth < |p.pfds| && p.count <= |p.pfds|
    && forall i | 0 <= i < p.count :: p.pfds[i].fd < |p.pfds| && p.pfds[i].fd != p.ear && p.pfds[i].fd != p.mouth
  }

  /** Each descriptor has at most one poll entry, and each pending reader and
      writer has one that asks for its event; while polling, the copy is in step. */
  ghost predicate Polled(p: Poll, read: map<nat, nat>, write: map<nat, nat>) {
    && |p.copy| == |p.pfds| && p.copycount <= |p.copy| && WithinLimit(p)
    && (forall i, j | 0 <= i < j < p.count :: p.pfds[i].fd != p.pfds[j].fd)
    && (forall fd | fd in read :: Watched(p, fd, PollIn))
    && (forall fd | fd in write :: Watched(p, fd, PollOut))
    && (p.polling ==> p.copycount <= p.count && forall i | 0 <= i < p.copycount :: p.copy[i].fd == p.pfds[i].fd)
  }

  /** A structure on the unused list names no function, argument or caller. */
  ghost predicate Blanked(threads: map<nat, Thread>) {
    forall id | id in threads && !threads[id].Live() :: threads[id] == BLANK
  }

  /** Every thread but `but` is in the container its type names, and only there. */
  ghost predicate Housed(s: State, but: Option<nat>) {
    && SlotsExact(s.threads, s.read, Read, but) && SlotsExact(s.threads, s.write, Write, but)
    && TimersExact(s.threads, s.timers, but)
    && EventsExact(s.threads, s.event, s.executing, but)
    && ListExact(s.threads, s.ready, Ready, but) && ListExact(s.threads, s.unuse, Unused, but)
  }

  ghost predicate Kept(s: State) {
    && Referenced(s.threads, s.refs) && Counted(s.threads, s.hist, s.alloc) && Conserved(s.threads, s.ledger)
    && |s.unuse| <= THREAD_UNUSED_DEPTH && Blanked(s.threads)
    && Polled(s.poll, s.read, s.write)
  }

  /** The invariant, but for thread `id`, which is live and in no container. */
  ghost predicate InvBut(s: State, id: nat) {
    id in s.threads && s.threads[id].Live() && Housed(s, Some(id)) && Kept(s)
  }

  ghost predicate Inv(s: State) {
    Housed(s, None) && Kept(s)
  }

  /** Every thread is in exactly one container. */
  lemma OneContainer(s: State, id: nat)
    requires Inv(s) && id in s.threads
    ensures (if exists fd :: fd in s.read && s.read[fd] == id then 1 else 0)
            + (if exists fd :: fd in s.write && s.write[fd] == id then 1 else 0)
            + (if exists e :: e in s.timers && e.id == id then 1 else 0)
            + (if id in s.event then 1 else 0) + (if id in s.ready then 1 else 0)
            + (if id in s.unuse then 1 else 0) + (if id in s.executing then 1 else 0) == 1
  {
    var t := s.threads[id];
    if t.kind.Read? {
      assert t.u.fd in s.read;
    } else if t.kind.Write? {
      assert t.u.fd in s.write;
    } else if t.kind.Timer? {
      assert TimerEntry(t.u.sands, id) in s.timers;
    }
  }
}
