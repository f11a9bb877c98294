/** The writer-preferring readers/writer lock of TEST/src/thread_utils.c.

    Every critical section of the four functions is one atomic action, because all of them run
    under the mutex `m`; `cond_wait` ends one action (the thread goes to sleep and releases `m`)
    and the return from it starts another one. There is no bound on the number of threads and
    a sleeping thread may wake up for no reason at any time.
 */
module ReadersWriter {

  type Tid = nat

  // Where a thread stands. A woken thread is inside the wait loop and about to test the guard again.
  datatype Pc = Idle | WokenRead | AsleepRead | Reading | WokenWrite | AsleepWrite | Writing

  datatype Lock = Lock(activeReaders: int, waitingWriters: int, writing: int, pc: map<Tid, Pc>)

  datatype Action =
    | BeginRead(t: Tid)
    | RetryRead(t: Tid)
    | EndRead(t: Tid)
    | BeginWrite(t: Tid)
    | RetryWrite(t: Tid)
    | EndWrite(t: Tid)
    | SpuriousWakeup(t: Tid)

  // --------------------------------------------------------------------------- the actions

  predicate ReaderMustWait(s: Lock) {
    s.waitingWriters != 0 || s.writing != 0
  }

  predicate WriterMustWait(s: Lock) {
    s.activeReaders != 0 || s.writing != 0
  }

  function Woken(p: Pc): Pc {
    match p
    case AsleepRead => WokenRead
    case AsleepWrite => WokenWrite
    case _ => p
  }

  // cond_broadcast: nobody stays asleep.
  function Broadcast(pc: map<Tid, Pc>): map<Tid, Pc> {
    map t | t in pc :: Woken(pc[t])
  }

  // The body of the wait loop of mrsw_lock_reader, run once.
  function TryRead(s: Lock, t: Tid): Lock {
    if ReaderMustWait(s) then
      s.(pc := s.pc[t := AsleepRead])
    else
      s.(activeReaders := s.activeReaders + 1, pc := s.pc[t := Reading])
  }

  // The body of the wait loop of mrsw_lock_writer, run once.
  function TryWrite(s: Lock, t: Tid): Lock {
    if WriterMustWait(s) then
      s.(pc := s.pc[t := AsleepWrite])
    else
      s.(waitingWriters := s.waitingWriters - 1, writing := 1, pc := s.pc[t := Writing])
  }

  function ReleaseRead(s: Lock, t: Tid): Lock {
    var pc := s.pc[t := Idle];
    s.(activeReaders := s.activeReaders - 1,
       pc := if s.activeReaders - 1 == 0 then Broadcast(pc) else pc)
  }

  function ReleaseWrite(s: Lock, t: Tid): Lock {
    s.(writing := 0, pc := Broadcast(s.pc[t := Idle]))
  }

  predicate Enabled(s: Lock, a: Action) {
    a.t in s.pc &&
    match a
    case BeginRead(t) => s.pc[t] == Idle
    case RetryRead(t) => s.pc[t] == WokenRead
    case EndRead(t) => s.pc[t] == Reading
    case BeginWrite(t) => s.pc[t] == Idle
    case RetryWrite(t) => s.pc[t] == WokenWrite
    case EndWrite(t) => s.pc[t] == Writing
    case SpuriousWakeup(t) => s.pc[t] == AsleepRead || s.pc[t] == AsleepWrite
  }

  function Apply(s: Lock, a: Action): Lock
    requires Enabled(s, a)
  {
    match a
    case BeginRead(t) => TryRead(s, t)
    case RetryRead(t) => TryRead(s, t)
    case EndRead(t) => ReleaseRead(s, t)
    case BeginWrite(t) => TryWrite(s.(waitingWriters := s.waitingWriters + 1), t)
    case RetryWrite(t) => TryWrite(s, t)
    case EndWrite(t) => ReleaseWrite(s, t)
    case SpuriousWakeup(t) => s.(pc := s.pc[t := Woken(s.pc[t])])
  }

  // A run is a sequence of actions, each enabled when its turn comes.
  predicate Runs(s: Lock, actions: seq<Action>)
    decreases |actions|
  {
    actions == [] || (Enabled(s, actions[0]) && Runs(Apply(s, actions[0]), actions[1..]))
  }

  function After(s: Lock, actions: seq<Action>): Lock
    requires Runs(s, actions)
    decreases |actions|
  {
    if actions == [] then s else After(Apply(s, actions[0]), actions[1..])
  }

  ghost predicate Initial(s: Lock) {
    s.activeReaders == 0 && s.waitingWriters == 0 && s.writing == 0 && forall t | t in s.pc :: s.pc[t] == Idle
  }

  // ------------------------------------------------------------------------- the invariant

  function ThreadsAt(s: Lock, p: Pc): set<Tid> {
    set t | t in s.pc && s.pc[t] == p
  }

  // The three counters count exactly the threads that they are meant to count.
  ghost predicate CountersExact(s: Lock) {
    && s.activeReaders == |ThreadsAt(s, Reading)|
    && s.waitingWriters == |ThreadsAt(s, WokenWrite)| + |ThreadsAt(s, AsleepWrite)|
    && s.writing == |ThreadsAt(s, Writing)|
  }

  ghost predicate Exclusion(s: Lock) {
    && |ThreadsAt(s, Writing)| <= 1
    && (ThreadsAt(s, Writing) == {} || ThreadsAt(s, Reading) == {})
  }

  // A thread that sleeps still has a reason to.
  ghost predicate NoLostWakeup(s: Lock) {
    forall t | t in s.pc ::
      && (s.pc[t] == AsleepRead ==> ReaderMustWait(s))
      && (s.pc[t] == AsleepWrite ==> WriterMustWait(s))
  }

  ghost predicate Inv(s: Lock) {
    CountersExact(s) && Exclusion(s) && NoLostWakeup(s)
  }

  // How the census of threads changes when thread t moves from its place to p.
  lemma MoveChangesCensus(s: Lock, s': Lock, t: Tid, p: Pc)
    requires t in s.pc && s.pc[t] != p && s'.pc == s.pc[t := p]
    ensures ThreadsAt(s', p) == ThreadsAt(s, p) + {t} && t !in ThreadsAt(s, p)
    ensures ThreadsAt(s', s.pc[t]) == ThreadsAt(s, s.pc[t]) - {t} && t in ThreadsAt(s, s.pc[t])
    ensures forall q | q != p && q != s.pc[t] :: ThreadsAt(s', q) == ThreadsAt(s, q)
  {
  }

  // A broadcast empties the two dormitories into the two waiting rooms.
  lemma BroadcastChangesCensus(s: Lock, s': Lock)
    requires s'.pc == Broadcast(s.pc)
    ensures ThreadsAt(s', AsleepRead) == {} && ThreadsAt(s', AsleepWrite) == {}
    ensures ThreadsAt(s', WokenWrite) == ThreadsAt(s, WokenWrite) + ThreadsAt(s, AsleepWrite)
    ensures ThreadsAt(s, WokenWrite) !! ThreadsAt(s, AsleepWrite)
    ensures forall q | q == Idle || q == Reading || q == Writing :: ThreadsAt(s', q) == ThreadsAt(s, q)
  {
  }

  lemma ReaderFallsAsleep(s: Lock, t: Tid)
    requires Inv(s) && t in s.pc && (s.pc[t] == Idle || s.pc[t] == WokenRead)
    requires ReaderMustWait(s)
    ensures Inv(TryRead(s, t))
  {
    var s' := TryRead(s, t);
    MoveChangesCensus(s, s', t, AsleepRead);
    assert ThreadsAt(s', Reading) == ThreadsAt(s, Reading) && ThreadsAt(s', Writing) == ThreadsAt(s, Writing);
    assert ThreadsAt(s', WokenWrite) == ThreadsAt(s, WokenWrite) && ThreadsAt(s', AsleepWrite) == ThreadsAt(s, AsleepWrite);
  }

  lemma ReaderGetsIn(s: Lock, t: Tid)
    requires Inv(s) && t in s.pc && (s.pc[t] == Idle || s.pc[t] == WokenRead)
    requires !ReaderMustWait(s)
    ensures Inv(TryRead(s, t))
  {
    var s' := TryRead(s, t);
    MoveChangesCensus(s, s', t, Reading);
    assert ThreadsAt(s', Writing) == ThreadsAt(s, Writing) == {};
    assert ThreadsAt(s', WokenWrite) == ThreadsAt(s, WokenWrite) && ThreadsAt(s', AsleepWrite) == ThreadsAt(s, AsleepWrite);
  }

  // A new writer is counted before it tests the guard, a woken one already is.
  function Counted(s: Lock, t: Tid): Lock
    requires t in s.pc
  {
    if s.pc[t] == Idle then s.(waitingWriters := s.waitingWriters + 1) else s
  }

  lemma WriterFallsAsleep(s: Lock, t: Tid)
    requires Inv(s) && t in s.pc && (s.pc[t] == Idle || s.pc[t] == WokenWrite)
    requires WriterMustWait(s)
    ensures Inv(TryWrite(Counted(s, t), t))
  {
    var s' := TryWrite(Counted(s, t), t);
    MoveChangesCensus(s, s', t, AsleepWrite);
    assert ThreadsAt(s', Reading) == ThreadsAt(s, Reading) && ThreadsAt(s', Writing) == ThreadsAt(s, Writing);
    assert CountersExact(s');
  }

  lemma WriterGetsIn(s: Lock, t: Tid)
    requires Inv(s) && t in s.pc && (s.pc[t] == Idle || s.pc[t] == WokenWrite)
    requires !WriterMustWait(s)
    ensures Inv(TryWrite(Counted(s, t), t))
  {
    var s' := TryWrite(Counted(s, t), t);
    MoveChangesCensus(s, s', t, Writing);
    assert ThreadsAt(s, Reading) == {} && ThreadsAt(s, Writing) == {};
    assert ThreadsAt(s', Reading) == {} && ThreadsAt(s', Writing) == {t};
    assert ThreadsAt(s', AsleepWrite) == ThreadsAt(s, AsleepWrite);
    assert CountersExact(s');
  }

  lemma ReleaseReadKeepsInv(s: Lock, t: Tid)
    requires Inv(s) && t in s.pc && s.pc[t] == Reading
    ensures Inv(ReleaseRead(s, t))
  {
    var m := s.(activeReaders := s.activeReaders - 1, pc := s.pc[t := Idle]);
    var s' := ReleaseRead(s, t);
    MoveChangesCensus(s, m, t, Idle);
    if m.activeReaders == 0 {
      BroadcastChangesCensus(m, s');
      forall u | u in s'.pc ensures s'.pc[u] != AsleepRead && s'.pc[u] != AsleepWrite {
        assert u !in ThreadsAt(s', AsleepRead) && u !in ThreadsAt(s', AsleepWrite);
      }
    }
  }

  lemma ReleaseWriteKeepsInv(s: Lock, t: Tid)
    requires Inv(s) && t in s.pc && s.pc[t] == Writing
    ensures Inv(ReleaseWrite(s, t))
  {
    var m := s.(writing := 0, pc := s.pc[t := Idle]);
    var s' := ReleaseWrite(s, t);
    MoveChangesCensus(s, m, t, Idle);
    BroadcastChangesCensus(m, s');
    forall u | u in s'.pc ensures s'.pc[u] != AsleepRead && s'.pc[u] != AsleepWrite {
      assert u !in ThreadsAt(s', AsleepRead) && u !in ThreadsAt(s', AsleepWrite);
    }
  }

  lemma ActionKeepsInv(s: Lock, a: Action)
    requires Inv(s) && Enabled(s, a)
    ensures Inv(Apply(s, a))
  {
    match a
    case BeginRead(t) => if ReaderMustWait(s) { ReaderFallsAsleep(s, t); } else { ReaderGetsIn(s, t); }
    case RetryRead(t) => if ReaderMustWait(s) { ReaderFallsAsleep(s, t); } else { ReaderGetsIn(s, t); }
    case EndRead(t) => ReleaseReadKeepsInv(s, t);
    case BeginWrite(t) => if WriterMustWait(s) { WriterFallsAsleep(s, t); } else { WriterGetsIn(s, t); }
    case RetryWrite(t) => if WriterMustWait(s) { WriterFallsAsleep(s, t); } else { WriterGetsIn(s, t); }
    case EndWrite(t) => ReleaseWriteKeepsInv(s, t);
    case SpuriousWakeup(t) => MoveChangesCensus(s, Apply(s, a), t, Woken(s.pc[t]));
  }

  lemma {:induction false} RunKeepsInv(s: Lock, actions: seq<Action>)
    requires Inv(s) && Runs(s, actions)
    ensures Inv(After(s, actions))
    decreases |actions|
  {
    if actions == [] {
    } else {
      ActionKeepsInv(s, actions[0]);
      RunKeepsInv(Apply(s, actions[0]), actions[1..]);
    }
  }

  /** Whatever the threads do, in every reachable state the counters are exact, readers and a
      writer never coexist, there is never more than one writer, and no wakeup is lost. */
  lemma ReachableStatesAreSafe(s: Lock, actions: seq<Action>)
    requires Initial(s) && Runs(s, actions)
    ensures CountersExact(After(s, actions)) && Exclusion(After(s, actions)) && NoLostWakeup(After(s, actions))
  {
    forall p | p != Idle ensures ThreadsAt(s, p) == {} {}
    RunKeepsInv(s, actions);
  }

  function Movers(s: Lock): set<Tid> {
    set t | t in s.pc && s.pc[t] in {Reading, Writing, WokenRead, WokenWrite}
  }

  lemma NoMoversNoSleepers(s: Lock)
    requires Inv(s) && Movers(s) == {}
    ensures ThreadsAt(s, AsleepRead) == {} && ThreadsAt(s, AsleepWrite) == {}
  {
    forall p | p in {Reading, Writing, WokenWrite} ensures ThreadsAt(s, p) == {} {
      forall t | t in ThreadsAt(s, p) ensures t in Movers(s) {}
    }
    assert !WriterMustWait(s);
    assert ThreadsAt(s, AsleepWrite) == {};
    assert !ReaderMustWait(s);
  }

  /** Nobody sleeps alone: whenever a thread is asleep, some thread holds the lock or is awake
      inside a wait loop, so the sleeper is not stuck for want of a signal. */
  lemma SleepersAreWaitingForSomeone(s: Lock, actions: seq<Action>, t: Tid)
    requires Initial(s) && Runs(s, actions)
    requires t in ThreadsAt(After(s, actions), AsleepRead) + ThreadsAt(After(s, actions), AsleepWrite)
    ensures Movers(After(s, actions)) != {}
  {
    ReachableStatesAreSafe(s, actions);
    if Movers(After(s, actions)) == {} {
      NoMoversNoSleepers(After(s, actions));
    }
  }

  // ------------------------------------------------------------------------ writer preference

  ghost predicate WriterWaitsThroughout(s: Lock, actions: seq<Action>)
    requires Runs(s, actions)
    decreases |actions|
  {
    s.waitingWriters > 0 &&
    (actions != [] ==> WriterWaitsThroughout(Apply(s, actions[0]), actions[1..]))
  }

  function ReadersLeft(actions: seq<Action>): nat {
    if actions == [] then 0
    else (if actions[0].EndRead? then 1 else 0) + ReadersLeft(actions[1..])
  }

  lemma NoReaderEntersPastAWriter(s: Lock, a: Action)
    requires Inv(s) && Enabled(s, a) && s.waitingWriters > 0
    ensures ThreadsAt(Apply(s, a), Reading) <= ThreadsAt(s, Reading)
    ensures Apply(s, a).activeReaders == s.activeReaders - (if a.EndRead? then 1 else 0)
  {
  }

  /** Writer preference over whole runs: as long as some writer waits, no thread starts to read.
      The readers of the end were already readers at the start, and the difference is made of
      readers that left. */
  lemma {:induction false} WriterPreference(s: Lock, actions: seq<Action>)
    requires Inv(s) && Runs(s, actions) && WriterWaitsThroughout(s, actions)
    ensures ThreadsAt(After(s, actions), Reading) <= ThreadsAt(s, Reading)
    ensures After(s, actions).activeReaders + ReadersLeft(actions) == s.activeReaders
    decreases |actions|
  {
    if actions == [] {
    } else {
      NoReaderEntersPastAWriter(s, actions[0]);
      ActionKeepsInv(s, actions[0]);
      WriterPreference(Apply(s, actions[0]), actions[1..]);
    }
  }

  // One action first, then a run that is known.
  lemma RunAfter(s: Lock, a: Action, rest: seq<Action>)
    requires Enabled(s, a) && Runs(Apply(s, a), rest)
    ensures Runs(s, [a] + rest) && After(s, [a] + rest) == After(Apply(s, a), rest)
  {
    assert ([a] + rest)[0] == a && ([a] + rest)[1..] == rest;
  }

  /** The lock never wedges: from any safe state in which a writer waits, the active writer or the
      readers in place can leave and then a waiting writer gets in, within one action for each of
      them and without any other thread having to move. */
  lemma {:induction false} WaitingWriterCanEnter(s: Lock) returns (actions: seq<Action>)
    requires Inv(s) && s.waitingWriters > 0
    ensures Runs(s, actions) && |actions| == s.writing + s.activeReaders + 1
    ensures forall a | a in actions :: a.EndRead? || a.EndWrite? || a.RetryWrite?
    ensures After(s, actions).writing == 1 && After(s, actions).waitingWriters == s.waitingWriters - 1
    decreases s.writing + s.activeReaders
  {
    if s.writing + s.activeReaders == 0 {
      assert !WriterMustWait(s);
      assert ThreadsAt(s, AsleepWrite) == {};
      assert ThreadsAt(s, WokenWrite) != {};
      var t :| t in ThreadsAt(s, WokenWrite);
      RunAfter(s, RetryWrite(t), []);
      actions := [RetryWrite(t)] + [];
    } else {
      var a;
      if s.writing > 0 {
        assert ThreadsAt(s, Writing) != {};
        var t :| t in ThreadsAt(s, Writing);
        a := EndWrite(t);
      } else {
        assert ThreadsAt(s, Reading) != {};
        var t :| t in ThreadsAt(s, Reading);
        a := EndRead(t);
      }
      ActionKeepsInv(s, a);
      var rest := WaitingWriterCanEnter(Apply(s, a));
      RunAfter(s, a, rest);
      actions := [a] + rest;
    }
  }

  // ------------------------------------------------------------------------ readers together

  /** A reader gets in, at once or on a retry, exactly when no writer waits or writes, however many
      others are reading; otherwise it sleeps. Nobody else is concerned. */
  lemma ReaderEntersIff(s: Lock, a: Action)
    requires Enabled(s, a) && (a.BeginRead? || a.RetryRead?)
    ensures var r, in_ := Apply(s, a), s.waitingWriters == 0 && s.writing == 0;
            && r.pc == s.pc[a.t := if in_ then Reading else AsleepRead]
            && r.activeReaders == s.activeReaders + (if in_ then 1 else 0)
            && r.waitingWriters == s.waitingWriters && r.writing == s.writing
  {
  }

  /** A writer gets in, at once or on a retry, exactly when nobody reads or writes, however many
      other writers wait; otherwise it sleeps, and is counted as waiting from its call on. */
  lemma WriterEntersIff(s: Lock, a: Action)
    requires Enabled(s, a) && (a.BeginWrite? || a.RetryWrite?)
    ensures var r, in_ := Apply(s, a), s.activeReaders == 0 && s.writing == 0;
            && r.pc == s.pc[a.t := if in_ then Writing else AsleepWrite]
            && r.writing == (if in_ then 1 else s.writing) && r.activeReaders == s.activeReaders
            && r.waitingWriters - s.waitingWriters == (if a.BeginWrite? then 1 else 0) - (if in_ then 1 else 0)
  {
  }

  /** Leaving wakes everybody who sleeps if nobody is left in the lock, and nobody otherwise. */
  lemma LeavingWakes(s: Lock, a: Action)
    requires Inv(s) && Enabled(s, a) && (a.EndRead? || a.EndWrite?)
    ensures var r := Apply(s, a);
            && r.pc.Keys == s.pc.Keys && r.pc[a.t] == Idle
            && forall t | t in s.pc && t != a.t ::
                 r.pc[t] == if r.activeReaders > 0 then s.pc[t]
                            else if s.pc[t] == AsleepRead then WokenRead
                            else if s.pc[t] == AsleepWrite then WokenWrite else s.pc[t]
  {
    if a.EndWrite? {
      assert a.t in ThreadsAt(s, Writing);
      assert ThreadsAt(s, Reading) == {};
    } else {
      assert a.t in ThreadsAt(s, Reading);
    }
  }

  lemma OneMoreReader(s: Lock, t: Tid)
    requires Inv(s) && s.waitingWriters == 0 && s.writing == 0 && t in ThreadsAt(s, Idle)
    ensures Enabled(s, BeginRead(t))
    ensures var r := Apply(s, BeginRead(t));
            && Inv(r) && r.waitingWriters == 0 && r.writing == 0 && r.activeReaders == s.activeReaders + 1
            && ThreadsAt(r, Idle) == ThreadsAt(s, Idle) - {t} && ThreadsAt(r, Reading) == ThreadsAt(s, Reading) + {t}
  {
    hide Inv;
    ReaderEntersIff(s, BeginRead(t));
    ActionKeepsInv(s, BeginRead(t));
    MoveChangesCensus(s, Apply(s, BeginRead(t)), t, Reading);
  }

  lemma OneOf(idle: set<Tid>, reading: set<Tid>, threads: set<Tid>, t: Tid)
    requires t in threads && threads <= idle
    ensures threads - {t} <= idle - {t} && |threads - {t}| == |threads| - 1
    ensures (reading + {t}) + (threads - {t}) == reading + threads
  {
  }

  // A run of readers that begin, from s to r.
  ghost predicate ReadersBegin(s: Lock, actions: seq<Action>, r: Lock) {
    Runs(s, actions) && After(s, actions) == r && forall a | a in actions :: a.BeginRead?
  }

  lemma ReadersBeginCons(s: Lock, t: Tid, rest: seq<Action>, r: Lock)
    requires Enabled(s, BeginRead(t)) && ReadersBegin(Apply(s, BeginRead(t)), rest, r)
    ensures ReadersBegin(s, [BeginRead(t)] + rest, r)
  {
    hide Runs, After, Apply;
    RunAfter(s, BeginRead(t), rest);
  }

  /** Readers share the lock: from every safe state in which no writer waits or writes, any idle
      threads can all be reading after one action each, besides those that read already. */
  lemma {:induction false} ReadersShare(s: Lock, threads: set<Tid>) returns (actions: seq<Action>, r: Lock)
    requires Inv(s) && s.waitingWriters == 0 && s.writing == 0 && threads <= ThreadsAt(s, Idle)
    ensures ReadersBegin(s, actions, r) && |actions| == |threads|
    ensures r.activeReaders == s.activeReaders + |threads|
    ensures ThreadsAt(r, Reading) == ThreadsAt(s, Reading) + threads
    decreases |threads|
  {
    if threads == {} {
      return [], s;
    }
    hide Inv, Apply, Enabled, ThreadsAt, ReadersBegin;
    var t :| t in threads;
    OneOf(ThreadsAt(s, Idle), ThreadsAt(s, Reading), threads, t);
    OneMoreReader(s, t);
    var rest;
    rest, r := ReadersShare(Apply(s, BeginRead(t)), threads - {t});
    ReadersBeginCons(s, t, rest, r);
    actions := [BeginRead(t)] + rest;
  }

  // -------------------------------------------------------------------------- the lock itself

  /** The lock as the source keeps it: three counters updated in place. `pc` is the ghost census
      of the threads, and each method is one critical section. */
  class MrswMutex {
    var activeReaders: int
    var waitingWriters: int
    var writing: int
    ghost var pc: map<Tid, Pc>

    ghost function State(): Lock
      reads this
    {
      Lock(activeReaders, waitingWriters, writing, pc)
    }

    constructor (ghost threads: set<Tid>)
      ensures Initial(State()) && pc.Keys == threads
    {
      activeReaders, waitingWriters, writing := 0, 0, 0;
      pc := map t | t in threads :: Idle;
    }

    // mrsw_lock_reader, from the call or from a return of cond_wait to the next cond_wait or to the end.
    method LockReader(ghost t: Tid) returns (entered: bool)
      requires t in pc && (pc[t] == Idle || pc[t] == WokenRead)
      modifies this
      ensures State() == Apply(old(State()), if old(pc)[t] == Idle then BeginRead(t) else RetryRead(t))
      ensures entered <==> pc[t] == Reading
      ensures entered <==> old(waitingWriters) == 0 && old(writing) == 0
    {
      if waitingWriters != 0 || writing != 0 {
        pc := pc[t := AsleepRead];
        return false;
      }
      activeReaders := activeReaders + 1;
      pc := pc[t := Reading];
      return true;
    }

    method UnlockReader(ghost t: Tid)
      requires t in pc && pc[t] == Reading
      modifies this
      ensures State() == Apply(old(State()), EndRead(t))
    {
      activeReaders := activeReaders - 1;
      pc := pc[t := Idle];
      if activeReaders == 0 {
        pc := Broadcast(pc);
      }
    }

    // mrsw_lock_writer: the call counts itself among the waiting writers, a retry after cond_wait does not.
    method LockWriter(ghost t: Tid, retry: bool) returns (entered: bool)
      requires t in pc && pc[t] == if retry then WokenWrite else Idle
      modifies this
      ensures State() == Apply(old(State()), if retry then RetryWrite(t) else BeginWrite(t))
      ensures entered <==> pc[t] == Writing
      ensures entered <==> old(activeReaders) == 0 && old(writing) == 0
    {
      if !retry {
        waitingWriters := waitingWriters + 1;
      }
      if activeReaders != 0 || writing != 0 {
        pc := pc[t := AsleepWrite];
        return false;
      }
      waitingWriters := waitingWriters - 1;
      writing := 1;
      pc := pc[t := Writing];
      return true;
    }

    method UnlockWriter(ghost t: Tid)
      requires t in pc && pc[t] == Writing
      modifies this
      ensures State() == Apply(old(State()), EndWrite(t))
    {
      writing := 0;
      pc := Broadcast(pc[t := Idle]);
    }
  }
}
