/** Threads, the ready list, the sleep list and semaphores: what each kernel entry does, on values. */
module SchedSpec {
  import opened Options
  import opened SortedSeq

  type Tid = int

  /** Thread priorities, 0 to 255; fixed when a thread is made. */
  type Priority = Tid -> int

  /** sleep_entry_t */
  datatype Sleeper = Sleeper(tid: Tid, time: int)

  /** sem_t */
  datatype Sem = Sem(count: int, waiters: seq<Tid>)

  /** current is None when NULL was dispatched: nothing can run any more. */
  datatype State = State(ticks: int, current: Option<Tid>, ready: seq<Tid>, sleep: seq<Sleeper>, sems: seq<Sem>)

  /** thread_t_cmp_priority: direction -1. */
  function ReadyKey(p: Priority): Tid -> int { t => -p(t) }

  /** sleep_entry_t_cmp_time: direction 1. */
  function SleepKey(): Sleeper -> int { (e: Sleeper) => e.time }

  function MakeReady(p: Priority, s: State, t: Tid): State {
    s.(ready := Insert(s.ready, ReadyKey(p), t))
  }

  /** resched: dispatch the head of the ready list; an empty list gives NULL. */
  function Resched(s: State): State {
    if s.ready == [] then s.(current := None) else s.(current := Some(s.ready[0]), ready := s.ready[1..])
  }

  /** The wake loop of time_irq_handler. */
  function Wake(p: Priority, s: State): State
    decreases |s.sleep|
  {
    if s.sleep == [] || s.sleep[0].time > s.ticks then s
    else Wake(p, MakeReady(p, s.(sleep := s.sleep[1..]), s.sleep[0].tid))
  }

  /** time_irq_handler up to the reschedule. */
  function TickWake(p: Priority, s: State): State
    requires s.current.Some?
  {
    Wake(p, MakeReady(p, s.(ticks := (s.ticks + 1) % 0x1_0000_0000), s.current.value))
  }

  /** Ticks per unit; an unknown unit letter sets no target. */
  function Unit(units: char): Option<int> {
    match units
    case 'm' => Some(1)
    case 'c' => Some(10)
    case 'd' => Some(100)
    case 's' => Some(1000)
    case _ => None
  }

  /** targ_ticks of syscall_sleep in 32-bit arithmetic; `stale` is what the uninitialised variable holds. */
  function Target(ticks: int, no: int, units: char, stale: int): int {
    match Unit(units)
    case Some(u) => (ticks + u * no) % 0x1_0000_0000
    case None => stale
  }

  /** Kernel entries by the current thread, and the timer interrupt. */
  datatype Op =
    | Tick
    | Sleep(no: nat, units: char, stale: nat)
    | Wait(sem: nat)
    | Release(sem: nat)

  /** The entry names a semaphore that exists. */
  predicate Known(n: nat, op: Op) { (op.Wait? || op.Release?) ==> op.sem < n }

  predicate Blocks(s: State, op: Op)
    requires Known(|s.sems|, op)
  {
    op.Sleep? || (op.Wait? && s.sems[op.sem].count <= 0)
  }

  predicate Reschedules(s: State, op: Op)
    requires Known(|s.sems|, op)
  {
    op.Tick? || Blocks(s, op)
  }

  /** The state in which the entry reschedules, or ends if it does not. */
  function Before(p: Priority, s: State, op: Op): (r: State)
    requires s.current.Some? && Known(|s.sems|, op)
  {
    match op
    case Tick => TickWake(p, s)
    case Sleep(no, units, stale) =>
      s.(sleep := Insert(s.sleep, SleepKey(), Sleeper(s.current.value, Target(s.ticks, no, units, stale))))
    case Wait(i) =>
      var sem := s.sems[i];
      if sem.count > 0 then s.(sems := s.sems[i := sem.(count := sem.count - 1)])
      else s.(sems := s.sems[i := sem.(waiters := sem.waiters + [s.current.value])])
    case Release(i) =>
      var sem := s.sems[i];
      if sem.waiters != [] then
        MakeReady(p, s.(sems := s.sems[i := sem.(waiters := sem.waiters[1..])]), sem.waiters[0])
      else s.(sems := s.sems[i := sem.(count := sem.count + 1)])
  }

  /** One entry as an atomic step: time_irq_handler, syscall_sleep, sem_wait or sem_release. */
  function Step(p: Priority, s: State, op: Op): State
    requires s.current.Some? && Known(|s.sems|, op)
  {
    if Reschedules(s, op) then Resched(Before(p, s, op)) else Before(p, s, op)
  }

  /** A run; it halts when NULL is dispatched. */
  function Run(p: Priority, s: State, ops: seq<Op>): State
    requires forall op | op in ops :: Known(|s.sems|, op)
    decreases |ops|
  {
    if ops == [] || s.current.None? then s
    else
      assert ops[0] in ops;
      StepSems(p, s, ops[0]);
      Run(p, Step(p, s, ops[0]), ops[1..])
  }

  lemma {:induction false} WakeKeeps(p: Priority, s: State)
    ensures var r := Wake(p, s); r.ticks == s.ticks && r.current == s.current && r.sems == s.sems
    decreases |s.sleep|
  {
    if s.sleep != [] && s.sleep[0].time <= s.ticks {
      WakeKeeps(p, MakeReady(p, s.(sleep := s.sleep[1..]), s.sleep[0].tid));
    }
  }

  lemma StepSems(p: Priority, s: State, op: Op)
    requires s.current.Some? && Known(|s.sems|, op)
    ensures |Step(p, s, op).sems| == |s.sems|
    ensures Step(p, s, op).ticks == if op.Tick? then (s.ticks + 1) % 0x1_0000_0000 else s.ticks
  {
    hide Insert, Wake;
    if op.Tick? { WakeKeeps(p, MakeReady(p, s.(ticks := (s.ticks + 1) % 0x1_0000_0000), s.current.value)); }
  }

  /** sem_new: the unsigned argument is stored in a signed int. */
  function NewSem(initCnt: nat): Sem
    requires initCnt < 0x1_0000_0000
  {
    Sem(if initCnt < 0x8000_0000 then initCnt else initCnt - 0x1_0000_0000, [])
  }

  /** thr_init: the null thread ready, the main kernel thread running. */
  function Boot(nullThread: Tid, mainThread: Tid, sems: seq<Sem>): State {
    State(0, Some(mainThread), [nullThread], [], sems)
  }
}
