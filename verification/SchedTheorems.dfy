/** Properties of the scheduler over steps and whole runs. */
module SchedTheorems {
  import opened Options
  import opened SortedSeq
  import opened SchedSpec

  /** Both ordered lists are sorted; a semaphore with permits left has nobody waiting. */
  ghost predicate Inv(p: Priority, s: State) {
    && Sorted(s.ready, ReadyKey(p)) && Sorted(s.sleep, SleepKey())
    && (forall i | 0 <= i < |s.sems| :: s.sems[i].count >= 0 && (s.sems[i].count > 0 ==> s.sems[i].waiters == []))
  }

  lemma SortedTail<T>(s: seq<T>, key: T -> int)
    requires s != [] && Sorted(s, key)
    ensures Sorted(s[1..], key)
  {}

  lemma ReadyInv(p: Priority, s: State, t: Tid)
    requires Inv(p, s)
    ensures Inv(p, MakeReady(p, s, t))
  {}

  lemma {:induction false} WakeInv(p: Priority, s: State)
    requires Inv(p, s)
    ensures Inv(p, Wake(p, s))
    ensures forall e | e in Wake(p, s).sleep :: e.time > s.ticks
    decreases |s.sleep|
  {
    hide Insert;
    if s.sleep != [] && s.sleep[0].time <= s.ticks {
      SortedTail(s.sleep, SleepKey());
      ReadyInv(p, s.(sleep := s.sleep[1..]), s.sleep[0].tid);
      WakeInv(p, MakeReady(p, s.(sleep := s.sleep[1..]), s.sleep[0].tid));
    } else if s.sleep != [] {
      forall e | e in s.sleep ensures e.time > s.ticks {
        var i :| 0 <= i < |s.sleep| && s.sleep[i] == e;
        assert SleepKey()(s.sleep[0]) <= SleepKey()(s.sleep[i]);
      }
    }
  }

  /** Every step keeps the lists sorted and the semaphore counts meaningful. */
  lemma StepInv(p: Priority, s: State, op: Op)
    requires Inv(p, s) && s.current.Some? && Known(|s.sems|, op)
    ensures Inv(p, Step(p, s, op))
  {
    hide Insert, Sorted;
    BeforeInv(p, s, op);
    var r := Before(p, s, op);
    if Reschedules(s, op) && r.ready != [] { SortedTail(r.ready, ReadyKey(p)); }
  }

  lemma BeforeInv(p: Priority, s: State, op: Op)
    requires Inv(p, s) && s.current.Some? && Known(|s.sems|, op)
    ensures Inv(p, Before(p, s, op))
  {
    hide Insert, Sorted;
    match op
    case Tick =>
      var s1 := s.(ticks := (s.ticks + 1) % 0x1_0000_0000);
      ReadyInv(p, s1, s.current.value);
      WakeInv(p, MakeReady(p, s1, s.current.value));
    case Sleep(no, units, stale) =>
      InsertSorted(s.sleep, SleepKey(), Sleeper(s.current.value, Target(s.ticks, no, units, stale)));
    case Wait(i) =>
    case Release(i) =>
      var sem := s.sems[i];
      if sem.waiters != [] {
        ReadyInv(p, s.(sems := s.sems[i := sem.(waiters := sem.waiters[1..])]), sem.waiters[0]);
      }
  }

  lemma {:induction false} RunInv(p: Priority, s: State, ops: seq<Op>)
    requires Inv(p, s) && forall op | op in ops :: Known(|s.sems|, op)
    ensures Inv(p, Run(p, s, ops))
    decreases |ops|
  {
    hide Inv, Step;
    if ops != [] && s.current.Some? {
      assert ops[0] in ops;
      StepInv(p, s, ops[0]);
      StepSems(p, s, ops[0]);
      RunInv(p, Step(p, s, ops[0]), ops[1..]);
    }
  }

  // ---------------------------------------------------------------- membership

  function Tids(sleep: seq<Sleeper>): multiset<Tid> {
    if sleep == [] then multiset{} else multiset{sleep[0].tid} + Tids(sleep[1..])
  }

  function Waiting(sems: seq<Sem>): multiset<Tid> {
    if sems == [] then multiset{} else multiset(sems[0].waiters) + Waiting(sems[1..])
  }

  /** Where every thread is: running, ready, asleep, or waiting for a semaphore. */
  function Population(s: State): multiset<Tid> {
    (if s.current.Some? then multiset{s.current.value} else multiset{})
    + multiset(s.ready) + Tids(s.sleep) + Waiting(s.sems)
  }

  lemma {:induction false} TidsInsert(sleep: seq<Sleeper>, e: Sleeper)
    ensures Tids(Insert(sleep, SleepKey(), e)) == Tids(sleep) + multiset{e.tid}
  {
    var r := Insert(sleep, SleepKey(), e);
    if sleep == [] || SleepKey()(sleep[0]) > SleepKey()(e) {
      assert r == [e] + sleep;
    } else {
      assert r[0] == sleep[0] && r[1..] == Insert(sleep[1..], SleepKey(), e);
      TidsInsert(sleep[1..], e);
    }
  }

  lemma Cancel<T>(a: multiset<T>, b: multiset<T>, c: multiset<T>)
    requires a + c == b + c
    ensures a == b
  {
    assert a == (a + c) - c && b == (b + c) - c;
  }

  lemma {:induction false} WaitingUpdate(sems: seq<Sem>, i: nat, x: Sem)
    requires i < |sems|
    ensures Waiting(sems[i := x]) + multiset(sems[i].waiters) == Waiting(sems) + multiset(x.waiters)
  {
    if i == 0 {
      assert sems[i := x][1..] == sems[1..];
    } else {
      assert sems[i := x][1..] == sems[1..][i - 1 := x];
      WaitingUpdate(sems[1..], i - 1, x);
      var m, w, w' := multiset(sems[0].waiters), Waiting(sems[1..]), Waiting(sems[1..][i - 1 := x]);
      assert (m + w') + multiset(sems[i].waiters) == m + (w' + multiset(sems[i].waiters));
      assert (m + w) + multiset(x.waiters) == m + (w + multiset(x.waiters));
    }
  }

  lemma ReadyPopulation(p: Priority, s: State, t: Tid)
    ensures Population(MakeReady(p, s, t)) == Population(s) + multiset{t}
  {
    InsertMembers(s.ready, ReadyKey(p), t);
  }

  lemma {:induction false} WakePopulation(p: Priority, s: State)
    ensures Population(Wake(p, s)) == Population(s)
    decreases |s.sleep|
  {
    hide Insert;
    if s.sleep != [] && s.sleep[0].time <= s.ticks {
      var s1 := s.(sleep := s.sleep[1..]);
      ReadyPopulation(p, s1, s.sleep[0].tid);
      WakePopulation(p, MakeReady(p, s1, s.sleep[0].tid));
    }
  }

  lemma CountChanges(sems: seq<Sem>, i: nat, n: int)
    requires i < |sems|
    ensures Waiting(sems[i := sems[i].(count := n)]) == Waiting(sems)
  {
    WaitingUpdate(sems, i, sems[i].(count := n));
    Cancel(Waiting(sems[i := sems[i].(count := n)]), Waiting(sems), multiset(sems[i].waiters));
  }

  lemma WaiterJoins(sems: seq<Sem>, i: nat, t: Tid)
    requires i < |sems|
    ensures Waiting(sems[i := sems[i].(waiters := sems[i].waiters + [t])]) == Waiting(sems) + multiset{t}
  {
    var x := sems[i].(waiters := sems[i].waiters + [t]);
    WaitingUpdate(sems, i, x);
    Cancel(Waiting(sems[i := x]), Waiting(sems) + multiset{t}, multiset(sems[i].waiters));
  }

  lemma WaiterLeaves(sems: seq<Sem>, i: nat)
    requires i < |sems| && sems[i].waiters != []
    ensures Waiting(sems[i := sems[i].(waiters := sems[i].waiters[1..])]) + multiset{sems[i].waiters[0]} ==
      Waiting(sems)
  {
    var w := sems[i].waiters;
    var x := sems[i].(waiters := w[1..]);
    WaitingUpdate(sems, i, x);
    assert w == [w[0]] + w[1..];
    Cancel(Waiting(sems[i := x]) + multiset{w[0]}, Waiting(sems), multiset(w[1..]));
  }

  /** An entry that will reschedule has by then put the current thread in a list as well. */
  lemma BeforePopulation(p: Priority, s: State, op: Op)
    requires s.current.Some? && Known(|s.sems|, op)
    ensures Population(Before(p, s, op)) ==
      Population(s) + if Reschedules(s, op) then multiset{s.current.value} else multiset{}
  {
    hide Insert, Waiting, Tids;
    match op
    case Tick =>
      hide Population;
      var s1 := s.(ticks := (s.ticks + 1) % 0x1_0000_0000);
      assert Population(s1) == Population(s) by { SamePlaces(s, s1); }
      ReadyPopulation(p, s1, s.current.value);
      WakePopulation(p, MakeReady(p, s1, s.current.value));
    case Sleep(no, units, stale) =>
      TidsInsert(s.sleep, Sleeper(s.current.value, Target(s.ticks, no, units, stale)));
    case Wait(i) =>
      CountChanges(s.sems, i, s.sems[i].count - 1);
      WaiterJoins(s.sems, i, s.current.value);
    case Release(i) =>
      ReleasePopulation(p, s, i);
  }

  lemma SamePlaces(s: State, r: State)
    requires r == s.(ticks := r.ticks)
    ensures Population(r) == Population(s)
  {}

  lemma ReleasePopulation(p: Priority, s: State, i: nat)
    requires s.current.Some? && i < |s.sems|
    ensures Population(Before(p, s, Release(i))) == Population(s)
  {
    hide Insert, Waiting, Tids;
    var sem := s.sems[i];
    if sem.waiters != [] {
      WaiterLeaves(s.sems, i);
      var s1 := s.(sems := s.sems[i := sem.(waiters := sem.waiters[1..])]);
      assert Population(s1) + multiset{sem.waiters[0]} == Population(s);
      ReadyPopulation(p, s1, sem.waiters[0]);
      hide Population;
    } else {
      CountChanges(s.sems, i, sem.count + 1);
    }
  }

  lemma ReschedPopulation(s: State)
    requires s.current.Some?
    ensures Population(Resched(s)) + multiset{s.current.value} == Population(s)
  {
    hide Tids, Waiting;
    if s.ready != [] { assert s.ready == [s.ready[0]] + s.ready[1..]; }
  }

  /** No step loses or duplicates a thread: each only moves between the places. */
  lemma StepPopulation(p: Priority, s: State, op: Op)
    requires s.current.Some? && Known(|s.sems|, op)
    ensures Population(Step(p, s, op)) == Population(s)
  {
    hide Population, Before, Resched, Reschedules;
    BeforePopulation(p, s, op);
    BeforeCurrent(p, s, op);
    ReschedPopulation(Before(p, s, op));
    if Reschedules(s, op) { Cancel(Population(Step(p, s, op)), Population(s), multiset{s.current.value}); }
  }

  lemma BeforeCurrent(p: Priority, s: State, op: Op)
    requires s.current.Some? && Known(|s.sems|, op)
    ensures Before(p, s, op).current == s.current
  {
    hide Insert, Wake;
    if op.Tick? { WakeKeeps(p, MakeReady(p, s.(ticks := (s.ticks + 1) % 0x1_0000_0000), s.current.value)); }
  }

  lemma {:induction false} RunPopulation(p: Priority, s: State, ops: seq<Op>)
    requires forall op | op in ops :: Known(|s.sems|, op)
    ensures Population(Run(p, s, ops)) == Population(s)
    decreases |ops|
  {
    hide Population, Step;
    if ops != [] && s.current.Some? {
      assert ops[0] in ops;
      StepPopulation(p, s, ops[0]);
      StepSems(p, s, ops[0]);
      RunPopulation(p, Step(p, s, ops[0]), ops[1..]);
    }
  }

  /** No thread is in two places, or twice in one. */
  ghost predicate OnePlaceEach(s: State) { forall t :: Population(s)[t] <= 1 }

  /** Membership over runs: exactly the threads there were, each still in exactly one place. */
  lemma RunMembership(p: Priority, s: State, ops: seq<Op>, t: Tid)
    requires (forall op | op in ops :: Known(|s.sems|, op)) && OnePlaceEach(s)
    ensures OnePlaceEach(Run(p, s, ops))
    ensures t in Population(Run(p, s, ops)) <==> t in Population(s)
    ensures var r := Run(p, s, ops);
      r.current == Some(t) ==> t !in r.ready && t !in Tids(r.sleep) && t !in Waiting(r.sems)
  {
    RunPopulation(p, s, ops);
    var r := Run(p, s, ops);
    assert Population(r)[t] <= 1;
    hide Run;
  }

  /** thr_init: a state in which every promise holds. */
  lemma BootHolds(p: Priority, nullThread: Tid, mainThread: Tid, sems: seq<Sem>)
    requires nullThread != mainThread
    requires forall i | 0 <= i < |sems| :: sems[i].count >= 0 && sems[i].waiters == []
    ensures var s := Boot(nullThread, mainThread, sems); Inv(p, s) && OnePlaceEach(s) && Runnable(s, nullThread)
    ensures var s := Boot(nullThread, mainThread, sems);
      s.current == Some(mainThread) && s.ready == [nullThread] && s.sleep == [] && s.ticks == 0 && s.sems == sems
  {
    NoneWaiting(sems);
  }

  lemma {:induction false} NoneWaiting(sems: seq<Sem>)
    requires forall i | 0 <= i < |sems| :: sems[i].waiters == []
    ensures Waiting(sems) == multiset{}
  {
    if sems != [] {
      assert sems[0].waiters == [];
      NoneWaiting(sems[1..]);
    }
  }

  /** sem_new gives a non-negative count exactly for arguments that fit a signed int. */
  lemma NewSemIff(initCnt: nat)
    requires initCnt < 0x1_0000_0000
    ensures NewSem(initCnt).count >= 0 <==> initCnt < 0x8000_0000
    ensures -0x8000_0000 <= NewSem(initCnt).count < 0x8000_0000
      && (NewSem(initCnt).count - initCnt) % 0x1_0000_0000 == 0
    ensures NewSem(initCnt).waiters == []
    ensures NewSem(initCnt).count >= 0 ==> NewSem(initCnt).count == initCnt
  {}

  /** sem_new keeps every promise exactly for those, and moves no thread. */
  lemma NewSemKeeps(p: Priority, s: State, initCnt: nat)
    requires initCnt < 0x1_0000_0000
    ensures var r := s.(sems := s.sems + [NewSem(initCnt)]);
      (Inv(p, s) ==> (Inv(p, r) <==> initCnt < 0x8000_0000)) && Population(r) == Population(s)
  {
    var r := s.(sems := s.sems + [NewSem(initCnt)]);
    assert r.sems[|s.sems|] == NewSem(initCnt);
    WaitingAppend(s.sems, NewSem(initCnt));
    hide Tids, Waiting, Sorted;
  }

  lemma {:induction false} WaitingAppend(sems: seq<Sem>, x: Sem)
    requires x.waiters == []
    ensures Waiting(sems + [x]) == Waiting(sems)
  {
    if sems != [] {
      assert (sems + [x])[1..] == sems[1..] + [x];
      WaitingAppend(sems[1..], x);
    }
  }

  // ---------------------------------------------------------------- the null thread

  ghost predicate Runnable(s: State, t: Tid) { s.current == Some(t) || t in s.ready }

  lemma {:induction false} WakeGrowsReady(p: Priority, s: State, t: Tid)
    requires t in s.ready
    ensures t in Wake(p, s).ready
    decreases |s.sleep|
  {
    hide Insert;
    if s.sleep != [] && s.sleep[0].time <= s.ticks {
      InsertMembers(s.ready, ReadyKey(p), s.sleep[0].tid);
      WakeGrowsReady(p, MakeReady(p, s.(sleep := s.sleep[1..]), s.sleep[0].tid), t);
    }
  }

  /** NULL is dispatched exactly when the current thread blocks with nothing ready: never by a tick. */
  lemma DispatchesNullIff(p: Priority, s: State, op: Op)
    requires s.current.Some? && Known(|s.sems|, op)
    ensures Step(p, s, op).current.None? <==> Blocks(s, op) && s.ready == []
  {
    hide TickWake, MakeReady;
    BeforeCurrent(p, s, op);
    if op.Tick? { TickReady(p, s); }
  }

  lemma TickReady(p: Priority, s: State)
    requires s.current.Some?
    ensures s.current.value in TickWake(p, s).ready
  {
    hide Insert, Wake;
    var s1 := s.(ticks := (s.ticks + 1) % 0x1_0000_0000);
    InsertMembers(s1.ready, ReadyKey(p), s.current.value);
    WakeGrowsReady(p, MakeReady(p, s1, s.current.value), s.current.value);
  }

  lemma StepRunnable(p: Priority, s: State, op: Op, t: Tid)
    requires s.current.Some? && Known(|s.sems|, op) && Runnable(s, t)
    requires s.current == Some(t) ==> !Blocks(s, op)
    ensures Runnable(Step(p, s, op), t)
  {
    hide Insert;
    BeforeCurrent(p, s, op);
    match op
    case Tick =>
      var s1 := s.(ticks := (s.ticks + 1) % 0x1_0000_0000);
      InsertMembers(s1.ready, ReadyKey(p), s.current.value);
      WakeGrowsReady(p, MakeReady(p, s1, s.current.value), t);
    case Release(i) =>
      if s.sems[i].waiters != [] { InsertMembers(s.ready, ReadyKey(p), s.sems[i].waiters[0]); }
    case Sleep(_, _, _) =>
    case Wait(_) =>
  }

  /** Thread t never sleeps, and never waits for a semaphore without permits, while it is current. */
  ghost predicate NeverBlocks(p: Priority, s: State, ops: seq<Op>, t: Tid)
    requires forall op | op in ops :: Known(|s.sems|, op)
    decreases |ops|
  {
    ops == [] || s.current.None? ||
    (assert ops[0] in ops; StepSems(p, s, ops[0]);
     (s.current == Some(t) ==> !Blocks(s, ops[0])) && NeverBlocks(p, Step(p, s, ops[0]), ops[1..], t))
  }

  /** If the null thread keeps to that, resched never finds the ready list empty. */
  lemma {:induction false} NullThreadSaves(p: Priority, s: State, ops: seq<Op>, t: Tid)
    requires (forall op | op in ops :: Known(|s.sems|, op)) && s.current.Some? && Runnable(s, t)
    requires NeverBlocks(p, s, ops, t)
    ensures Run(p, s, ops).current.Some? && Runnable(Run(p, s, ops), t)
    decreases |ops|
  {
    hide Step;
    if ops != [] {
      assert ops[0] in ops;
      StepSems(p, s, ops[0]);
      DispatchesNullIff(p, s, ops[0]);
      StepRunnable(p, s, ops[0], t);
      NullThreadSaves(p, Step(p, s, ops[0]), ops[1..], t);
    }
  }

  // ---------------------------------------------------------------- priorities and waiting time

  /** After each reschedule no ready thread has a higher priority than the current one. */
  lemma DispatchesHighest(p: Priority, s: State, op: Op, t: Tid)
    requires Inv(p, s) && s.current.Some? && Known(|s.sems|, op) && Reschedules(s, op)
    requires t in Step(p, s, op).ready
    ensures Step(p, s, op).current.Some? && p(Step(p, s, op).current.value) >= p(t)
  {
    BeforeInv(p, s, op);
    hide Before;
    var ready := Before(p, s, op).ready;
    var i :| 0 <= i < |ready[1..]| && ready[1..][i] == t;
    assert ready[i + 1] == t;
    assert ReadyKey(p)(ready[0]) <= ReadyKey(p)(ready[i + 1]);
  }

  /** The threads whose sleep ends by tick t, in the order of the sleep list. */
  function Due(sleep: seq<Sleeper>, t: int): seq<Tid> {
    if sleep == [] then []
    else (if sleep[0].time <= t then [sleep[0].tid] else []) + Due(sleep[1..], t)
  }

  /** q[m] is the first among those of the highest priority in q. */
  ghost predicate Leads(p: Priority, q: seq<Tid>, m: int) {
    0 <= m < |q| && (forall i | 0 <= i < m :: p(q[i]) < p(q[m])) && forall i | 0 <= i < |q| :: p(q[i]) <= p(q[m])
  }

  ghost predicate HeadLeads(p: Priority, ready: seq<Tid>, q: seq<Tid>) {
    if q == [] then ready == [] else ready != [] && exists m :: Leads(p, q, m) && ready[0] == q[m]
  }

  lemma InsertLeads(p: Priority, ready: seq<Tid>, q: seq<Tid>, t: Tid)
    requires HeadLeads(p, ready, q)
    ensures HeadLeads(p, Insert(ready, ReadyKey(p), t), q + [t])
  {
    var r := Insert(ready, ReadyKey(p), t);
    assert r[0] == if ready == [] || p(t) > p(ready[0]) then t else ready[0];
    if q == [] {
      assert Leads(p, q + [t], 0);
    } else {
      var m :| Leads(p, q, m) && ready[0] == q[m];
      assert Leads(p, q + [t], if p(t) > p(ready[0]) then |q| else m);
    }
  }

  lemma {:induction false} WakeLeads(p: Priority, s: State, q: seq<Tid>)
    requires Sorted(s.sleep, SleepKey()) && HeadLeads(p, s.ready, q)
    ensures HeadLeads(p, Wake(p, s).ready, q + Due(s.sleep, s.ticks))
    decreases |s.sleep|
  {
    hide Insert, HeadLeads;
    if s.sleep != [] && s.sleep[0].time <= s.ticks {
      var t, rest := s.sleep[0].tid, s.sleep[1..];
      SortedTail(s.sleep, SleepKey());
      InsertLeads(p, s.ready, q, t);
      WakeLeads(p, MakeReady(p, s.(sleep := rest), t), q + [t]);
      assert (q + [t]) + Due(rest, s.ticks) == q + Due(s.sleep, s.ticks);
    } else {
      NoneDue(s.sleep, s.ticks);
      assert q + [] == q;
    }
  }

  lemma {:induction false} NoneDue(sleep: seq<Sleeper>, t: int)
    requires Sorted(sleep, SleepKey()) && (sleep == [] || sleep[0].time > t)
    ensures Due(sleep, t) == []
  {
    if sleep != [] {
      SortedTail(sleep, SleepKey());
      if |sleep| > 1 { assert SleepKey()(sleep[0]) <= SleepKey()(sleep[1]); }
      NoneDue(sleep[1..], t);
    }
  }

  /** Whom a tick dispatches: of the ready threads, then the current one, then those whose sleep ends, in
      this order, the first of the highest priority. */
  lemma TickDispatches(p: Priority, s: State, m: int)
    requires Inv(p, s) && s.current.Some?
    requires Leads(p, s.ready + [s.current.value] + Due(s.sleep, (s.ticks + 1) % 0x1_0000_0000), m)
    ensures Step(p, s, Tick).current ==
      Some((s.ready + [s.current.value] + Due(s.sleep, (s.ticks + 1) % 0x1_0000_0000))[m])
  {
    hide Insert, Wake, Sorted;
    var s1 := s.(ticks := (s.ticks + 1) % 0x1_0000_0000);
    var q := s.ready + [s.current.value];
    ReadyLeads(p, s.ready);
    InsertLeads(p, s.ready, s.ready, s.current.value);
    WakeLeads(p, MakeReady(p, s1, s.current.value), q);
    var all := q + Due(s.sleep, s1.ticks);
    assert all != [];
    var k :| Leads(p, all, k) && Wake(p, MakeReady(p, s1, s.current.value)).ready[0] == all[k];
    OneLeads(p, all, k, m);
  }

  lemma ReadyLeads(p: Priority, ready: seq<Tid>)
    requires Sorted(ready, ReadyKey(p))
    ensures HeadLeads(p, ready, ready)
  {
    if ready != [] {
      forall i | 0 <= i < |ready| ensures p(ready[i]) <= p(ready[0]) {
        assert i > 0 ==> ReadyKey(p)(ready[0]) <= ReadyKey(p)(ready[i]);
      }
      assert Leads(p, ready, 0);
    }
  }

  lemma OneLeads(p: Priority, q: seq<Tid>, k: int, m: int)
    requires Leads(p, q, k) && Leads(p, q, m)
    ensures k == m
  {
    assert p(q[k]) == p(q[m]);
  }

  /** A thread put in the ready list goes behind every thread of at least its priority. */
  lemma BehindEquals(p: Priority, s: State, x: Tid, k: nat)
    requires Inv(p, s) && k < |s.ready| && p(x) <= p(s.ready[k])
    ensures k < |MakeReady(p, s, x).ready| && MakeReady(p, s, x).ready[k] == s.ready[k]
  {
    var i := Position(s.ready, ReadyKey(p), x);
    assert i < |s.ready| ==> ReadyKey(p)(s.ready[i]) > ReadyKey(p)(x);
    assert ReadyKey(p)(s.ready[k]) <= ReadyKey(p)(x);
  }

  /** The threads a step puts in the ready list have at most t's priority. */
  ghost predicate NoneHigher(p: Priority, s: State, op: Op, t: Tid)
    requires s.current.Some? && Known(|s.sems|, op)
  {
    match op
    case Tick =>
      && p(s.current.value) <= p(t)
      && (forall e | e in s.sleep && e.time <= (s.ticks + 1) % 0x1_0000_0000 :: p(e.tid) <= p(t))
    case Release(i) => s.sems[i].waiters != [] ==> p(s.sems[i].waiters[0]) <= p(t)
    case _ => true
  }

  lemma {:induction false} WakeKeepsPlace(p: Priority, s: State, k: nat)
    requires Inv(p, s) && k < |s.ready|
    requires forall e | e in s.sleep && e.time <= s.ticks :: p(e.tid) <= p(s.ready[k])
    ensures k < |Wake(p, s).ready| && Wake(p, s).ready[k] == s.ready[k]
    decreases |s.sleep|
  {
    hide Insert, Sorted, MakeReady;
    if s.sleep != [] && s.sleep[0].time <= s.ticks {
      var s1 := s.(sleep := s.sleep[1..]);
      SortedTail(s.sleep, SleepKey());
      assert s.sleep[0] in s.sleep && forall e | e in s1.sleep :: e in s.sleep;
      BehindEquals(p, s1, s.sleep[0].tid, k);
      ReadyInv(p, s1, s.sleep[0].tid);
      MakeReadyKeeps(p, s1, s.sleep[0].tid);
      WakeKeepsPlace(p, MakeReady(p, s1, s.sleep[0].tid), k);
    }
  }

  lemma MakeReadyKeeps(p: Priority, s: State, t: Tid)
    ensures MakeReady(p, s, t) == s.(ready := MakeReady(p, s, t).ready)
  {}

  lemma BeforeKeepsPlace(p: Priority, s: State, op: Op, k: nat)
    requires Inv(p, s) && s.current.Some? && Known(|s.sems|, op) && k < |s.ready| && NoneHigher(p, s, op, s.ready[k])
    ensures k < |Before(p, s, op).ready| && Before(p, s, op).ready[k] == s.ready[k]
  {
    hide Insert, Sorted, MakeReady;
    match op
    case Tick =>
      var s1 := s.(ticks := (s.ticks + 1) % 0x1_0000_0000);
      BehindEquals(p, s1, s.current.value, k);
      ReadyInv(p, s1, s.current.value);
      MakeReadyKeeps(p, s1, s.current.value);
      WakeKeepsPlace(p, MakeReady(p, s1, s.current.value), k);
    case Release(i) =>
      var sem := s.sems[i];
      if sem.waiters != [] {
        BehindEquals(p, s.(sems := s.sems[i := sem.(waiters := sem.waiters[1..])]), sem.waiters[0], k);
      }
    case Sleep(_, _, _) =>
    case Wait(_) =>
  }

  /** Number of reschedules in a run. */
  ghost function Reschedulings(p: Priority, s: State, ops: seq<Op>): nat
    requires forall op | op in ops :: Known(|s.sems|, op)
    decreases |ops|
  {
    if ops == [] || s.current.None? then 0
    else
      assert ops[0] in ops;
      StepSems(p, s, ops[0]);
      (if Reschedules(s, ops[0]) then 1 else 0) + Reschedulings(p, Step(p, s, ops[0]), ops[1..])
  }

  /** No step of the run puts a thread of higher priority than t in the ready list. */
  ghost predicate NeverHigher(p: Priority, s: State, ops: seq<Op>, t: Tid)
    requires forall op | op in ops :: Known(|s.sems|, op)
    decreases |ops|
  {
    ops == [] || s.current.None? ||
    (assert ops[0] in ops; StepSems(p, s, ops[0]);
     NoneHigher(p, s, ops[0], t) && NeverHigher(p, Step(p, s, ops[0]), ops[1..], t))
  }

  lemma StepAdvances(p: Priority, s: State, op: Op, k: nat)
    requires Inv(p, s) && s.current.Some? && Known(|s.sems|, op) && k < |s.ready| && NoneHigher(p, s, op, s.ready[k])
    ensures var r := Step(p, s, op);
      && r.current.Some?
      && (!Reschedules(s, op) ==> k < |r.ready| && r.ready[k] == s.ready[k])
      && (Reschedules(s, op) && k > 0 ==> k - 1 < |r.ready| && r.ready[k - 1] == s.ready[k])
      && (Reschedules(s, op) && k == 0 ==> r.current == Some(s.ready[0]))
  {
    BeforeKeepsPlace(p, s, op, k);
    BeforeCurrent(p, s, op);
    hide Before;
  }

  /** Bounded waiting: the thread at index k of the ready list moves up one place at every reschedule,
      provided no thread of strictly higher priority is made ready meanwhile. */
  lemma {:induction false} MovesUp(p: Priority, s: State, ops: seq<Op>, k: nat)
    requires (forall op | op in ops :: Known(|s.sems|, op)) && Inv(p, s) && s.current.Some? && k < |s.ready|
    requires NeverHigher(p, s, ops, s.ready[k]) && Reschedulings(p, s, ops) <= k
    ensures var r := Run(p, s, ops); var j := k - Reschedulings(p, s, ops);
      r.current.Some? && j < |r.ready| && r.ready[j] == s.ready[k]
    decreases |ops|
  {
    hide Step, Inv, NoneHigher;
    if ops != [] {
      assert ops[0] in ops;
      StepSems(p, s, ops[0]);
      StepAdvances(p, s, ops[0], k);
      StepInv(p, s, ops[0]);
      MovesUp(p, Step(p, s, ops[0]), ops[1..], if Reschedules(s, ops[0]) then k - 1 else k);
    }
  }

  /** And at the (k + 1)-th reschedule it becomes the current thread. */
  lemma BecomesCurrent(p: Priority, s: State, ops: seq<Op>, op: Op, k: nat)
    requires (forall o | o in ops :: Known(|s.sems|, o)) && Inv(p, s) && s.current.Some? && k < |s.ready|
    requires NeverHigher(p, s, ops, s.ready[k]) && Reschedulings(p, s, ops) == k
    requires var r := Run(p, s, ops);
      r.current.Some? && Known(|r.sems|, op) && Reschedules(r, op) && NoneHigher(p, r, op, s.ready[k])
    ensures Step(p, Run(p, s, ops), op).current == Some(s.ready[k])
  {
    hide Run, Reschedulings, NeverHigher, NoneHigher, Inv, Step;
    MovesUp(p, s, ops, k);
    RunInv(p, s, ops);
    StepAdvances(p, Run(p, s, ops), op, 0);
  }

  // ---------------------------------------------------------------- sleeping

  /** One tick is a millisecond; the letters stand for milli-, centi-, deciseconds and seconds, and any
      other leaves the target as it was. */
  lemma TargetIs(ticks: int, no: nat, stale: nat)
    ensures Target(ticks, no, 'm', stale) == (ticks + no) % 0x1_0000_0000
    ensures Target(ticks, no, 'c', stale) == (ticks + 10 * no) % 0x1_0000_0000
    ensures Target(ticks, no, 'd', stale) == (ticks + 100 * no) % 0x1_0000_0000
    ensures Target(ticks, no, 's', stale) == (ticks + 1000 * no) % 0x1_0000_0000
    ensures forall u | u != 'm' && u != 'c' && u != 'd' && u != 's' :: Target(ticks, no, u, stale) == stale
  {}

  /** The d ticks asked for are kept exactly when the 32-bit sum does not wrap. */
  lemma TargetExactIff(ticks: nat, no: nat, units: char, stale: nat, d: nat)
    requires ticks < 0x1_0000_0000
    requires || (units == 'm' && d == no) || (units == 'c' && d == 10 * no)
             || (units == 'd' && d == 100 * no) || (units == 's' && d == 1000 * no)
    ensures Target(ticks, no, units, stale) == ticks + d <==> ticks + d < 0x1_0000_0000
  {
    TargetIs(ticks, no, stale);
    assert (ticks + d) % 0x1_0000_0000 < 0x1_0000_0000;
    assert ticks + d < 0x1_0000_0000 ==> (ticks + d) % 0x1_0000_0000 == ticks + d;
  }

  lemma {:induction false} WakeLeavesLater(p: Priority, s: State, e: Sleeper)
    requires e in s.sleep && e.time > s.ticks
    ensures e in Wake(p, s).sleep
    decreases |s.sleep|
  {
    hide Insert;
    if s.sleep[0].time <= s.ticks {
      assert e in s.sleep[1..];
      WakeLeavesLater(p, MakeReady(p, s.(sleep := s.sleep[1..]), s.sleep[0].tid), e);
    }
  }

  /** A tick wakes exactly the sleepers whose target it reaches. */
  lemma TickWakesIff(p: Priority, s: State, e: Sleeper)
    requires Inv(p, s) && s.current.Some? && e in s.sleep
    ensures var r := Step(p, s, Tick); e in r.sleep <==> e.time > r.ticks
  {
    hide Insert, Sorted, Wake;
    var s1 := MakeReady(p, s.(ticks := (s.ticks + 1) % 0x1_0000_0000), s.current.value);
    ReadyInv(p, s.(ticks := (s.ticks + 1) % 0x1_0000_0000), s.current.value);
    WakeInv(p, s1);
    WakeKeeps(p, s1);
    if e.time > s1.ticks { WakeLeavesLater(p, s1, e); }
  }

  /** After a tick every remaining target is strictly later than the tick count. */
  lemma TickLeavesLater(p: Priority, s: State)
    requires Inv(p, s) && s.current.Some?
    ensures var r := Step(p, s, Tick); forall e | e in r.sleep :: e.time > r.ticks
  {
    hide Insert, Sorted, Wake;
    var s1 := s.(ticks := (s.ticks + 1) % 0x1_0000_0000);
    ReadyInv(p, s1, s.current.value);
    WakeInv(p, MakeReady(p, s1, s.current.value));
    WakeKeeps(p, MakeReady(p, s1, s.current.value));
  }

  /** Only a tick wakes anybody. */
  lemma OthersKeepAsleep(p: Priority, s: State, op: Op, e: Sleeper)
    requires s.current.Some? && Known(|s.sems|, op) && !op.Tick? && e in s.sleep
    ensures e in Step(p, s, op).sleep
  {}

  function Ticks(ops: seq<Op>): nat {
    if ops == [] then 0 else (if ops[0].Tick? then 1 else 0) + Ticks(ops[1..])
  }

  /** A sleeper stays asleep as long as the tick count has not reached its target. */
  lemma {:induction false} StaysAsleep(p: Priority, s: State, ops: seq<Op>, e: Sleeper)
    requires (forall op | op in ops :: Known(|s.sems|, op)) && Inv(p, s) && e in s.sleep
    requires 0 <= s.ticks && s.ticks + Ticks(ops) < e.time < 0x1_0000_0000
    ensures e in Run(p, s, ops).sleep
    decreases |ops|
  {
    hide Step, Inv;
    if ops != [] && s.current.Some? {
      assert ops[0] in ops;
      StepSems(p, s, ops[0]);
      StepInv(p, s, ops[0]);
      if ops[0].Tick? { TickWakesIff(p, s, e); } else { OthersKeepAsleep(p, s, ops[0], e); }
      StaysAsleep(p, Step(p, s, ops[0]), ops[1..], e);
    }
  }

  lemma {:induction false} RunTicks(p: Priority, s: State, ops: seq<Op>)
    requires (forall op | op in ops :: Known(|s.sems|, op)) && 0 <= s.ticks && s.ticks + Ticks(ops) < 0x1_0000_0000
    ensures Run(p, s, ops).current.Some? ==> Run(p, s, ops).ticks == s.ticks + Ticks(ops)
    decreases |ops|
  {
    hide Step;
    if ops != [] && s.current.Some? {
      assert ops[0] in ops;
      StepSems(p, s, ops[0]);
      RunTicks(p, Step(p, s, ops[0]), ops[1..]);
    }
  }

  lemma SleepEnters(p: Priority, s: State, no: nat, units: char, stale: nat)
    requires s.current.Some?
    ensures Sleeper(s.current.value, Target(s.ticks, no, units, stale)) in Step(p, s, Sleep(no, units, stale)).sleep
  {}

  /** A sleeper is still asleep after a later tick exactly when its target lies beyond that tick. */
  lemma SleeperExact(p: Priority, s: State, ops: seq<Op>, e: Sleeper)
    requires (forall op | op in ops :: Known(|s.sems|, op)) && Inv(p, s) && e in s.sleep
    requires 0 <= s.ticks && s.ticks + Ticks(ops) + 1 < 0x1_0000_0000 && e.time < 0x1_0000_0000
    requires Run(p, s, ops).current.Some?
    ensures e in Step(p, Run(p, s, ops), Tick).sleep <==> s.ticks + Ticks(ops) + 1 < e.time
  {
    hide Step, Run, Inv;
    var r := Run(p, s, ops);
    RunTicks(p, s, ops);
    RunInv(p, s, ops);
    StepSems(p, r, Tick);
    TickLeavesLater(p, r);
    if s.ticks + Ticks(ops) + 1 < e.time {
      StaysAsleep(p, s, ops, e);
      TickWakesIff(p, r, e);
    }
  }

  /** Wake-up exactness: a thread that asks for d ticks is still asleep after the n-th tick from then
      for every n below d, and after none from the d-th on, whatever else happens in between. */
  lemma SleepExact(p: Priority, s: State, no: nat, units: char, stale: nat, ops: seq<Op>, d: nat)
    requires Inv(p, s) && s.current.Some? && 0 <= s.ticks
    requires || (units == 'm' && d == no) || (units == 'c' && d == 10 * no)
             || (units == 'd' && d == 100 * no) || (units == 's' && d == 1000 * no)
    requires forall op | op in ops :: Known(|Step(p, s, Sleep(no, units, stale)).sems|, op)
    requires s.ticks + d < 0x1_0000_0000 && s.ticks + Ticks(ops) + 1 < 0x1_0000_0000
    requires Run(p, Step(p, s, Sleep(no, units, stale)), ops).current.Some?
    ensures var r := Step(p, Run(p, Step(p, s, Sleep(no, units, stale)), ops), Tick);
      Sleeper(s.current.value, s.ticks + d) in r.sleep <==> Ticks(ops) + 1 < d
  {
    hide Step, Run, Inv;
    var op := Sleep(no, units, stale);
    TargetExactIff(s.ticks, no, units, stale, d);
    SleepEnters(p, s, no, units, stale);
    StepInv(p, s, op);
    StepSems(p, s, op);
    hide Unit, Target;
    SleeperExact(p, Step(p, s, op), ops, Sleeper(s.current.value, s.ticks + d));
  }

  // ---------------------------------------------------------------- semaphores

  /** The threads that called sem_wait on semaphore i during a run, in order. */
  ghost function Arrivals(p: Priority, s: State, ops: seq<Op>, i: nat): seq<Tid>
    requires forall op | op in ops :: Known(|s.sems|, op)
    decreases |ops|
  {
    if ops == [] || s.current.None? then []
    else
      assert ops[0] in ops;
      StepSems(p, s, ops[0]);
      (if ops[0] == Wait(i) then [s.current.value] else []) + Arrivals(p, Step(p, s, ops[0]), ops[1..], i)
  }

  /** Whom one step grants a permit of semaphore i: the caller at once, or the thread a release hands it to. */
  ghost function Granted(s: State, op: Op, i: nat): seq<Tid>
    requires s.current.Some? && i < |s.sems|
  {
    if op == Wait(i) && s.sems[i].count > 0 then [s.current.value]
    else if op == Release(i) && s.sems[i].waiters != [] then [s.sems[i].waiters[0]]
    else []
  }

  /** The threads granted a permit of semaphore i during a run, in order. */
  ghost function Grants(p: Priority, s: State, ops: seq<Op>, i: nat): seq<Tid>
    requires (forall op | op in ops :: Known(|s.sems|, op)) && i < |s.sems|
    decreases |ops|
  {
    if ops == [] || s.current.None? then []
    else
      assert ops[0] in ops;
      StepSems(p, s, ops[0]);
      Granted(s, ops[0], i) + Grants(p, Step(p, s, ops[0]), ops[1..], i)
  }

  ghost function Releases(p: Priority, s: State, ops: seq<Op>, i: nat): nat
    requires forall op | op in ops :: Known(|s.sems|, op)
    decreases |ops|
  {
    if ops == [] || s.current.None? then 0
    else
      assert ops[0] in ops;
      StepSems(p, s, ops[0]);
      (if ops[0] == Release(i) then 1 else 0) + Releases(p, Step(p, s, ops[0]), ops[1..], i)
  }

  lemma StepFifo(p: Priority, s: State, op: Op, i: nat)
    requires Inv(p, s) && s.current.Some? && Known(|s.sems|, op) && i < |s.sems|
    ensures var r := Step(p, s, op);
      && i < |r.sems|
      && s.sems[i].waiters + (if op == Wait(i) then [s.current.value] else []) == Granted(s, op, i) + r.sems[i].waiters
      && s.sems[i].count + (if op == Release(i) then 1 else 0) == r.sems[i].count + |Granted(s, op, i)|
  {
    hide Sorted, Insert;
    StepSems(p, s, op);
    if op.Tick? { WakeKeeps(p, MakeReady(p, s.(ticks := (s.ticks + 1) % 0x1_0000_0000), s.current.value)); }
  }

  /** Semaphores over whole runs.  FIFO: who waited at the start followed by who came, in order, is
      who was granted a permit followed by who still waits.  Conservation: the initial count plus
      the releases is the final count plus the grants. */
  lemma {:induction false} SemaphoreFair(p: Priority, s: State, ops: seq<Op>, i: nat)
    requires (forall op | op in ops :: Known(|s.sems|, op)) && Inv(p, s) && i < |s.sems|
    ensures var r := Run(p, s, ops);
      && i < |r.sems|
      && s.sems[i].waiters + Arrivals(p, s, ops, i) == Grants(p, s, ops, i) + r.sems[i].waiters
      && s.sems[i].count + Releases(p, s, ops, i) == r.sems[i].count + |Grants(p, s, ops, i)|
    decreases |ops|
  {
    hide Step, Inv, Granted;
    if ops != [] && s.current.Some? {
      assert ops[0] in ops;
      StepSems(p, s, ops[0]);
      StepInv(p, s, ops[0]);
      StepFifo(p, s, ops[0], i);
      var s1 := Step(p, s, ops[0]);
      SemaphoreFair(p, s1, ops[1..], i);
      var came := if ops[0] == Wait(i) then [s.current.value] else [];
      var a, g, r := Arrivals(p, s1, ops[1..], i), Grants(p, s1, ops[1..], i), Run(p, s1, ops[1..]).sems[i].waiters;
      assert s.sems[i].waiters + (came + a) == (s.sems[i].waiters + came) + a;
      assert (Granted(s, ops[0], i) + s1.sems[i].waiters) + a == Granted(s, ops[0], i) + (s1.sems[i].waiters + a);
      assert Granted(s, ops[0], i) + (g + r) == (Granted(s, ops[0], i) + g) + r;
    }
  }
}
