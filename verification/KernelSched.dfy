/** The scheduler's global variables and the kernel entries that update them, on the linked lists. */
module KernelSched {
  import opened LinkedList
  import opened Options
  import opened SchedSpec
  import opened SchedTheorems
  import opened SortedSeq

  /** sem_t */
  class Semaphore {
    var count: int
    const waiters: List<Tid>

    /** sem_new */
    constructor (initCnt: nat)
      requires initCnt < 0x1_0000_0000
      ensures waiters.Valid() && fresh(waiters) && waiters.nodes == [] && View() == NewSem(initCnt)
    {
      count := if initCnt < 0x8000_0000 then initCnt else initCnt - 0x1_0000_0000;
      waiters := new List();
    }

    ghost function View(): Sem
      reads this, waiters, waiters.Nodes()
    {
      Sem(count, waiters.Contents())
    }
  }

  class Kernel {
    const priority: Priority
    var timeTicks: int
    var current: Option<Tid>
    /** thr_ready and thr_sleep */
    const ready: List<Tid>
    const sleep: List<Sleeper>
    /** The semaphores made so far; the kernel itself only ever gets pointers to them. */
    var sems: seq<Semaphore>

    ghost function WaitLists(): set<List<Tid>>
      reads this
    {
      set s | s in sems :: s.waiters
    }

    ghost function WaitNodes(): set<Node<Tid>>
      reads this, WaitLists()
    {
      set s, n | s in sems && n in s.waiters.Nodes() :: n
    }

    /** Every list has right links, and no two share a node: a node belongs to the list that made it. */
    ghost predicate Valid()
      reads this, ready, ready.Nodes(), sleep, sleep.Nodes(), sems, WaitLists(), WaitNodes()
    {
      && ready.Valid() && sleep.Valid()
      && (forall s | s in sems :: s.waiters.Valid() && s.waiters != ready)
      && (forall i, j | 0 <= i < j < |sems| :: sems[i] != sems[j] && sems[i].waiters != sems[j].waiters)
    }

    ghost function View(): State
      reads this, ready, ready.Nodes(), sleep, sleep.Nodes(), sems, WaitLists(), WaitNodes()
    {
      State(timeTicks, current, ready.Contents(), sleep.Contents(), Sems())
    }

    ghost function Sems(): (r: seq<Sem>)
      reads this, sems, WaitLists(), WaitNodes()
      ensures |r| == |sems| && forall i | 0 <= i < |r| :: r[i] == sems[i].View()
    {
      seq(|sems|, i requires 0 <= i < |sems| reads this, sems, WaitLists(), WaitNodes() => sems[i].View())
    }

    /** thr_init.  Every promise about runs of the scheduler holds from here on. */
    constructor (priority: Priority, nullThread: Tid, mainThread: Tid)
      ensures Valid() && this.priority == priority && sems == []
      ensures fresh(ready) && fresh(sleep) && fresh(ready.Nodes()) && sleep.nodes == []
      ensures View() == Boot(nullThread, mainThread, [])
      ensures current == Some(mainThread) && ready.Contents() == [nullThread] && timeTicks == 0
      ensures nullThread != mainThread ==> Inv(priority, View()) && OnePlaceEach(View()) && Runnable(View(), nullThread)
    {
      hide List.Linked, List.LastRight, List.Contents, List.Valid, Insert, Inv, OnePlaceEach, Runnable;
      this.priority := priority;
      timeTicks := 0;
      var readyList := new List();
      label First:
      var sleepList := new List();
      label Second:
      ready, sleep := readyList, sleepList;
      sems := [];
      current := None;
      new;
      ready.Untouched@First();
      sleep.Untouched@Second();
      AddReady(nullThread);
      label Third:
      current := Some(mainThread);
      ready.Untouched@Third();
      sleep.Untouched@Third();
      OnlyOne(ReadyKey(priority), nullThread);
      if nullThread != mainThread { BootHolds(priority, nullThread, mainThread, []); }
    }

    /** Every node, list and semaphore the kernel uses now it used before, in the same place, or is new. */
    twostate predicate Grows()
      reads this, ready, sleep, sems, WaitLists()
    {
      && (forall n | n in ready.Nodes() :: n in old(ready.Nodes()) || fresh(n))
      && (forall n | n in sleep.Nodes() :: n in old(sleep.Nodes()) || fresh(n))
      && (forall s | s in sems :: s in old(sems) || (fresh(s) && fresh(s.waiters)))
      && (forall s, n | s in sems && n in s.waiters.Nodes() ::
        fresh(n) || (s in old(sems) && n in old(s.waiters.Nodes())))
    }

    lemma AllOwned()
      requires Valid()
      ensures forall n | n in ready.Nodes() :: n.owner == ready
      ensures forall n | n in sleep.Nodes() :: n.owner == sleep
      ensures forall s, n | s in sems && n in s.waiters.Nodes() :: n.owner == s.waiters
    {
      hide List.Linked;
      ready.Owned();
      sleep.Owned();
      forall s | s in sems ensures forall n | n in s.waiters.Nodes() :: n.owner == s.waiters { s.waiters.Owned(); }
    }

    /** Stores to list l and its nodes leave the wait lists other than l as they were. */
    twostate lemma WaitersUntouched(l: object)
      requires old(Valid()) && sems == old(sems)
      requires forall s | s in sems && s.waiters != l :: unchanged(s.waiters)
      requires forall s, n | s in sems && n in old(s.waiters.Nodes()) && n.owner != l :: unchanged(n)
      ensures forall s | s in sems && s.waiters != l ::
        s.waiters.Valid() && s.waiters.Contents() == old(s.waiters.Contents())
          && s.waiters.Nodes() == old(s.waiters.Nodes())
    {
      hide List.LastRight, List.Contents;
      forall s | s in sems && s.waiters != l
        ensures s.waiters.Valid() && s.waiters.Contents() == old(s.waiters.Contents())
          && s.waiters.Nodes() == old(s.waiters.Nodes())
      {
        s.waiters.Untouched();
      }
    }

    /** olist_add on thr_ready */
    method AddReady(t: Tid)
      requires Valid()
      modifies ready, ready.Nodes()
      ensures Valid() && View() == MakeReady(priority, old(View()), t)
      ensures Grows()
    {
      hide List.Linked, List.LastRight, List.Contents, List.Valid, Insert;
      AllOwned();
      ready.OAdd(ReadyKey(priority), t);
      sleep.Untouched();
      WaitersUntouched(ready);
      assert Sems() == old(Sems());
    }

    /** resched, through olist_del and thr_switch: an empty list gives NULL. */
    method Reschedule()
      requires Valid()
      modifies this`current, ready, ready.Nodes()
      ensures Valid() && View() == Resched(old(View()))
      ensures Grows()
    {
      hide List.Linked, List.LastRight, List.Contents, List.Valid;
      AllOwned();
      var next := ready.DelFirst();
      label Deleted:
      current := next;
      ready.Untouched@Deleted();
      sleep.Untouched();
      WaitersUntouched(ready);
      assert Sems() == old(Sems());
    }

    /** olist_add on thr_sleep */
    method AddSleeper(entry: Sleeper)
      requires Valid()
      modifies sleep, sleep.Nodes()
      ensures Valid() && View() == old(View()).(sleep := Insert(old(View()).sleep, SleepKey(), entry))
      ensures Grows()
    {
      hide List.Linked, List.LastRight, List.Contents, List.Valid, Insert;
      AllOwned();
      sleep.OAdd(SleepKey(), entry);
      ready.Untouched();
      WaitersUntouched(sleep);
      assert Sems() == old(Sems());
    }

    /** olist_del of the first entry of thr_sleep */
    method DelSleeper() returns (entry: Sleeper)
      requires Valid() && View().sleep != []
      modifies sleep, sleep.Nodes()
      ensures Valid() && View() == old(View()).(sleep := old(View()).sleep[1..]) && entry == old(View()).sleep[0]
      ensures Grows()
    {
      hide List.Linked, List.LastRight, List.Contents, List.Valid;
      AllOwned();
      var first := sleep.DelFirst();
      entry := first.value;
      ready.Untouched();
      WaitersUntouched(sleep);
      assert Sems() == old(Sems());
    }

    /** list_add on a wait list */
    method AddWaiter(i: nat, t: Tid)
      requires Valid() && i < |sems|
      modifies sems[i].waiters, sems[i].waiters.Nodes()
      ensures Valid() && Grows()
      ensures var sem := old(View()).sems[i];
        View() == old(View()).(sems := old(View()).sems[i := sem.(waiters := sem.waiters + [t])])
    {
      hide List.Linked, List.LastRight, List.Contents, List.Valid;
      AllOwned();
      sems[i].waiters.Add(t);
      ready.Untouched();
      sleep.Untouched();
      WaitersUntouched(sems[i].waiters);
    }

    /** list_del of the first thread of a wait list */
    method DelWaiter(i: nat) returns (t: Tid)
      requires Valid() && i < |sems| && View().sems[i].waiters != []
      modifies sems[i].waiters, sems[i].waiters.Nodes()
      ensures Valid() && Grows()
      ensures var sem := old(View()).sems[i];
        t == sem.waiters[0] && View() == old(View()).(sems := old(View()).sems[i := sem.(waiters := sem.waiters[1..])])
    {
      hide List.Linked, List.LastRight, List.Contents, List.Valid;
      AllOwned();
      var first := sems[i].waiters.DelFirst();
      t := first.value;
      ready.Untouched();
      sleep.Untouched();
      WaitersUntouched(sems[i].waiters);
    }

    /** sem->count++ and sem->count-- */
    method AddToCount(i: nat, d: int)
      requires Valid() && i < |sems|
      modifies sems[i]
      ensures Valid() && Grows()
      ensures var sem := old(View()).sems[i];
        View() == old(View()).(sems := old(View()).sems[i := sem.(count := sem.count + d)])
    {
      hide List.Linked, List.LastRight, List.Contents, List.Valid;
      sems[i].count := sems[i].count + d;
      ready.Untouched();
      sleep.Untouched();
      WaitersUntouched(this);
    }

    /** sem_new; a count is non-negative, and every promise kept, exactly for arguments below 2^31. */
    method NewSemaphore(initCnt: nat) returns (id: nat)
      requires Valid() && initCnt < 0x1_0000_0000
      modifies this`sems
      ensures Valid() && Grows() && id == |old(View()).sems|
      ensures View() == old(View()).(sems := old(View()).sems + [NewSem(initCnt)])
      ensures Inv(priority, old(View())) ==> (Inv(priority, View()) <==> initCnt < 0x8000_0000)
      ensures Population(View()) == Population(old(View()))
    {
      hide List.Linked, List.LastRight, List.Contents, List.Valid, Population, Inv, NewSem;
      id := |sems|;
      var sem := new Semaphore(initCnt);
      ready.Untouched();
      sleep.Untouched();
      WaitersUntouched(this);
      assert Sems() == old(Sems());
      ghost var before := View();
      Enroll(sem);
      NewSemKeeps(priority, before, initCnt);
    }

    /** Count a new semaphore among those the kernel may be given. */
    method Enroll(sem: Semaphore)
      requires Valid() && sem !in sems && sem.waiters != ready && forall s | s in sems :: s.waiters != sem.waiters
      requires sem.waiters.Valid() && sem.waiters.nodes == []
      modifies this`sems
      ensures Valid() && View() == old(View()).(sems := old(View()).sems + [old(sem.View())])
      ensures sems == old(sems) + [sem]
    {
      hide List.Linked, List.LastRight, List.Contents, List.Valid;
      ghost var k := |sems|;
      sems := sems + [sem];
      sem.waiters.Untouched();
      ready.Untouched();
      sleep.Untouched();
      forall s | s in old(sems)
        ensures s.waiters.Valid() && s.waiters.Contents() == old(s.waiters.Contents())
          && s.waiters.nodes == old(s.waiters.nodes)
      {
        s.waiters.Untouched();
      }
      forall i | 0 <= i < k ensures sems[i].View() == old(sems[i].View()) { assert sems[i] in old(sems); }
      assert Sems() == old(Sems()) + [old(sem.View())];
    }

    lemma ViewFields()
      requires Valid()
      ensures View().ticks == timeTicks && View().current == current && |View().sems| == |sems|
      ensures forall i | 0 <= i < |sems| :: View().sems[i].count == sems[i].count
      ensures forall i | 0 <= i < |sems| :: sems[i].waiters.first == null <==> View().sems[i].waiters == []
      ensures sleep.first == null <==> View().sleep == []
      ensures sleep.first != null ==> sleep.first.value == View().sleep[0]
      ensures forall i | 0 <= i < |sems| :: sems[i].waiters != ready
    {
      hide List.Linked, List.LastRight, List.Contents, List.Valid;
      sleep.FirstIsHead();
      forall i | 0 <= i < |sems| ensures sems[i].waiters.first == null <==> View().sems[i].waiters == [] {
        sems[i].waiters.FirstIsHead();
      }
    }

    /** time_irq_handler */
    method TimeIrq()
      requires Valid() && current.Some?
      modifies this`timeTicks, this`current, ready, ready.Nodes(), sleep, sleep.Nodes()
      ensures Valid() && Grows()
      ensures View() == Step(priority, old(View()), Tick)
    {
      hide Insert, MakeReady, Wake, Resched, Valid, View;
      ViewFields();
      AdvanceTicks();
      AddReady(current.value);
      WakeSleepers();
      Reschedule();
    }

    method AdvanceTicks()
      requires Valid()
      modifies this`timeTicks
      ensures Valid() && Grows()
      ensures View() == old(View()).(ticks := (old(View()).ticks + 1) % 0x1_0000_0000)
    {
      hide List.Linked, List.LastRight, List.Contents, List.Valid;
      timeTicks := (timeTicks + 1) % 0x1_0000_0000;
      ready.Untouched();
      sleep.Untouched();
      WaitersUntouched(this);
      assert Sems() == old(Sems());
    }

    /** time_irq_handler, lines 92-113. */
    method WakeSleepers()
      requires Valid()
      modifies ready, ready.Nodes(), sleep, sleep.Nodes()
      ensures Valid() && Grows()
      ensures View() == Wake(priority, old(View()))
    {
      hide MakeReady, Valid, View;
      ViewFields();
      while sleep.first != null && sleep.first.value.time <= timeTicks
        invariant Valid() && Grows()
        invariant sleep.first == null <==> View().sleep == []
        invariant sleep.first != null ==> sleep.first.value == View().sleep[0]
        invariant View().ticks == timeTicks && Wake(priority, View()) == Wake(priority, old(View()))
        decreases |View().sleep|
      {
        ghost var s := View();
        var entry := DelSleeper();
        AddReady(entry.tid);
        MakeReadyKeeps(priority, s.(sleep := s.sleep[1..]), entry.tid);
        ViewFields();
      }
    }

    /** syscall_sleep; `stale` stands for the value left in targ_ticks by an unknown unit. */
    method SyscallSleep(no: nat, units: char, stale: nat)
      requires Valid() && current.Some?
      modifies this`current, ready, ready.Nodes(), sleep, sleep.Nodes()
      ensures Valid() && Grows()
      ensures View() == Step(priority, old(View()), Sleep(no, units, stale))
      ensures units == 'm' ==> Sleeper(old(current).value, (old(timeTicks) + no) % 0x1_0000_0000) in View().sleep
      ensures units == 'c' ==> Sleeper(old(current).value, (old(timeTicks) + 10 * no) % 0x1_0000_0000) in View().sleep
      ensures units == 'd' ==> Sleeper(old(current).value, (old(timeTicks) + 100 * no) % 0x1_0000_0000) in View().sleep
      ensures units == 's' ==> Sleeper(old(current).value, (old(timeTicks) + 1000 * no) % 0x1_0000_0000) in View().sleep
    {
      hide Insert, Target, Resched, Valid, View;
      ViewFields();
      SleepEnters(priority, View(), no, units, stale);
      TargetIs(timeTicks, no, stale);
      AddSleeper(Sleeper(current.value, Target(timeTicks, no, units, stale)));
      Reschedule();
    }

    /** sem_wait */
    method SemWait(i: nat)
      requires Valid() && current.Some? && i < |sems|
      modifies this`current, ready, ready.Nodes(), sems[i], sems[i].waiters, sems[i].waiters.Nodes()
      ensures Valid() && Grows()
      ensures View() == Step(priority, old(View()), Wait(i))
    {
      hide Resched, Valid, View;
      ViewFields();
      if sems[i].count > 0 {
        AddToCount(i, -1);
      } else {
        AddWaiter(i, current.value);
        Reschedule();
      }
    }

    /** sem_release */
    method SemRelease(i: nat)
      requires Valid() && current.Some? && i < |sems|
      modifies ready, ready.Nodes(), sems[i], sems[i].waiters, sems[i].waiters.Nodes()
      ensures Valid() && Grows()
      ensures View() == Step(priority, old(View()), Release(i))
    {
      hide MakeReady, Valid, View;
      ViewFields();
      if sems[i].waiters.first != null {
        var thread := DelWaiter(i);
        AddReady(thread);
      } else {
        AddToCount(i, 1);
      }
    }
  }
}
