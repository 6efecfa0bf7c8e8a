/** The physical memory manager of lib/mem.c: frame stacks, the page directory and its tables. */
module PageMapper {
  import opened SortedSeq
  import opened FrameStack
  import opened Options
  import opened Paging
  import opened Frames
  import opened BootTables

  /** Every frame of the account lies in the range its stack was built for. */
  ghost predicate InRange(owner: Owners, lo1: int, lo2: int, hi2: int) {
    forall f | f in owner :: lo1 <= f < 4096 || (4096 <= lo2 <= f < hi2)
  }

  /** ppfree never pushes past the reserved area: a frame not on its stack leaves room for itself. */
  lemma RoomToFree(s: seq<int>, owner: Owners, low: bool, f: int, lo: int, n: nat)
    requires Lists(s, owner, low) && f in owner && owner[f] != Stacked && (f < 4096 <==> low)
    requires forall g | g in owner && (g < 4096 <==> low) :: lo <= g < lo + n
    ensures |s| < n
  {
    Pushes(s, owner, low, f);
    var t := [4096 * f] + s;
    forall i | 0 <= i < |t| ensures t[i] % 4096 == 0 && lo <= t[i] / 4096 < lo + n {
      assert t[i] in t;
      assert t[i] / 4096 in owner;
    }
    DistinctFrames(t, lo, n);
  }

  /** Frames free for use at boot: p pages below 16M and n - p from 16M on are taken by the kernel and
      the stacks. */
  predicate InPool(p: int, n: int, f: int) { p <= f < 4096 || 4096 + n - p <= f }

  function BootOwner(n: int, f: int): Owner {
    if f == DIR_FRAME then Directory
    else if TableFrame(Tables(n)) < f < DIR_FRAME then Table(4094 - f)
    else Stacked
  }

  /** Where they are when mem_init has built its tables; memory ends at frame `hi`. */
  function BootOwners(p: int, n: int, hi: int): Owners {
    map f | 0 <= f < hi && InPool(p, n, f) :: BootOwner(n, f)
  }

  predicate Bootable(p: int, n: int, hi: int) {
    0 < p <= n < 6000 && p + 1 + Tables(n) <= 4096 && 4096 + n - p <= hi <= FRAMES
  }

  lemma BootStack1(p: int, n: int, hi: int)
    requires Bootable(p, n, hi)
    ensures var s := Filled(4096 * p, 4095 - p - Tables(n)); var owner := BootOwners(p, n, hi);
      Lists(s, owner, true) && forall f | f in owner && owner[f] == Stacked && f < 4096 :: 4096 * f in s
  {
    assert Tables(n) >= 1;
    hide Distinct, Filled, Tables;
    var s := Filled(4096 * p, 4095 - p - Tables(n));
    forall a
      ensures Distinct(s)
      ensures a in s <==> a % 4096 == 0 && 4096 * p <= a < 4096 * (4095 - Tables(n))
    {
      FilledCovers(4096 * p, 4095 - p - Tables(n), a);
    }
    var owner := BootOwners(p, n, hi);
    forall a | a in s ensures a % 4096 == 0 && a / 4096 in owner && owner[a / 4096] == Stacked && a / 4096 < 4096 {
      assert p <= a / 4096 < 4095 - Tables(n);
    }
    forall f | f in owner && owner[f] == Stacked && f < 4096 ensures 4096 * f in s {
      assert 4096 * f % 4096 == 0;
    }
  }

  lemma BootStack2(p: int, n: int, hi: int)
    requires Bootable(p, n, hi)
    ensures var s := Filled(4096 * (4096 + n - p), hi - (4096 + n - p)); var owner := BootOwners(p, n, hi);
      Lists(s, owner, false) && forall f | f in owner && owner[f] == Stacked && f >= 4096 :: 4096 * f in s
  {
    assert Tables(n) >= 1;
    hide Distinct, Filled, Tables;
    var s := Filled(4096 * (4096 + n - p), hi - (4096 + n - p));
    forall a
      ensures Distinct(s)
      ensures a in s <==> a % 4096 == 0 && 4096 * (4096 + n - p) <= a < 4096 * hi
    {
      FilledCovers(4096 * (4096 + n - p), hi - (4096 + n - p), a);
    }
    var owner := BootOwners(p, n, hi);
    forall a | a in s ensures a % 4096 == 0 && a / 4096 in owner && owner[a / 4096] == Stacked && a / 4096 >= 4096 {
      assert 4096 + n - p <= a / 4096 < hi;
    }
    forall f | f in owner && owner[f] == Stacked && f >= 4096 ensures 4096 * f in s {
      assert 4096 * f % 4096 == 0;
    }
  }

  lemma BootPages(m: Mmu, p: int, n: int, late: int, hi: int)
    requires Built(m, p, n, late) && Bootable(p, n, hi) && (late == 0 || late == 3)
    ensures PagesRight(m, BootOwners(p, n, hi))
  {
    assert FullRam(m);
    hide Tables, Built, FullRam;
    forall q | 0 <= q < PAGES && PageOf(m, q).Some? ensures PageOf(m, q).value !in BootOwners(p, n, hi) {
      InitialMap(m, p, n, late, q);
    }
  }

  lemma BootTableFrames(m: Mmu, p: int, n: int, late: int, hi: int)
    requires Built(m, p, n, late) && Bootable(p, n, hi)
    requires late == 3 || (late == 0 && (n - 1) / 1024 == (p - 1) / 1024)
    ensures TablesRight(m, BootOwners(p, n, hi))
  {
    forall d | 0 <= d < 1023
      ensures Present(Pde(m, d)) <==> d < Tables(n)
      ensures Present(Pde(m, d)) ==> Frame(Pde(m, d)) == TableFrame(d)
    {
      EntryBits(TableFrame(d));
    }
    assert m.dir == DIR_FRAME;
    hide Pde, FullRam, Built;
  }

  lemma WiredRam(m: Mmu)
    requires Wired(m)
    ensures FullRam(m)
  {}

  lemma BootAccounts(m: Mmu, p: int, n: int, late: int, hi: int)
    requires Built(m, p, n, late) && Bootable(p, n, hi)
    requires late == 3 || (late == 0 && (n - 1) / 1024 == (p - 1) / 1024)
    ensures Accounts(m, Filled(4096 * p, 4095 - p - Tables(n)), Filled(4096 * (4096 + n - p), hi - (4096 + n - p)),
      BootOwners(p, n, hi))
  {
    hide PagesRight, TablesRight, FullRam, Word, Built, Lists, Wired, Filled;
    assert FullRam(m) by { BuiltWired(m, p, n, late); WiredRam(m); }
    BuiltWired(m, p, n, late);
    BootStack1(p, n, hi);
    BootStack2(p, n, hi);
    BootPages(m, p, n, late, hi);
    BootTableFrames(m, p, n, late, hi);
  }

  /** A kernel that ends at 3M on a machine with 3008M boots with a table begun in the loop over memstack2;
      with the flags as spelt the pages from 1024 on, where 498 pages of memstack2 belong, are not mapped. */
  lemma LateFlagsWrong(m: Mmu, q: int)
    requires Built(m, IdentityPages(0x30_0000), MappedPages(0x30_0000, 0x2F_0000), 0) && 1024 <= q < 1522
    ensures MemoryFits(0x30_0000, 0x2F_0000)
    ensures Bootable(IdentityPages(0x30_0000), MappedPages(0x30_0000, 0x2F_0000), 4096 + Pages2(0x2F_0000))
    ensures IdentityPages(0x30_0000) <= q < MappedPages(0x30_0000, 0x2F_0000) && PageOf(m, q) == None
  {
    assert IdentityPages(0x30_0000) == 773 && MappedPages(0x30_0000, 0x2F_0000) == 1522;
    InitialMap(m, 773, 1522, 0, q);
  }

  /** Frames it takes to map n pages from vp on: one a page, and one for a table where the range or the table
      begins and there is none. */
  function FramesNeeded(m: Mmu, vp: int, n: nat): nat
    requires FullRam(m) && 0 <= vp && vp + n <= PAGES
  {
    if n == 0 then 0
    else
      var last := vp + n - 1;
      FramesNeeded(m, vp, n - 1) + if !Present(Pde(m, last / 1024)) && (n == 1 || last % 1024 == 0) then 2 else 1
  }

  /** Directory slots of the range that have no table. */
  ghost function Missing(m: Mmu, vp: int, n: nat): set<int>
    requires FullRam(m) && 0 <= vp && vp + n <= PAGES
  {
    set d | 0 <= d < 1023 && n > 0 && vp / 1024 <= d <= (vp + n - 1) / 1024 && !Present(Pde(m, d))
  }

  lemma MissingNext(m: Mmu, vp: int, n: nat)
    requires FullRam(m) && 0 <= vp && 0 < n && vp + n <= PAGES
    ensures var d := (vp + n - 1) / 1024; Missing(m, vp, n) == Missing(m, vp, n - 1) + if Present(Pde(m, d)) then {}
      else {d}
    ensures var d := (vp + n - 1) / 1024; d in Missing(m, vp, n - 1) <==>
      !Present(Pde(m, d)) && !(n == 1 || (vp + n - 1) % 1024 == 0)
  {
    hide FullRam, Pde, Present;
  }

  /** That is as many as there are pages and missing tables. */
  lemma {:induction false} NeededIs(m: Mmu, vp: int, n: nat)
    requires FullRam(m) && 0 <= vp && vp + n <= PAGES
    ensures FramesNeeded(m, vp, n) == n + |Missing(m, vp, n)|
  {
    hide FullRam, Pde, Present, Missing;
    if n > 0 {
      NeededIs(m, vp, n - 1);
      MissingNext(m, vp, n);
    } else {
      NoneMissing(m, vp);
    }
  }

  lemma NoneMissing(m: Mmu, vp: int)
    requires FullRam(m) && 0 <= vp <= PAGES
    ensures Missing(m, vp, 0) == {}
  {}

  /** Page q is mapped to a frame that was free before, and its entry has exactly the flags asked for. */
  ghost predicate NewPage(m: Mmu, q: int, before: Owners, rw: bool, user: bool)
    requires FullRam(m) && 0 <= q < PAGES
  {
    && PageOf(m, q).Some? && PageOf(m, q).value in before && before[PageOf(m, q).value] == Stacked
    && Pte(m, q) == 4096 * PageOf(m, q).value + 1 + (if rw then 2 else 0) + (if user then 4 else 0)
  }

  /** All directory entries are as before but that of slot d, if it was not present: it may now point to a
      table, with the flags asked for. */
  ghost predicate TableMade(before: Mmu, m: Mmu, d: int, rw: bool, user: bool)
    requires FullRam(m) && FullRam(before) && 0 <= d < 1023
  {
    && (forall e | 0 <= e < 1024 && (e != d || Present(Pde(before, d))) :: Pde(m, e) == Pde(before, e))
    && (Present(Pde(m, d)) && !Present(Pde(before, d)) ==>
          Pde(m, d) == 4096 * Frame(Pde(m, d)) + 1 + (if rw then 2 else 0) + (if user then 4 else 0))
  }

  /** A directory entry is as before, or points to a table where there was none, with the flags asked for. */
  ghost predicate DirectoryKept(before: Mmu, m: Mmu, rw: bool, user: bool)
    requires FullRam(m) && FullRam(before)
  {
    forall e | 0 <= e < 1024 && Pde(m, e) != Pde(before, e) ::
      && !Present(Pde(before, e)) && Present(Pde(m, e))
      && Pde(m, e) == 4096 * Frame(Pde(m, e)) + 1 + (if rw then 2 else 0) + (if user then 4 else 0)
  }

  /** From m0 to m, the n pages from vp on have been mapped to new frames, with the tables that takes, and no
      other entry of a page or of the directory has changed. */
  ghost predicate RangeMapped(m0: Mmu, m: Mmu, before: Owners, vp: int, n: nat, rw: bool, user: bool)
    requires FullRam(m0) && FullRam(m) && 0 <= vp && vp + n <= PAGES
  {
    && (forall q | vp <= q < vp + n :: PageOf(m0, q) == None && NewPage(m, q, before, rw, user))
    && (forall q | 0 <= q < PAGES && !(vp <= q < vp + n) :: Pte(m, q) == Pte(m0, q))
    && DirectoryKept(m0, m, rw, user)
    && (forall d | 0 <= d < 1023 ::
          Present(Pde(m, d)) <==> Present(Pde(m0, d)) || (n > 0 && vp / 1024 <= d <= (vp + n - 1) / 1024))
  }

  lemma SameEntry(m: Mmu, r: Mmu, q: int)
    requires FullRam(m) && FullRam(r) && 0 <= q < FRAMES && Pte(m, q) == Pte(r, q)
    ensures PageOf(m, q) == PageOf(r, q)
  {}

  lemma RangeBegins(m: Mmu, before: Owners, vp: int, rw: bool, user: bool)
    requires FullRam(m) && 0 <= vp <= PAGES
    ensures FramesNeeded(m, vp, 0) == 0 && RangeMapped(m, m, before, vp, 0, rw, user)
  {
    hide FullRam, Pte, PageOf, Pde;
  }

  /** What one page more takes, in terms of the tables there are by then, and what the rest does. */
  lemma RangeSoFar(m0: Mmu, m: Mmu, before: Owners, vp: int, i: nat, n: nat, rw: bool, user: bool)
    requires FullRam(m0) && FullRam(m) && 0 <= vp && i <= n && vp + n <= PAGES
    requires RangeMapped(m0, m, before, vp, i, rw, user)
    ensures FramesNeeded(m0, vp, i) <= FramesNeeded(m0, vp, n)
    ensures forall q | vp <= q < vp + i :: PageOf(m0, q) == None
    ensures i < n ==> PageOf(m, vp + i) == PageOf(m0, vp + i)
    ensures i < n ==>
      && FramesNeeded(m0, vp, i + 1) == FramesNeeded(m0, vp, i) + (if Present(Pde(m, (vp + i) / 1024)) then 1 else 2)
      && FramesNeeded(m0, vp, i + 1) <= FramesNeeded(m0, vp, n)
  {
    hide FullRam, Pde, Pte, DirectoryKept;
    NeededGrows(m0, vp, i, n);
    if i < n { NeededGrows(m0, vp, i + 1, n); }
  }

  lemma RangeNext(m0: Mmu, m1: Mmu, m: Mmu, before: Owners, vp: int, i: nat, frame: int, rw: bool, user: bool)
    requires FullRam(m0) && FullRam(m1) && FullRam(m) && 0 <= vp && vp + i < PAGES
    requires RangeMapped(m0, m1, before, vp, i, rw, user) && PageOf(m1, vp + i) == None
    requires frame in before && before[frame] == Stacked
    requires Pte(m, vp + i) == 4096 * frame + 1 + (if rw then 2 else 0) + (if user then 4 else 0)
    requires forall q | 0 <= q < PAGES && q != vp + i :: Pte(m, q) == Pte(m1, q)
    requires TableMade(m1, m, (vp + i) / 1024, rw, user) && Present(Pde(m, (vp + i) / 1024))
    ensures RangeMapped(m0, m, before, vp, i + 1, rw, user)
  {
    hide FullRam, Pde, Pte;
    FlaggedFrame(frame, 1 + (if rw then 2 else 0) + (if user then 4 else 0));
    assert NewPage(m, vp + i, before, rw, user);
    forall q | vp <= q < vp + i ensures NewPage(m, q, before, rw, user) {
      assert NewPage(m1, q, before, rw, user) && Pte(m, q) == Pte(m1, q);
    }
    forall d | 0 <= d < 1023
      ensures Present(Pde(m, d)) <==> Present(Pde(m0, d)) || (vp / 1024 <= d <= (vp + i) / 1024)
    {
      assert Present(Pde(m, d)) <==> Present(Pde(m1, d)) || d == (vp + i) / 1024;
      assert i > 0 ==> (vp + i) / 1024 == (vp + i - 1) / 1024 || (vp + i) / 1024 == (vp + i - 1) / 1024 + 1;
    }
  }

  /** What stopped psalloc_at_v would stop it again: the page it failed at is still mapped, or a page it mapped
      itself is, or there is still no frame. */
  lemma StillRefused(m0: Mmu, m: Mmu, before: Owners, vp: int, done: nat, n: nat, free: nat, rw: bool, user: bool)
    requires FullRam(m0) && FullRam(m) && 0 <= vp && done < n && vp + n <= PAGES
    requires RangeMapped(m0, m, before, vp, done, rw, user) && (PageOf(m0, vp + done).Some? || free == 0)
    ensures FramesNeeded(m, vp, n) > free || exists q :: vp <= q < vp + n && PageOf(m, q).Some?
  {
    hide FullRam, Pte, Pde, PageOf, FramesNeeded;
    NeededIs(m, vp, n);
    if PageOf(m0, vp + done).Some? { SameEntry(m0, m, vp + done); }
  }

  lemma {:induction false} NeededGrows(m: Mmu, vp: int, i: nat, n: nat)
    requires FullRam(m) && 0 <= vp && i <= n && vp + n <= PAGES
    ensures FramesNeeded(m, vp, i) <= FramesNeeded(m, vp, n)
  {
    hide FullRam, Pde;
    if i < n { NeededGrows(m, vp, i, n - 1); }
  }

  class Pager {
    var mmu: Mmu
    const stack1: FrameStack
    const stack2: FrameStack
    ghost var owner: Owners
    ghost const lo1: int
    ghost const lo2: int
    ghost const hi2: int

    /** mem_init, up to the switch to paging.  `late` is 0 as the source spells line 198, which is right only
        if no table is begun in the loop over memstack2, or 3 as in line 170. */
    constructor MemInit(kmemEnd: nat, memTotal: nat, ram: map<int, seq<int>>, late: int)
      requires MemoryFits(kmemEnd, memTotal) && FullRam(Mmu(ram, 0))
      requires IdentityPages(kmemEnd) + 1 + Tables(MappedPages(kmemEnd, memTotal)) <= 4096
      requires late == 3 || (late == 0
        && (MappedPages(kmemEnd, memTotal) - 1) / 1024 == (IdentityPages(kmemEnd) - 1) / 1024)
      ensures Valid() && Built(mmu, IdentityPages(kmemEnd), MappedPages(kmemEnd, memTotal), late)
      ensures owner == BootOwners(IdentityPages(kmemEnd), MappedPages(kmemEnd, memTotal), 4096 + Pages2(memTotal))
      ensures stack1.Contents() == Filled(Base1(kmemEnd), Frames1(kmemEnd) - 1 - Tables(MappedPages(kmemEnd, memTotal)))
      ensures stack2.Contents() == Filled(Base2(memTotal), Frames2(memTotal))
      ensures fresh(stack1) && fresh(stack2) && fresh(stack1.slots) && fresh(stack2.slots)
    {
      hide Accounts, FullRam, Built, Filled, Tables, MemoryFits;
      StackSizes(kmemEnd, memTotal);
      var p := IdentityPages(kmemEnd);
      var n := MappedPages(kmemEnd, memTotal);
      stack1 := new FrameStack.Fill(1024 * StackPages1(kmemEnd), Base1(kmemEnd), Frames1(kmemEnd));
      stack2 := new FrameStack.Fill(1024 * StackPages2(memTotal), Base2(memTotal), Frames2(memTotal));
      mmu := Mmu(ram, 0);
      lo1, lo2, hi2 := p, 4096 + n - p, 4096 + Pages2(memTotal);
      owner := BootOwners(p, n, 4096 + Pages2(memTotal));
      assert Frames1(kmemEnd) == 4096 - p && Base1(kmemEnd) == 4096 * p;
      assert Base2(memTotal) == 4096 * (4096 + n - p) && Frames2(memTotal) == 4096 + Pages2(memTotal) - (4096 + n - p);
      hide IdentityPages, MappedPages, Frames1, Frames2, Base1, Base2, StackPages1, StackPages2, Pages2, KernelPages;
      new;
      BuildTables(p, n, late);
      BootAccounts(mmu, p, n, late, hi2);
      FromAccounts(mmu, stack1.Contents(), stack2.Contents(), owner);
    }

    ghost predicate Separate()
      reads this, stack1, stack2
    {
      && stack1 != stack2 && stack1.slots != stack2.slots && stack1.Valid() && stack2.Valid()
      && 4096 - lo1 <= stack1.slots.Length && hi2 - lo2 <= stack2.slots.Length
    }

    ghost predicate Valid()
      reads this, stack1, stack2, stack1.slots, stack2.slots
    {
      Separate() && FullRam(mmu) && InRange(owner, lo1, lo2, hi2)
        && Accounts(mmu, stack1.Contents(), stack2.Contents(), owner)
    }

    ghost function Free(): nat
      reads this, stack1, stack2, stack1.slots, stack2.slots
      requires Separate()
    {
      |stack1.Contents()| + |stack2.Contents()|
    }

    lemma Ram()
      requires Valid()
      ensures FullRam(mmu) && Separate()
    {}

    /** The body of both loops of mem_init over pages, lines 157-186 and 192-202: begin a new table when
        the last is full, then write one entry. */
    method PutEntry(value: int, flags: int, pt: int, j: nat, ind: nat, ghost p: int, ghost late: int, ghost x: int)
      returns (pt': int, j': nat, ind': nat)
      requires stack1.Valid() && Partial(mmu, p, late, x, ind) && x < 6000 && j == x - 1024 * (ind - 1)
        && pt == 4096 * TableFrame(ind - 1)
      requires 0 < p && p + ind < if j == 1024 then 4095 else 4096
      requires stack1.Contents() == Filled(4096 * p, 4095 - p - ind)
      requires value == MapEntry(p, x) && 0 <= value < 0x1_0000_0000 && flags == (if x < p then 3 else late)
        && 0 <= late <= 3
      modifies `mmu, stack1
      ensures stack1.Valid() && Partial(mmu, p, late, x + 1, ind') && j' == x + 1 - 1024 * (ind' - 1)
        && pt' == 4096 * TableFrame(ind' - 1)
      ensures ind <= ind' <= ind + 1 && j' > 0 && p + ind' < 4096
      ensures stack1.Contents() == Filled(4096 * p, 4095 - p - ind')
    {
      hide FullRam, Word, Pde, Poke, Filled;
      pt', j', ind' := pt, j, ind;
      if j' == 1024 {
        FilledHas(4096 * p, 4095 - p - ind);
        pt' := stack1.Pop();
        FilledPop(4096 * p, 4095 - p - ind, pt', stack1.Contents());
        j' := 0;
        PokeDir(mmu, ind', pt' + flags);
        mmu := Poke(mmu, mmu.dir, ind', pt' + flags);
        ind' := ind' + 1;
      }
      assert x / 1024 == ind' - 1 && x % 1024 == j';
      PokeWord(mmu, x, value);
      mmu := Poke(mmu, pt' / 4096, j', value);
      j' := j' + 1;
    }
  
    /** Frame f was the top of stack 2 or, that being empty, of stack 1, and is gone from there. */
    ghost predicate Took(s1: seq<int>, s2: seq<int>, f: int)
      reads this, stack1, stack2, stack1.slots, stack2.slots
      requires Separate()
    {
      if s2 != [] then f >= 4096 && s2 == [4096 * f] + stack2.Contents() && stack1.Contents() == s1
      else f < 4096 && s1 == [4096 * f] + stack1.Contents() && stack2.Contents() == s2
    }

    /** ppalloc: from stack 2 while it has frames, then from stack 1; 0 when both are empty. */
    method Ppalloc() returns (addr: int)
      requires Valid()
      modifies `owner, stack1, stack2
      ensures Valid()
      ensures addr == 0 <==> old(Free()) == 0
      ensures addr == 0 ==> owner == old(owner) && Free() == 0
      ensures addr != 0 ==> addr > 0 && addr % 4096 == 0 && addr / 4096 < FRAMES && Free() == old(Free()) - 1
      ensures addr != 0 ==> addr / 4096 in old(owner) && old(owner)[addr / 4096] == Stacked
      ensures addr != 0 ==> owner == old(owner)[addr / 4096 := Held]
      ensures addr != 0 ==> Took(old(stack1.Contents()), old(stack2.Contents()), addr / 4096)
    {
      hide Accounts;
      ghost var s1, s2 := stack1.Contents(), stack2.Contents();
      var retval := stack2.Pop();
      if s2 != [] {
        Popped(mmu, s1, s2, owner, retval, s1, stack2.Contents());
      }
      if retval != 0 {
        owner := owner[retval / 4096 := Held];
        return retval;
      }
      retval := stack1.Pop();
      if s1 != [] {
        Popped(mmu, s1, s2, owner, retval, stack1.Contents(), s2);
      }
      if retval != 0 {
        owner := owner[retval / 4096 := Held];
        return retval;
      }
      return 0;
    }

    /** memset(pt, 0, 4096) through the table window. */
    method ZeroTable(d: int)
      requires Wired(mmu) && 0 <= d < 1023 && Present(Pde(mmu, d))
      modifies `mmu
      ensures mmu == SetTable(old(mmu), d, Zeros())
    {
      hide Wired, FullRam, Store, Translate, SetTable, Zeros, Pde, TableWindow, HalfZero;
      ghost var m := mmu;
      WiredRam(m);
      ZeroedTo(m, d, 0);
      var i := 0;
      while i < 1024
        invariant 0 <= i <= 1024 && mmu == SetTable(m, d, HalfZero(m, d, i)) && Wired(mmu)
      {
        WiredRam(mmu);
        ZeroStep(m, d, i);
        mmu := Store(mmu, TableWindow(d, i), 0);
        i := i + 1;
      }
      ZeroedTo(m, d, 1024);
    }

    /** mem_init, lines 148-153: take a frame for the directory and one for the first table. */
    method BeginTables(ghost p: int, ghost late: int) returns (pt: int)
      requires stack1.Valid() && FullRam(mmu) && 0 < p <= 4094 && stack1.Contents() == Filled(4096 * p, 4096 - p)
      modifies `mmu, stack1
      ensures stack1.Valid() && stack1.Contents() == Filled(4096 * p, 4094 - p) && pt == 4096 * TableFrame(0)
      ensures Partial(mmu, p, late, 0, 1)
    {
      hide FullRam, Word, Pde, Poke, Filled;
      FilledHas(4096 * p, 4096 - p);
      var dir := stack1.Pop();
      FilledPop(4096 * p, 4096 - p, dir, stack1.Contents());
      FilledHas(4096 * p, 4095 - p);
      pt := stack1.Pop();
      FilledPop(4096 * p, 4095 - p, pt, stack1.Contents());
      ChangeDir(mmu);
      mmu := mmu.(dir := dir / 4096);
      PokeDir(mmu, 0, pt + 3);
      mmu := Poke(mmu, mmu.dir, 0, pt + 3);
    }

    /** mem_init, lines 148-220: directory and tables for p identity-mapped pages and the n - p pages of
        memstack2, in frames taken off stack 1 without a check. */
    method BuildTables(p: int, n: int, late: int)
      requires stack1.Valid() && FullRam(mmu) && (late == 0 || late == 3) && 0 < p <= n < 6000
      requires p + 1 + Tables(n) <= 4096 && stack1.Contents() == Filled(4096 * p, 4096 - p)
      modifies `mmu, stack1
      ensures stack1.Valid() && Built(mmu, p, n, late) && stack1.Contents() == Filled(4096 * p, 4095 - p - Tables(n))
    {
      hide FullRam, Word, Pde, Poke, Filled;
      var pt := BeginTables(p, late);
      var ind, j, i := 1, 0, 0;
      while i < p
        invariant ind <= Tables(n) && 0 <= i <= p && stack1.Valid() && Partial(mmu, p, late, i, ind)
          && j == i - 1024 * (ind - 1)
        invariant pt == 4096 * TableFrame(ind - 1) && stack1.Contents() == Filled(4096 * p, 4095 - p - ind)
        invariant i <= 1024 * (ind - 1) ==> i == 0
      {
        pt, j, ind := PutEntry(4096 * i + 3, 3, pt, j, ind, p, late, i);
        i := i + 1;
      }
      i := 0;
      while i < n - p
        invariant ind <= Tables(n) && 0 <= i <= n - p && stack1.Valid() && Partial(mmu, p, late, p + i, ind)
          && j == p + i - 1024 * (ind - 1)
        invariant pt == 4096 * TableFrame(ind - 1) && stack1.Contents() == Filled(4096 * p, 4095 - p - ind)
        invariant p + i > 1024 * (ind - 1)
      {
        pt, j, ind := PutEntry(4096 * (4096 + i) + 3, late, pt, j, ind, p, late, p + i);
        i := i + 1;
      }
      assert ind == Tables(n);
      ClearRest(pt, j, ind, p, n, late);
    }

    /** mem_init, lines 205-220: zeros to the end of the last table and of the directory, whose last slot
        then refers to the directory. */
    method ClearRest(pt: int, j: nat, ind: nat, ghost p: int, ghost n: int, ghost late: int)
      requires Partial(mmu, p, late, n, ind) && ind == Tables(n) && 0 < p <= n < 6000
      requires j == n - 1024 * (ind - 1) && pt == 4096 * TableFrame(ind - 1)
      modifies `mmu
      ensures Built(mmu, p, n, late)
    {
      hide FullRam, Word, Pde, Poke;
      var i := j;
      while i < 1024
        invariant j <= i <= 1024 && Partial(mmu, p, late, n, ind)
        invariant forall x | n <= x < 1024 * (ind - 1) + i :: Word(mmu, x) == 0
      {
        ghost var x := 1024 * (ind - 1) + i;
        assert x / 1024 == ind - 1 && x % 1024 == i;
        PokeWord(mmu, x, 0);
        mmu := Poke(mmu, pt / 4096, i, 0);
        i := i + 1;
      }
      i := ind;
      while i < 1023
        invariant ind <= i <= 1023 && Partial(mmu, p, late, n, ind)
        invariant forall x | n <= x < 1024 * ind :: Word(mmu, x) == 0
        invariant forall d | ind <= d < i :: Pde(mmu, d) == 0
      {
        PokeDir(mmu, i, 0);
        mmu := Poke(mmu, mmu.dir, i, 0);
        i := i + 1;
      }
      PokeDir(mmu, 1023, 4096 * mmu.dir + 3);
      mmu := Poke(mmu, mmu.dir, 1023, 4096 * mmu.dir + 3);
    }

    /** The account covers the frames it did, and only free frames and the excepted ones have moved. */
    ghost predicate KeepsOthers(before: Owners, except: set<int>)
      reads this
    {
      owner.Keys == before.Keys && forall f | f in before && before[f] != Stacked && f !in except ::
        owner[f] == before[f]
    }

    /** No frame but the excepted ones is held that was not held before, or the other way round. */
    ghost predicate HeldAsBefore(before: Owners, except: set<int>)
      reads this
    {
      owner.Keys == before.Keys && forall f | f in before && f !in except :: owner[f] == Held <==> before[f] == Held
    }

    /** pmap, lines 407-424: make sure there is a page table for directory slot d. */
    method EnsureTable(d: int, rw: bool, user: bool) returns (ok: bool)
      requires Valid() && 0 <= d < 1023
      modifies `mmu, `owner, stack1, stack2
      ensures Valid() && mmu.dir == old(mmu.dir)
      ensures ok <==> Present(Pde(old(mmu), d)) || old(Free()) > 0
      ensures ok ==> Present(Pde(mmu, d)) && Free() == old(Free()) - if Present(Pde(old(mmu), d)) then 0 else 1
      ensures !ok || Present(Pde(old(mmu), d)) ==> mmu == old(mmu) && owner == old(owner)
      ensures !ok || Present(Pde(old(mmu), d)) ==> StacksUnchanged(old(stack1.Contents()), old(stack2.Contents()))
      ensures KeepsOthers(old(owner), {}) && HeldAsBefore(old(owner), {})
      ensures forall q | 0 <= q < PAGES :: Pte(mmu, q) == Pte(old(mmu), q)
      ensures forall q | 0 <= q < PAGES :: PageOf(mmu, q) == PageOf(old(mmu), q)
      ensures forall e | 0 <= e < 1024 && e != d :: Pde(mmu, e) == Pde(old(mmu), e)
      ensures ok && !Present(Pde(old(mmu), d)) ==> var t := Frame(Pde(mmu, d));
        && Pde(mmu, d) == 4096 * t + 1 + (if rw then 2 else 0) + (if user then 4 else 0)
        && t in old(owner) && old(owner)[t] == Stacked && owner == old(owner)[t := Table(d)]
    {
      hide Accounts, FullRam, PageOf, Pte, Load, Store;
      ghost var m := mmu;
      FromAccounts(m, stack1.Contents(), stack2.Contents(), owner);
      DirWindowShows(m, d, 0);
      if Present(Load(mmu, DirWindow(d))) { return true; }
      var physPt := Ppalloc();
      if physPt == 0 { return false; }
      var entry := physPt + 1 + (if rw then 2 else 0) + (if user then 4 else 0);
      ghost var t := physPt / 4096;
      EntryOf(physPt, rw, user);
      FreshTable(m, stack1.Contents(), stack2.Contents(), owner, d, entry);
      DirWindowShows(m, d, entry);
      mmu := Store(mmu, DirWindow(d), entry);
      ZeroTable(d);
      owner := owner[t := Table(d)];
      assert mmu == AddTable(m, d, entry);
      FromAccounts(mmu, stack1.Contents(), stack2.Contents(), owner);
      return true;
    }

    ghost predicate StacksUnchanged(s1: seq<int>, s2: seq<int>)
      reads stack1, stack2, stack1.slots, stack2.slots
      requires stack1.Valid() && stack2.Valid()
    {
      stack1.Contents() == s1 && stack2.Contents() == s2
    }

    /** The caller holds the frame of an address, or it is none of the account's. */
    ghost predicate Placeable(phys: int)
      reads this
    {
      phys / 4096 in owner ==> owner[phys / 4096] == Held
    }

    /** pmap, for a page outside the last 4MB.  It succeeds exactly if both addresses are aligned, the page is
        unmapped, and there is or can be a page table; it then changes the translation of that page alone,
        and a failing call changes nothing at all.  The account stays right if the frame was placeable; a
        frame that is in another place already is then in two. */
    method Pmap(phys: int, virt: int, rw: bool, user: bool) returns (ok: bool)
      requires Valid() && 0 <= phys < 0x1_0000_0000 && 0 <= virt < 0xFFC0_0000
      modifies `mmu, `owner, stack1, stack2
      ensures Separate() && FullRam(mmu) && (!ok || old(Placeable(phys)) ==> Valid())
      ensures ok <==> && phys % 4096 == 0 && virt % 4096 == 0 && PageOf(old(mmu), virt / 4096) == None
                      && (Present(Pde(old(mmu), virt / 0x40_0000)) || old(Free()) > 0)
      ensures ok ==> Translate(mmu, virt) == Some(phys) && Present(Pde(mmu, virt / 0x40_0000))
      ensures ok ==> Free() == old(Free()) - if Present(Pde(old(mmu), virt / 0x40_0000)) then 0 else 1
      ensures ok ==> Pte(mmu, virt / 4096) == phys + 1 + (if rw then 2 else 0) + (if user then 4 else 0)
      ensures forall q | 0 <= q < PAGES && !(ok && q == virt / 4096) :: Pte(mmu, q) == Pte(old(mmu), q)
      ensures forall q | 0 <= q < PAGES && !(ok && q == virt / 4096) :: PageOf(mmu, q) == PageOf(old(mmu), q)
      ensures TableMade(old(mmu), mmu, virt / 0x40_0000, rw, user)
      ensures !ok ==> mmu == old(mmu) && owner == old(owner)
      ensures !ok || Present(Pde(old(mmu), virt / 0x40_0000)) ==>
        StacksUnchanged(old(stack1.Contents()), old(stack2.Contents()))
      ensures KeepsOthers(old(owner), {phys / 4096}) && HeldAsBefore(old(owner), {phys / 4096})
      ensures ok && old(Placeable(phys)) && phys / 4096 in old(owner) ==> owner[phys / 4096] == Page(virt / 4096)
      ensures ok && old(Placeable(phys)) && phys / 4096 in old(owner) && Present(Pde(old(mmu), virt / 0x40_0000)) ==>
        owner == old(owner)[phys / 4096 := Page(virt / 4096)]
    {
      hide Accounts, FullRam, PageOf, Pte, Load, Store, Translate, SetPte;
      if phys % 4096 != 0 || virt % 4096 != 0 { return false; }
      UnmappedWithoutTable(mmu, virt / 4096);
      ok := EnsureTable(virt / 0x40_0000, rw, user);
      if !ok { return; }
      ok := SetEntry(phys, virt, rw, user);
    }

    /** pmap, lines 428-436: enter the page in its table, unless it is mapped. */
    method SetEntry(phys: int, virt: int, rw: bool, user: bool) returns (ok: bool)
      requires Valid() && 0 <= phys < 0x1_0000_0000 && 0 <= virt < 0xFFC0_0000 && phys % 4096 == 0 && virt % 4096 == 0
      requires Present(Pde(mmu, virt / 0x40_0000))
      modifies `mmu, `owner
      ensures Separate() && FullRam(mmu) && (!ok || old(Placeable(phys)) ==> Valid())
      ensures ok <==> PageOf(old(mmu), virt / 4096) == None
      ensures ok ==> Translate(mmu, virt) == Some(phys) && Present(Pde(mmu, virt / 0x40_0000))
      ensures ok ==> Pte(mmu, virt / 4096) == phys + 1 + (if rw then 2 else 0) + (if user then 4 else 0)
      ensures forall q | 0 <= q < PAGES && !(ok && q == virt / 4096) :: Pte(mmu, q) == Pte(old(mmu), q)
      ensures forall q | 0 <= q < PAGES && !(ok && q == virt / 4096) :: PageOf(mmu, q) == PageOf(old(mmu), q)
      ensures forall e | 0 <= e < 1024 :: Pde(mmu, e) == Pde(old(mmu), e)
      ensures !ok ==> mmu == old(mmu)
      ensures owner == if ok && phys / 4096 in old(owner) && old(Placeable(phys))
        then old(owner)[phys / 4096 := Page(virt / 4096)] else old(owner)
    {
      hide Accounts, FullRam, PageOf, Pte, Load, Store, Translate, SetPte;
      ghost var vp := virt / 4096;
      var pdInd := virt / 0x40_0000;
      var ptInd := virt / 4096 % 1024;
      FromAccounts(mmu, stack1.Contents(), stack2.Contents(), owner);
      MappedIffPresent(mmu, vp);
      TableWindowShows(mmu, pdInd, ptInd, 0);
      if Present(Load(mmu, TableWindow(pdInd, ptInd))) { return false; }
      var entry := phys + 1 + (if rw then 2 else 0) + (if user then 4 else 0);
      EntryOf(phys, rw, user);
      StoreSetsPte(mmu, vp, entry);
      if Placeable(phys) { PageMapped(mmu, stack1.Contents(), stack2.Contents(), owner, vp, entry); }
      SetPteIsPointUpdate(mmu, vp, entry);
      MapsTo(mmu, virt, phys, entry);
      mmu := Store(mmu, TableWindow(pdInd, ptInd), entry);
      if phys / 4096 in owner && Placeable(phys) { owner := owner[phys / 4096 := Page(vp)]; }
      return true;
    }

    /** palloc_at_v, as written: when pmap fails the frame it was to map is not given back. */
    method PallocAtV(virt: int, rw: bool, user: bool) returns (ok: bool, ghost frame: int)
      requires Valid() && 0 <= virt < 0xFFC0_0000
      modifies `mmu, `owner, stack1, stack2
      ensures Valid() && KeepsOthers(old(owner), {})
      ensures ok <==> && virt % 4096 == 0 && PageOf(old(mmu), virt / 4096) == None
                      && old(Free()) >= if Present(Pde(old(mmu), virt / 0x40_0000)) then 1 else 2
      ensures HeldAsBefore(old(owner), if ok || old(Free()) == 0 then {} else {frame})
      ensures old(Free()) > 0 ==> frame in old(owner) && old(owner)[frame] == Stacked && Free() < old(Free())
      ensures ok ==> Free() == old(Free()) - if Present(Pde(old(mmu), virt / 0x40_0000)) then 1 else 2
      ensures !ok ==> Free() == if old(Free()) > 0 then old(Free()) - 1 else 0
      ensures ok ==> Translate(mmu, virt) == Some(4096 * frame) && Present(Pde(mmu, virt / 0x40_0000))
      ensures ok ==> frame in owner && owner[frame] == Page(virt / 4096)
      ensures ok ==> Pte(mmu, virt / 4096) == 4096 * frame + 1 + (if rw then 2 else 0) + (if user then 4 else 0)
      ensures forall q | 0 <= q < PAGES && !(ok && q == virt / 4096) :: Pte(mmu, q) == Pte(old(mmu), q)
      ensures TableMade(old(mmu), mmu, virt / 0x40_0000, rw, user)
      ensures !ok ==> mmu == old(mmu) && owner == if old(Free()) > 0 then old(owner)[frame := Held] else old(owner)
      ensures forall q | 0 <= q < PAGES && !(ok && q == virt / 4096) :: PageOf(mmu, q) == PageOf(old(mmu), q)
      ensures ok && Present(Pde(old(mmu), virt / 0x40_0000)) ==>
        Took(old(stack1.Contents()), old(stack2.Contents()), frame) && owner == old(owner)[frame := Page(virt / 4096)]
    {
      hide Accounts, FullRam, PageOf, Pte, Translate, InRange, Pde;
      var phys := Ppalloc();
      if phys == 0 { return false, 0; }
      frame := phys / 4096;
      ok := Pmap(phys, virt, rw, user);
    }

    /** psalloc_at_v.  It succeeds exactly if the address is aligned, no page of the range is mapped, and there
        is a frame for every page and for every page table that is missing.  Otherwise it stops at the first
        page that fails and keeps those before it, and the one frame popped for it, if there was one, is the
        only frame newly held.  `done` pages are mapped; the source returns only `ok`. */
    method PsallocAtV(virt: int, rw: bool, user: bool, num: nat) returns (ok: bool, done: nat, ghost lost: Option<int>)
      requires Valid() && 0 <= virt && virt + 4096 * num <= 0xFFC0_0000
      modifies `mmu, `owner, stack1, stack2
      ensures Valid() && done <= num && (ok <==> done == num)
      ensures ok <==> num == 0 ||
                      (&& virt % 4096 == 0 && FramesNeeded(old(mmu), virt / 4096, num) <= old(Free())
                       && forall q | virt / 4096 <= q < virt / 4096 + num :: PageOf(old(mmu), q) == None)
      ensures ok ==> Free() == old(Free()) - FramesNeeded(old(mmu), virt / 4096, num)
      ensures RangeMapped(old(mmu), mmu, old(owner), virt / 4096, done, rw, user)
      ensures !ok ==> virt % 4096 != 0 || PageOf(old(mmu), virt / 4096 + done).Some? || Free() == 0
      ensures KeepsOthers(old(owner), {}) && HeldAsBefore(old(owner), if lost.Some? then {lost.value} else {})
      ensures lost.Some? ==> !ok && lost.value in old(owner) && old(owner)[lost.value] == Stacked
      ensures lost.Some? ==> owner[lost.value] == Held
      ensures !ok && lost.None? ==> Free() == 0
    {
      hide Accounts, FullRam, PageOf, Pte, Translate, InRange, Pde, FramesNeeded, RangeMapped, TableMade;
      var v := virt;
      done, lost := 0, None;
      var i := 0;
      ghost var m, vp := mmu, virt / 4096;
      RangeBegins(m, owner, vp, rw, user);
      while i < num
        invariant 0 <= i <= num && done == i && v == virt + 4096 * i && Valid() && (i > 0 ==> virt % 4096 == 0)
        invariant RangeMapped(m, mmu, old(owner), vp, i, rw, user)
        invariant KeepsOthers(old(owner), {}) && HeldAsBefore(old(owner), {})
        invariant Free() == old(Free()) - FramesNeeded(m, vp, i)
      {
        assert v / 4096 == vp + i && v % 4096 == virt % 4096;
        ghost var left, m1 := Free(), mmu;
        RangeSoFar(m, m1, old(owner), vp, i, num, rw, user);
        var one, frame := PallocAtV(v, rw, user);
        if !one {
          lost := if left > 0 then Some(frame) else None;
          return false, i, lost;
        }
        RangeNext(m, m1, mmu, old(owner), vp, i, frame, rw, user);
        v := v + 4096;
        i := i + 1;
        done := i;
      }
      RangeSoFar(m, mmu, old(owner), vp, num, num, rw, user);
      return true, num, None;
    }

    /** The stack frame f belongs to has a free word. */
    ghost predicate RoomFor(f: int)
      reads this, stack1, stack2, stack1.slots, stack2.slots
      requires Separate()
    {
      if f < 4096 then |stack1.Contents()| < stack1.slots.Length else |stack2.Contents()| < stack2.slots.Length
    }

    /** ppfree */
    method Ppfree(addr: int)
      requires Separate() && 0 <= addr && addr % 4096 == 0
      requires RoomFor(addr / 4096)
      modifies stack1, stack2, stack1.slots, stack2.slots
      ensures Separate()
      ensures stack1.Contents() == Pushed(old(stack1.Contents()), true, addr / 4096)
      ensures stack2.Contents() == Pushed(old(stack2.Contents()), false, addr / 4096)
    {
      assert addr == 4096 * (addr / 4096);
      if addr < 0x100_0000 {
        stack1.Push(addr);
      } else {
        stack2.Push(addr);
      }
    }

    /** kpfree_at_v, with the mask on the page number given by `span`: 0x1_0000 as written, or 0x400 as meant.
        It frees the page whose entry the mask selects, HitPage, and leaves every other page mapped as it
        was, the one asked for too if that is another.  For a frame of the account there is always room on
        its stack, and the account stays right. */
    method KpfreeAtV(addr: int, span: int) returns (ok: bool)
      requires Valid() && 0 <= addr < 0xFFC0_0000 && (span == 0x400 || span == 0x1_0000)
      requires HitPage(addr / 4096, span) < PAGES
      requires Present(Pde(mmu, addr / 0x40_0000)) ==> Present(Pde(mmu, HitPage(addr / 4096, span) / 1024))
      requires var f := PageOf(mmu, HitPage(addr / 4096, span)); f.Some? ==> f.value in owner || RoomFor(f.value)
      modifies `mmu, `owner, stack1, stack2, stack1.slots, stack2.slots
      ensures Separate() && FullRam(mmu)
      ensures ok <==> && addr % 4096 == 0 && Present(Pde(old(mmu), addr / 0x40_0000))
                      && PageOf(old(mmu), HitPage(addr / 4096, span)).Some?
      ensures !ok || PageOf(old(mmu), HitPage(addr / 4096, span)).value in old(owner) ==> Valid()
      ensures !ok ==> mmu == old(mmu) && owner == old(owner)
      ensures !ok ==> StacksUnchanged(old(stack1.Contents()), old(stack2.Contents()))
      ensures ok ==> PageOf(mmu, HitPage(addr / 4096, span)) == None && Pte(mmu, HitPage(addr / 4096, span)) == 0
      ensures ok ==> var f := PageOf(old(mmu), HitPage(addr / 4096, span)).value;
        && owner == (if f in old(owner) then old(owner)[f := Stacked] else old(owner))
        && StacksUnchanged(Pushed(old(stack1.Contents()), true, f), Pushed(old(stack2.Contents()), false, f))
      ensures forall q | 0 <= q < PAGES && q != HitPage(addr / 4096, span) :: PageOf(mmu, q) == PageOf(old(mmu), q)
      ensures forall q | 0 <= q < PAGES && q != HitPage(addr / 4096, span) :: Pte(mmu, q) == Pte(old(mmu), q)
      ensures forall d | 0 <= d < 1024 :: Pde(mmu, d) == Pde(old(mmu), d)
    {
      hide Accounts, FullRam, PageOf, Pte, Load, Store, FreeEntry, TableWindow, SetPte, HitPage;
      if addr % 4096 != 0 { return false; }
      var pdInd := addr / 0x40_0000;
      var ptEntry := FreeEntry(addr, span);
      ghost var hit := HitPage(addr / 4096, span);
      FreeEntryHits(addr, span);
      FromAccounts(mmu, stack1.Contents(), stack2.Contents(), owner);
      UnmappedWithoutTable(mmu, hit);
      DirWindowShows(mmu, pdInd, 0);
      if !Present(Load(mmu, DirWindow(pdInd))) { return false; }
      TableWindowShows(mmu, hit / 1024, hit % 1024, 0);
      MappedIffPresent(mmu, hit);
      if !Present(Load(mmu, ptEntry)) { return false; }
      ClearEntry(hit, ptEntry);
      return true;
    }

    /** kpfree_at_v, lines 525-529: give the frame back and clear the entry. */
    method ClearEntry(ghost vp: int, ptEntry: int)
      requires Valid() && 0 <= vp < PAGES && PageOf(mmu, vp).Some?
      requires PageOf(mmu, vp).value in owner || RoomFor(PageOf(mmu, vp).value)
      requires ptEntry == TableWindow(vp / 1024, vp % 1024)
      modifies `mmu, `owner, stack1, stack2, stack1.slots, stack2.slots
      ensures Separate() && FullRam(mmu) && PageOf(mmu, vp) == None && Pte(mmu, vp) == 0
      ensures PageOf(old(mmu), vp).value in old(owner) ==> Valid()
      ensures var f := PageOf(old(mmu), vp).value;
        && owner == (if f in old(owner) then old(owner)[f := Stacked] else old(owner))
        && StacksUnchanged(Pushed(old(stack1.Contents()), true, f), Pushed(old(stack2.Contents()), false, f))
      ensures forall q | 0 <= q < PAGES && q != vp :: PageOf(mmu, q) == PageOf(old(mmu), q)
      ensures forall q | 0 <= q < PAGES && q != vp :: Pte(mmu, q) == Pte(old(mmu), q)
      ensures forall d | 0 <= d < 1024 :: Pde(mmu, d) == Pde(old(mmu), d)
    {
      hide Accounts, FullRam, PageOf, Pte, Load, Store, TableWindow, SetPte;
      FromAccounts(mmu, stack1.Contents(), stack2.Contents(), owner);
      UnmappedWithoutTable(mmu, vp);
      MappedIffPresent(mmu, vp);
      TableWindowShows(mmu, vp / 1024, vp % 1024, 0);
      StoreSetsPte(mmu, vp, 0);
      ghost var f := Frame(Load(mmu, TableWindow(vp / 1024, vp % 1024)));
      if f in owner {
        RoomForPage(mmu, stack1.Contents(), stack2.Contents(), owner, vp, f, lo1, lo2, hi2);
        PageFreed(mmu, stack1.Contents(), stack2.Contents(), owner, vp, f);
      }
      SetPteIsPointUpdate(mmu, vp, 0);
      Ppfree(4096 * Frame(Load(mmu, ptEntry)));
      mmu := Store(mmu, ptEntry, 0);
      if f in owner { owner := owner[f := Stacked]; }
    }

    /** kpfree_at_v undoes palloc_at_v: every page translates as before and, unless a page table had to
        be made, the stacks are as before, word for word. */
    method MapThenUnmap(virt: int, rw: bool, user: bool) returns (ok: bool)
      requires Valid() && 0 <= virt < 0xFFC0_0000
      modifies `mmu, `owner, stack1, stack2, stack1.slots, stack2.slots
      ensures Valid()
      ensures forall q | 0 <= q < PAGES :: PageOf(mmu, q) == PageOf(old(mmu), q)
      ensures ok && Present(Pde(old(mmu), virt / 0x40_0000)) ==>
        StacksUnchanged(old(stack1.Contents()), old(stack2.Contents())) && owner == old(owner)
    {
      hide Accounts, FullRam, PageOf, Pte, Translate, InRange, Pde, TableMade, HitPage;
      SamePage(virt / 4096);
      ghost var frame;
      ok, frame := PallocAtV(virt, rw, user);
      if ok {
        TranslatedPage(mmu, virt);
        var freed := KpfreeAtV(virt, 0x400);
      }
    }
  }

  lemma SamePage(vp: nat)
    ensures HitPage(vp, 0x400) == vp
  {}

  lemma TranslatedPage(m: Mmu, va: int)
    requires FullRam(m) && 0 <= va < 0xFFC0_0000 && va % 4096 == 0 && Translate(m, va).Some?
    ensures PageOf(m, va / 4096).Some? && Translate(m, va) == Some(4096 * PageOf(m, va / 4096).value)
  {}

  /** A mapped page's frame is not on a stack, so its stack has a word to spare. */
  lemma RoomForPage(m: Mmu, s1: seq<int>, s2: seq<int>, owner: Owners, vp: int, f: int, lo1: int, lo2: int, hi2: int)
    requires Accounts(m, s1, s2, owner) && InRange(owner, lo1, lo2, hi2)
    requires 0 <= vp < PAGES && PageOf(m, vp) == Some(f) && f in owner
    ensures f > 0
    ensures if f < 4096 then |s1| < 4096 - lo1 else |s2| < hi2 - lo2
  {
    assert owner[f] == Page(vp);
    hide PageOf, Lists;
    if f < 4096 {
      RoomToFree(s1, owner, true, f, lo1, 4096 - lo1);
    } else {
      RoomToFree(s2, owner, false, f, lo2, hi2 - lo2);
    }
  }

  lemma EntryOf(phys: int, rw: bool, user: bool)
    requires phys % 4096 == 0 && 0 <= phys < 0x1_0000_0000
    ensures var entry := phys + 1 + (if rw then 2 else 0) + (if user then 4 else 0);
      0 <= entry < 0x1_0000_0000 && Present(entry) && Frame(entry) == phys / 4096
  {
    hide Present, Frame;
    FlaggedFrame(phys / 4096, 1 + (if rw then 2 else 0) + (if user then 4 else 0));
  }

  lemma FlaggedFrame(k: int, flags: int)
    requires flags == 1 || flags == 3 || flags == 5 || flags == 7
    ensures Present(4096 * k + flags) && Frame(4096 * k + flags) == k
  {
    if flags == 1 {} else if flags == 3 {} else if flags == 5 {} else {}
  }

  lemma StoreSetsPte(m: Mmu, vp: int, w: int)
    requires Wired(m) && 0 <= vp < PAGES && Present(Pde(m, vp / 1024))
    ensures var at := TableWindow(vp / 1024, vp % 1024);
      0 <= at < 0x1_0000_0000 && Translate(m, at).Some? && Store(m, at, w) == SetPte(m, vp, w)
  {
    TableWindowShows(m, vp / 1024, vp % 1024, w);
  }

  lemma MapsTo(m: Mmu, virt: int, phys: int, entry: int)
    requires Wired(m) && 0 <= virt < 0xFFC0_0000 && virt % 4096 == 0 && Present(Pde(m, virt / 0x40_0000))
    requires Present(entry) && 0 <= entry < 0x1_0000_0000 && phys % 4096 == 0 && Frame(entry) == phys / 4096
    ensures FullRam(SetPte(m, virt / 4096, entry)) && Translate(SetPte(m, virt / 4096, entry), virt) == Some(phys)
  {}

  lemma FromAccounts(m: Mmu, s1: seq<int>, s2: seq<int>, owner: Owners)
    requires Accounts(m, s1, s2, owner)
    ensures Wired(m) && FullRam(m)
  {}

  lemma UnmappedWithoutTable(m: Mmu, vp: int)
    requires FullRam(m) && 0 <= vp < PAGES
    ensures !Present(Pde(m, vp / 1024)) ==> PageOf(m, vp) == None
  {}

  lemma MappedIffPresent(m: Mmu, vp: int)
    requires FullRam(m) && 0 <= vp < PAGES && Present(Pde(m, vp / 1024))
    ensures Frame(Pde(m, vp / 1024)) in m.ram && |m.ram[Frame(Pde(m, vp / 1024))]| == 1024
    ensures var pte := m.ram[Frame(Pde(m, vp / 1024))][vp % 1024];
      PageOf(m, vp) == if Present(pte) then Some(Frame(pte)) else None
  {}

  /** The frame ppalloc just gave makes a page table. */
  lemma FreshTable(m: Mmu, s1: seq<int>, s2: seq<int>, owner: Owners, d: int, entry: int)
    requires Accounts(m, s1, s2, owner) && 0 <= d < 1023 && !Present(Pde(m, d))
    requires Present(entry) && 0 <= entry < 0x1_0000_0000 && Frame(entry) in owner && owner[Frame(entry)] == Held
    ensures Wired(SetPde(m, d, entry)) && Pde(SetPde(m, d, entry), d) == entry
    ensures SetTable(SetPde(m, d, entry), d, Zeros()) == AddTable(m, d, entry)
    ensures Accounts(AddTable(m, d, entry), s1, s2, owner[Frame(entry) := Table(d)])
    ensures forall e | 0 <= e < 1024 :: Pde(AddTable(m, d, entry), e) == if e == d then entry else Pde(m, e)
    ensures forall q | 0 <= q < PAGES :: Pte(AddTable(m, d, entry), q) == Pte(m, q)
    ensures forall q | 0 <= q < PAGES :: PageOf(AddTable(m, d, entry), q) == PageOf(m, q)
  {
    TableAdded(m, s1, s2, owner, d, entry);
    SetPdeWired(m, d, entry);
    hide Stacks, PageOf, Pte;
  }

  /** The table of slot d with its first i words cleared. */
  ghost function HalfZero(m: Mmu, d: int, i: int): seq<int>
    requires Wired(m) && 0 <= d < 1023 && Present(Pde(m, d)) && 0 <= i <= 1024
  {
    TableWindowShows(m, d, 0, 0);
    Zeros()[..i] + m.ram[Frame(Pde(m, d))][i..]
  }

  lemma ZeroedTo(m: Mmu, d: int, i: int)
    requires Wired(m) && 0 <= d < 1023 && Present(Pde(m, d)) && (i == 0 || i == 1024)
    ensures SetTable(m, d, HalfZero(m, d, i)) == if i == 0 then m else SetTable(m, d, Zeros())
  {
    TableWindowShows(m, d, 0, 0);
    assert HalfZero(m, d, 0) == m.ram[Frame(Pde(m, d))];
    assert HalfZero(m, d, 1024) == Zeros();
  }

  lemma ZeroStep(m: Mmu, d: int, i: int)
    requires Wired(m) && 0 <= d < 1023 && Present(Pde(m, d)) && 0 <= i < 1024
    ensures var r := SetTable(m, d, HalfZero(m, d, i)); var at := TableWindow(d, i);
      && Wired(r) && 0 <= at < 0x1_0000_0000 && Translate(r, at).Some?
      && Store(r, at, 0) == SetTable(m, d, HalfZero(m, d, i + 1)) && Wired(SetTable(m, d, HalfZero(m, d, i + 1)))
  {
    TableWindowShows(m, d, 0, 0);
    SetTableWired(m, d, HalfZero(m, d, i));
    SetTableWired(m, d, HalfZero(m, d, i + 1));
    hide Store, Translate;
    TableWindowShows(SetTable(m, d, HalfZero(m, d, i)), d, i, 0);
    assert HalfZero(m, d, i)[i := 0] == HalfZero(m, d, i + 1);
  }

  lemma ChangeDir(m: Mmu)
    requires FullRam(m)
    ensures FullRam(m.(dir := DIR_FRAME))
  {}
}
