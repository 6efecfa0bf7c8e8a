/** The whole of mem_init: from the frame stacks to the kernel heap behind memstack2. */
module KernelBoot {
  import opened BootTables
  import opened Bytes
  import opened FrameStack
  import Frames
  import opened HeapSpec
  import opened KernelHeap
  import Options
  import opened PageMapper
  import opened Paging

  /** Pages of the first heap: `lib/mem.c:256`. */
  const HEAP_PAGES := 300

  /** mem_init.  The heap it places is valid, lies over exactly the pages that are mapped, writable and for the
      kernel only, and has a single hole behind its index.  NULL stands for the panic: it means that fewer
      frames are left than 300 pages and their new page tables take.  `content` is what the fresh pages hold. */
  method MemInit(kmemEnd: nat, memTotal: nat, ram: map<int, seq<int>>, late: int, content: int -> Byte)
    returns (pager: Pager, heap: Heap?)
    requires MemoryFits(kmemEnd, memTotal) && FullRam(Mmu(ram, 0))
    requires IdentityPages(kmemEnd) + 1 + Tables(MappedPages(kmemEnd, memTotal)) <= 4096
    requires late == 3 || (late == 0
      && (MappedPages(kmemEnd, memTotal) - 1) / 1024 == (IdentityPages(kmemEnd) - 1) / 1024)
    ensures fresh(pager) && pager.Valid()
    ensures var n := MappedPages(kmemEnd, memTotal);
      heap == null <==> Frames1(kmemEnd) - 1 - Tables(n) + Frames2(memTotal) < 300 + Tables(n + 300) - Tables(n)
    ensures heap != null ==> fresh(heap) && heap.Valid() && heap.Over(pager)
    ensures heap != null ==> OneHole(heap.View(), Base1(kmemEnd) + 4096 * StackPages2(memTotal), 300)
    ensures heap != null ==> heap.rw && !heap.user
    ensures heap != null ==> var n := MappedPages(kmemEnd, memTotal);
      forall q | n <= q < n + 300 :: KernelPage(pager.mmu, q)
  {
    hide Pager.Valid, FullRam, PageOf, Built, MemoryFits, Tables, Heap.Valid, Heap.Over, FramesNeeded, KernelPage,
      Place, OneHole, Filled;
    hide IdentityPages, MappedPages, StackPages1, StackPages2, Base1, Base2, Frames1, Frames2, KernelPages, Pages2;
    StackSizes(kmemEnd, memTotal);
    var n := MappedPages(kmemEnd, memTotal);
    pager := new Pager.MemInit(kmemEnd, memTotal, ram, late);
    pager.Ram();
    BootUnmapped(pager.mmu, IdentityPages(kmemEnd), n, late);
    BootNeeds(pager.mmu, IdentityPages(kmemEnd), n, late, HEAP_PAGES);
    FramesLeft(pager, Base1(kmemEnd), Frames1(kmemEnd) - 1 - Tables(n), Base2(memTotal), Frames2(memTotal));
    heap := FirstHeap(pager, n, content);
  }

  lemma FramesLeft(pager: Pager, base1: int, n1: nat, base2: int, n2: nat)
    requires pager.Separate() && pager.stack1.Contents() == Filled(base1, n1)
      && pager.stack2.Contents() == Filled(base2, n2)
    ensures pager.Free() == n1 + n2
  {
    FilledHas(base1, n1);
    FilledHas(base2, n2);
  }

  /** mem_init, lines 256-264: the pages of the first heap, behind the n mapped so far, and the heap on them. */
  method FirstHeap(pager: Pager, n: nat, content: int -> Byte) returns (heap: Heap?)
    requires pager.Valid() && FullRam(pager.mmu) && 0 < n < 6000
    requires forall q | n <= q < LIMIT / 4096 :: PageOf(pager.mmu, q) == Options.None
    modifies pager`mmu, pager`owner, pager.stack1, pager.stack2
    ensures pager.Valid()
    ensures heap == null <==> old(pager.Free()) < FramesNeeded(old(pager.mmu), n, HEAP_PAGES)
    ensures heap != null ==> fresh(heap) && heap.Valid() && heap.Over(pager) && heap.rw && !heap.user
    ensures heap != null ==> OneHole(heap.View(), 4096 * n, HEAP_PAGES)
    ensures heap != null ==> forall q | n <= q < n + HEAP_PAGES :: KernelPage(pager.mmu, q)
  {
    hide Pager.Valid, FullRam, PageOf, Heap.Valid, MapPages, Backed, Place, FramesNeeded, RangeMapped, KernelPage,
      OneHole;
    assert 4096 * n / 4096 == n && 4096 * n % 4096 == 0;
    pager.Ram();
    ghost var mmu, owners := pager.mmu, pager.owner;
    var ok, done;
    ghost var lost;
    ok, done, lost := pager.PsallocAtV(4096 * n, true, false, HEAP_PAGES);
    pager.Ram();
    if !ok { return null; }
    var m := MapPages(map[], 4096 * n, 4096 * n + 4096 * HEAP_PAGES, content);
    BootBacked(mmu, pager.mmu, owners, n, HEAP_PAGES, content);
    PlaceWf(4096 * n, HEAP_PAGES);
    heap := Heap.HeapPlace(4096 * n, HEAP_PAGES, m, true, false);
    SameBacked(m, heap.mem, 4096 * n, heap.start, pager.mmu);
  }

  /** Page q is mapped, present, writable and not open to user code. */
  ghost predicate KernelPage(m: Mmu, q: int) {
    FullRam(m) && 0 <= q < LIMIT / 4096 && PageOf(m, q).Some? && Pte(m, q) == 4096 * PageOf(m, q).value + 3
  }

  /** Mapping k pages behind those of the boot tables takes a frame for each, and for each table begun. */
  lemma {:induction false} BootNeeds(m: Mmu, p: int, n: int, late: int, k: nat)
    requires Built(m, p, n, late) && 0 < p <= n <= 6000 && n + k <= 8000
    requires late == 3 || (late == 0 && (n - 1) / 1024 == (p - 1) / 1024)
    ensures FullRam(m) && FramesNeeded(m, n, k) == k + Tables(n + k) - Tables(n)
  {
    BootTable(m, p, n, late, 0);
    hide Built, FullRam, Pde, Present, Tables;
    if k > 0 {
      BootNeeds(m, p, n, late, k - 1);
      TablesNext(n, n + k - 1);
      BootTable(m, p, n, late, (n + k - 1) / 1024);
    }
  }

  lemma TablesNext(n: nat, x: nat)
    requires n <= x
    ensures Tables(x + 1) == Tables(x) + if x % 1024 == 0 then 1 else 0
    ensures 1024 * (x / 1024) >= n && (x == n || x % 1024 == 0) <==> x % 1024 == 0
  {}

  lemma BootTable(m: Mmu, p: int, n: int, late: int, d: int)
    requires Built(m, p, n, late) && 0 < p <= n <= 6000 && 0 <= d < 1023
    requires late == 3 || (late == 0 && (n - 1) / 1024 == (p - 1) / 1024)
    ensures FullRam(m) && (Present(Pde(m, d)) <==> 1024 * d < n)
  {
    hide Wired, FullRam;
    BuiltWired(m, p, n, late);
    EntryBits(4094 - d);
  }

  /** Fresh pages behind what was mapped at boot are all there is of the memory from there on. */
  lemma BootBacked(mmu0: Mmu, mmu1: Mmu, before: Frames.Owners, n: nat, pages: nat, content: int -> Byte)
    requires FullRam(mmu0) && FullRam(mmu1) && 4096 * (n + pages) <= LIMIT
    requires forall q | n <= q < LIMIT / 4096 :: PageOf(mmu0, q) == Options.None
    requires RangeMapped(mmu0, mmu1, before, n, pages, true, false)
    ensures var r := MapPages(map[], 4096 * n, 4096 * n + 4096 * pages, content);
      Mapped(r, 4096 * n, 4096 * pages) && Backed(r, 4096 * n, mmu1)
    ensures forall q | n <= q < n + pages :: KernelPage(mmu1, q)
  {
    hide PageOf, FullRam, Pte, Pde, DirectoryKept;
    forall q | n <= q < n + pages ensures KernelPage(mmu1, q) { assert NewPage(mmu1, q, before, true, false); }
    var r := MapPages(map[], 4096 * n, 4096 * n + 4096 * pages, content);
    forall x | 4096 * n <= x < LIMIT ensures x in r <==> PageOf(mmu1, x / 4096).Some? {
      var q := x / 4096;
      assert x < 4096 * n + 4096 * pages <==> q < n + pages;
      if q < n + pages {
        assert KernelPage(mmu1, q);
      } else {
        SameEntry(mmu0, mmu1, q);
      }
    }
  }

  lemma SameBacked(m: Memory, r: Memory, lo: int, start: int, mmu: Mmu)
    requires Backed(m, lo, mmu) && r.Keys == m.Keys && lo <= start
    ensures Backed(r, start, mmu)
  {
    hide PageOf, FullRam;
  }

  lemma BootUnmapped(m: Mmu, p: int, n: int, late: int)
    requires Built(m, p, n, late) && 0 < p <= n <= 6000 && (late == 0 || late == 3)
    ensures FullRam(m) && forall q | n <= q < LIMIT / 4096 :: PageOf(m, q) == Options.None
  {
    hide PageOf;
    forall q | n <= q < LIMIT / 4096 ensures PageOf(m, q) == Options.None { InitialMap(m, p, n, late, q); }
  }
}
