/** What heap_place, heap_extend, heap_alloc and heap_free do to the blocks of a heap and to its
    index of holes, as functions on values. */
module HeapSpec {
  import opened Tiling
  import opened SortedSeq

  /** sizeof(heap_t): two pointers, a 16-byte oarray_t, two one-byte bools, padding. */
  const HEAP_T := 28
  /** HEAP_INDEX_SIZE, counted in 4-byte entries, and MIN_HEAP_SIZE. */
  const INDEX_SIZE := 0x20000
  const MIN_HEAP_SIZE := 0x10000
  /** The last 4MB of the address space is the window on the page tables. */
  const LIMIT := 0xFFC0_0000

  /** `index` lists header addresses of holes by size; `seams` holds the addresses where an
      extension was appended. */
  datatype State = State(start: int, end: int, blocks: Blocks, index: seq<int>, cap: nat, seams: set<int>)

  /** Answers of psalloc_at_v: whether n pages could be mapped at an address. */
  type Grant = (int, int) -> bool

  /** heap_hdr_t_cmp_size compares by this key. */
  function SizeKey(blocks: Blocks): int -> int {
    x => if x in blocks then Size(blocks, x) else 0
  }

  ghost predicate Indexed(blocks: Blocks, index: seq<int>) {
    && Distinct(index)
    && Sorted(index, SizeKey(blocks))
    && (forall x | x in index :: x in blocks && blocks[x].hole)
  }

  /** The tiling, the index as a sorted duplicate-free list of holes, and the fixed alignment of both ends. */
  ghost predicate Core(h: State) {
    && Tiled(h.start, h.end, h.blocks)
    && 4096 <= h.start && h.start % 4096 == HEAP_T
    && h.end % 4096 == 0 && h.end <= LIMIT
    && Indexed(h.blocks, h.index) && |h.index| <= h.cap
  }

  /** Holes meet only where an extension was appended, except perhaps at u. */
  ghost predicate SeamedBut(h: State, u: int) {
    && (forall s | s in h.seams :: s % 4096 == 0 && h.start < s < h.end)
    && (forall e | HolesMeet(h.blocks, e) && e != u :: e in h.seams)
  }

  ghost predicate Seamed(h: State) {
    && (forall s | s in h.seams :: s % 4096 == 0 && h.start < s < h.end)
    && (forall e | HolesMeet(h.blocks, e) :: e in h.seams)
  }

  ghost predicate Wf(h: State) { Core(h) && Seamed(h) }

  /** No hole is missing from the index. */
  ghost predicate Exact(h: State) {
    forall a | a in h.blocks && h.blocks[a].hole :: a in h.index
  }

  /** The index has room for every block the region could hold. */
  predicate Roomy(h: State) { h.end - h.start <= 20 * h.cap }

  // ---------------------------------------------------------------- operations

  /** oarray_add of a hole, dropped when the index is full. */
  function AddHole(h: State, a: int): State {
    if |h.index| >= h.cap then h else h.(index := Insert(h.index, SizeKey(h.blocks), a))
  }

  /** heap_place, on the values it leaves behind; None when it refuses. */
  datatype Placed = Refused | Placed(heap: State)

  function Place(base: int, pages: nat): Placed {
    if base % 4096 != 0 then Refused
    else if 4096 * pages < HEAP_T + 4 * INDEX_SIZE + 4096 + MIN_HEAP_SIZE then Refused
    else
      var start, end := base + HEAP_T + 4 * INDEX_SIZE, base + 4096 * pages;
      Placed(State(start, end, map[start := Block(end, true)], [start], INDEX_SIZE, {}))
  }

  /** heap_extend: refused by the pager, or by a full index after the pages were taken. */
  function Extend(h: State, pages: nat, grant: Grant): (r: (State, bool)) {
    if !grant(h.end, pages) || h.end + 4096 * pages > LIMIT then (h, false)
    else if |h.index| >= h.cap then (h, false)
    else
      var blocks := h.blocks[h.end := Block(h.end + 4096 * pages, true)];
      (h.(end := h.end + 4096 * pages, blocks := blocks, seams := h.seams + {h.end},
          index := Insert(h.index, SizeKey(blocks), h.end)), true)
  }

  /** A page mapper that always gives the same answer, and one that does so at the first address only. */
  function Always(granted: bool): Grant { (a, n) => granted }

  function FirstThen(first: int, granted: bool, grant: Grant): Grant {
    (a, n) => if a == first then granted else grant(a, n)
  }

  /** Number of pages an extension asks for. */
  function PagesFor(bytes: nat): (n: nat)
    ensures 4096 * (n - 1) < bytes <= 4096 * n
  {
    bytes / 4096 + if bytes % 4096 != 0 then 1 else 0
  }

  /** Whether an aligned request moves the block's start; as in the source, the mask is nonzero
      for every address from 4096 up, aligned or not. */
  predicate MovesStart(a: int, align: bool) { align && a + HDR >= 4096 }

  /** First page boundary above the block's payload start. */
  function NextPage(a: int): int { (a + HDR + 4096) / 4096 * 4096 }

  predicate Fits(blocks: Blocks, a: int, size: nat, align: bool) {
    && a in blocks
    && Size(blocks, a) >= size + MIN_BLOCK
    && (MovesStart(a, align) ==> NextPage(a) + size + FTR < End(blocks, a))
  }

  /** P is a page boundary in the payload of block a with room for a request behind it, and to spare. */
  ghost predicate RoomAt(blocks: Blocks, a: int, size: nat, P: int) {
    a in blocks && P % 4096 == 0 && a + 12 < P && P + size + 8 < End(blocks, a)
  }

  /** Block a can serve a request, said without the steps heap_alloc takes to find out. */
  ghost predicate CanServe(blocks: Blocks, a: int, size: nat, align: bool) {
    a in blocks && if align then exists P :: RoomAt(blocks, a, size, P) else Size(blocks, a) >= size + 20
  }

  /** The tests of the loop find out exactly that, and the boundary they take is the first. */
  lemma FitsIff(blocks: Blocks, a: int, size: nat, align: bool)
    requires a >= 4096
    ensures Fits(blocks, a, size, align) <==> CanServe(blocks, a, size, align)
    ensures Fits(blocks, a, size, true) ==> RoomAt(blocks, a, size, NextPage(a))
    ensures forall P | RoomAt(blocks, a, size, P) :: NextPage(a) <= P
  {
    NextPageBounds(a);
    forall P | RoomAt(blocks, a, size, P) ensures NextPage(a) <= P && Fits(blocks, a, size, true) {
      assert P == 4096 * (P / 4096) && NextPage(a) == 4096 * (NextPage(a) / 4096);
    }
    if Fits(blocks, a, size, true) { assert RoomAt(blocks, a, size, NextPage(a)); }
  }

  /** size_hf of heap_alloc, and the test it makes on a block of n bytes. */
  function Wrapped(size: nat): int { (size + MIN_BLOCK) % 0x1_0000_0000 }

  predicate PassesTest(n: int, size: nat) { n >= Wrapped(size) }

  /** The sum size + 20 is taken in 32 bits.  The test then passes exactly the blocks that can hold the
      request if and only if the sum does not wrap; if it does, every block there is passes. */
  lemma FitTestIff(size: nat)
    requires size < 0x1_0000_0000
    ensures (forall n | MIN_BLOCK <= n < 0x1_0000_0000 :: PassesTest(n, size) <==> n >= size + MIN_BLOCK)
      <==> size + MIN_BLOCK < 0x1_0000_0000
    ensures size + MIN_BLOCK >= 0x1_0000_0000 ==> forall n | MIN_BLOCK <= n :: PassesTest(n, size)
  {
    assert PassesTest(MIN_BLOCK, size) || size + MIN_BLOCK < 0x1_0000_0000;
  }

  /** If it wraps, no block can hold the request, and yet heap_alloc takes the first in the index. */
  lemma WrappedNeverFits(h: State, size: nat, a: int)
    requires Core(h) && size < 0x1_0000_0000 <= size + MIN_BLOCK && a in h.blocks
    ensures PassesTest(Size(h.blocks, a), size) && Size(h.blocks, a) < size + MIN_BLOCK
      && !Fits(h.blocks, a, size, false)
  {}

  /** First index entry from i on whose hole fits, or the index size. */
  function Scan(h: State, size: nat, align: bool, i: nat): (r: nat)
    requires i <= |h.index|
    ensures i <= r <= |h.index|
    ensures r < |h.index| ==> Fits(h.blocks, h.index[r], size, align)
    ensures forall k | i <= k < r :: !Fits(h.blocks, h.index[k], size, align)
    decreases |h.index| - i
  {
    if i == |h.index| || Fits(h.blocks, h.index[i], size, align) then i else Scan(h, size, align, i + 1)
  }

  /** Header address that puts the payload on a page boundary, and how far it is from the block's own. */
  function AlignedHdr(a: int): int { NextPage(a) - HDR }

  function Gap(a: int): int { AlignedHdr(a) - a }

  /** Cut hole a at AlignedHdr(a).  A leading piece of at most 20 bytes is given to the previous
      block, or discarded if there is none; a larger one becomes a hole of its own. */
  ghost function PageBlocks(blocks: Blocks, a: int): (r: Blocks)
    requires a in blocks
    ensures AlignedHdr(a) in r
  {
    if Gap(a) > MIN_BLOCK then Split(blocks, a, AlignedHdr(a), true, true)
    else if p :| IsPrev(blocks, p, a) then
      Split(Merge(blocks, p, blocks[p].hole), p, AlignedHdr(a), blocks[p].hole, true)
    else (blocks - {a})[AlignedHdr(a) := Block(blocks[a].end, true)]
  }

  ghost function PageSplit(h: State, a: int): State
    requires a in h.blocks
  {
    var mid := h.(blocks := PageBlocks(h.blocks, a));
    if Gap(a) <= MIN_BLOCK then mid else AddHole(mid, a)
  }

  /** Hand out the front of hole u; what is left over becomes a hole if it exceeds 20 bytes. */
  function GiveBlocks(blocks: Blocks, u: int, size: nat): Blocks
    requires u in blocks
  {
    if Size(blocks, u) <= size + 2 * MIN_BLOCK then SetHole(blocks, u, false)
    else Split(blocks, u, u + size + MIN_BLOCK, false, true)
  }

  function GiveFront(h: State, u: int, size: nat): State
    requires u in h.blocks
  {
    var r := h.(blocks := GiveBlocks(h.blocks, u, size));
    if Size(h.blocks, u) <= size + 2 * MIN_BLOCK then r else AddHole(r, u + size + MIN_BLOCK)
  }

  /** Take index entry i out of the index and, for an aligned request, move its start: the state
      then, and the header address of the hole to hand out. */
  ghost function Choose(h: State, i: nat, align: bool): (State, int)
    requires i < |h.index| && h.index[i] in h.blocks
  {
    var a := h.index[i];
    var h1 := h.(index := RemoveAt(h.index, i));
    if MovesStart(a, align) then (PageSplit(h1, a), AlignedHdr(a)) else (h1, a)
  }

  /** Serve a request from index entry i; the second component is the pointer returned. */
  ghost function Carve(h: State, i: nat, size: nat, align: bool): (State, int)
    requires i < |h.index| && h.index[i] in h.blocks
  {
    var (mid, u) := Choose(h, i, align);
    (GiveFront(mid, u, size), u + HDR)
  }

  /** heap_alloc; pointer 0 is NULL.  Each extension adds an index entry, so the recursion ends. */
  ghost function Alloc(h: State, size: nat, align: bool, grant: Grant): (State, int)
    decreases h.cap - |h.index|
  {
    var i := Scan(h, size, align, 0);
    if i < |h.index| then Carve(h, i, size, align)
    else
      var e := Extend(h, PagesFor(size + MIN_BLOCK), grant);
      if !e.1 then (e.0, 0) else Alloc(e.0, size, align, grant)
  }

  predicate Live(h: State, ptr: int) { ptr - HDR in h.blocks && !h.blocks[ptr - HDR].hole }

  /** Mark block a free and join it to a hole in front of it; also the address it then has. */
  ghost function JoinBack(blocks: Blocks, a: int): (Blocks, int)
    requires a in blocks
  {
    if p :| IsPrev(blocks, p, a) && blocks[p].hole then (Merge(blocks, p, true), p)
    else (SetHole(blocks, a, true), a)
  }

  /** Join block b to a hole behind it. */
  function JoinForward(blocks: Blocks, b: int): Blocks
    requires b in blocks
  {
    var n := End(blocks, b);
    if n in blocks && blocks[n].hole then Merge(blocks, b, true) else blocks
  }

  /** First half of heap_free. */
  ghost function FreeBack(h: State, a: int): (State, int)
    requires a in h.blocks
  {
    var (blocks, b) := JoinBack(h.blocks, a);
    (h.(blocks := blocks, index := if b != a then Remove(h.index, b) else h.index), b)
  }

  /** Second half. */
  ghost function FreeForward(h: State, b: int): State
    requires b in h.blocks
  {
    var n := End(h.blocks, b);
    h.(blocks := JoinForward(h.blocks, b),
       index := if n in h.blocks && h.blocks[n].hole then Remove(h.index, n) else h.index)
  }

  /** heap_free of a live pointer. */
  ghost function Free(h: State, ptr: int): (State, bool)
    requires Live(h, ptr)
  {
    var (h1, b) := FreeBack(h, ptr - HDR);
    var h2 := FreeForward(h1, b);
    (AddHole(h2, b), |h2.index| < h2.cap)
  }

  // ---------------------------------------------------------------- what each step keeps

  lemma UnindexCore(h: State, i: nat)
    requires Core(h) && i < |h.index|
    ensures Core(h.(index := RemoveAt(h.index, i)))
    ensures Seamed(h) ==> Seamed(h.(index := RemoveAt(h.index, i)))
    ensures forall y :: y in RemoveAt(h.index, i) <==> y in h.index && y != h.index[i]
  {
    RemoveAtMembers(h.index, i);
    RemoveAtSorted(h.index, SizeKey(h.blocks), i);
  }

  lemma InsertIndexed(blocks: Blocks, index: seq<int>, a: int)
    requires Indexed(blocks, index) && a in blocks && blocks[a].hole && a !in index
    ensures Indexed(blocks, Insert(index, SizeKey(blocks), a))
  {
    hide Sorted, Distinct, SizeKey, Insert;
    InsertMembers(index, SizeKey(blocks), a);
    InsertSorted(index, SizeKey(blocks), a);
    InsertDistinct(index, SizeKey(blocks), a);
  }

  lemma AddHoleCore(h: State, a: int)
    requires Core(h) && a in h.blocks && h.blocks[a].hole && a !in h.index
    ensures Core(AddHole(h, a))
    ensures forall y | y in AddHole(h, a).index :: y in h.index || y == a
    ensures forall y | y in h.index :: y in AddHole(h, a).index
    ensures |h.index| < h.cap ==> a in AddHole(h, a).index && |AddHole(h, a).index| == |h.index| + 1
  {
    hide Tiled, Indexed, SizeKey, Insert;
    if |h.index| < h.cap {
      InsertMembers(h.index, SizeKey(h.blocks), a);
      InsertIndexed(h.blocks, h.index, a);
    }
  }

  /** An index stays sorted when the blocks it lists do not change. */
  lemma SameIndexed(b1: Blocks, b2: Blocks, index: seq<int>)
    requires Indexed(b1, index)
    requires forall x | x in index :: x in b2 && b2[x] == b1[x]
    ensures Indexed(b2, index)
  {}

  /** heap->start is 28 modulo 4096, so the first block's gap is 4056: the branch of heap_alloc
      that discards a sliver with no block in front of it never runs. */
  lemma SliverHasPrev(h: State, a: int)
    requires Core(h) && a in h.blocks && Gap(a) <= MIN_BLOCK
    ensures a >= h.start + MIN_BLOCK
    ensures exists p :: IsPrev(h.blocks, p, a)
  {
    assert a != h.start;
    var p := PrevExists(h.start, h.end, h.blocks, a);
  }

  /** Nor is the block in front of a sliver ever a hole: two holes meet at a multiple of 4096,
      where the gap is 4084. */
  lemma SliverPrevInUse(h: State, a: int, p: int)
    requires Wf(h) && a in h.blocks && h.blocks[a].hole && Gap(a) <= MIN_BLOCK
    requires IsPrev(h.blocks, p, a)
    ensures !h.blocks[p].hole
  {
    assert h.blocks[p].hole ==> HolesMeet(h.blocks, a);
    assert a % 4096 == 0 ==> Gap(a) == 4096 - HDR;
  }

  ghost predicate ExactBut(h: State, u: int) {
    forall a | a in h.blocks && h.blocks[a].hole && a != u :: a in h.index
  }

  /** Blocks in use stay in use at their address, and never shrink. */
  ghost predicate InUseKept(b1: Blocks, b2: Blocks) {
    forall x | x in b1 && !b1[x].hole :: x in b2 && !b2[x].hole && b2[x].end >= b1[x].end
  }

  function InUse(blocks: Blocks): set<int> { set x | x in blocks && !blocks[x].hole }

  ghost predicate SameFrame(h: State, r: State) {
    r.start == h.start && r.end == h.end && r.cap == h.cap && r.seams == h.seams
  }

  lemma {:induction false} DistinctCount(s: seq<int>, all: set<int>)
    requires Distinct(s) && forall x | x in s :: x in all
    ensures |s| <= |all|
  {
    if s != [] {
      assert s[0] in s;
      assert forall x | x in s[1..] :: x in s;
      DistinctCount(s[1..], all - {s[0]});
    }
  }

  /** A roomy index can take any hole it does not list yet. */
  lemma RoomToAdd(h: State, a: int)
    requires Core(h) && Roomy(h) && a in h.blocks && a !in h.index
    ensures |h.index| < h.cap
  {
    BlockCount(h.start, h.end, h.blocks);
    assert |h.blocks.Keys - {a}| == |h.blocks| - 1;
    DistinctCount(h.index, h.blocks.Keys - {a});
  }

  /** Cutting an unindexed hole keeps the index, and makes holes meet at most at the cut. */
  lemma SplitKeeps(h: State, a: int, c: int, first: bool)
    requires Core(h) && a in h.blocks && h.blocks[a].hole && a !in h.index
    requires a + MIN_BLOCK <= c <= End(h.blocks, a) - MIN_BLOCK
    ensures var r := h.(blocks := Split(h.blocks, a, c, first, true));
      Core(r) && c !in h.index && c !in h.blocks && InUseKept(h.blocks, r.blocks)
    ensures first && Seamed(h) ==> SeamedBut(h.(blocks := Split(h.blocks, a, c, first, true)), c)
    ensures !first && SeamedBut(h, a) ==> Seamed(h.(blocks := Split(h.blocks, a, c, first, true)))
  {
    hide Tiled, Sorted, Distinct, SizeKey, HolesMeet;
    SplitTiled(h.start, h.end, h.blocks, a, c, first, true);
    SameIndexed(h.blocks, Split(h.blocks, a, c, first, true), h.index);
    forall e | HolesMeet(Split(h.blocks, a, c, first, true), e)
      ensures (e == c && first) || HolesMeet(h.blocks, e)
      ensures !first ==> e != a
    {
      SplitMeets(h.start, h.end, h.blocks, a, c, first, e);
    }
  }

  /** What PageSplit leaves at the aligned header u. */
  ghost predicate Ready(h: State, r: State, u: int, end: int) {
    && Core(r) && SeamedBut(r, u) && SameFrame(h, r) && InUseKept(h.blocks, r.blocks)
    && u in r.blocks && r.blocks[u] == Block(end, true) && u !in r.index
    && InUse(r.blocks) == InUse(h.blocks)
  }

  lemma PageSplitKeeps(h: State, a: int)
    requires Wf(h) && a in h.blocks && h.blocks[a].hole && a !in h.index
    requires AlignedHdr(a) + MIN_BLOCK <= End(h.blocks, a)
    ensures Ready(h, PageSplit(h, a), AlignedHdr(a), End(h.blocks, a))
    ensures ExactBut(h, a) && Roomy(h) ==> ExactBut(PageSplit(h, a), AlignedHdr(a))
  {
    if Gap(a) <= MIN_BLOCK { SliverKeeps(h, a); } else { LeadingHoleKeeps(h, a); }
  }

  lemma SliverKeeps(h: State, a: int)
    requires Wf(h) && a in h.blocks && h.blocks[a].hole && a !in h.index
    requires AlignedHdr(a) + MIN_BLOCK <= End(h.blocks, a) && Gap(a) <= MIN_BLOCK
    ensures Ready(h, PageSplit(h, a), AlignedHdr(a), End(h.blocks, a))
    ensures ExactBut(h, a) ==> ExactBut(PageSplit(h, a), AlignedHdr(a))
  {
    hide Tiled, Sorted, Distinct, SizeKey, HolesMeet;
    SliverHasPrev(h, a);
    var p :| IsPrev(h.blocks, p, a);
    SliverPrevInUse(h, a, p);
    assert forall q | IsPrev(h.blocks, q, a) :: q == p by { PrevUnique(h.start, h.end, h.blocks, p, a); }
    ShiftBoundary(h.start, h.end, h.blocks, p, a, AlignedHdr(a));
    var r := PageSplit(h, a);
    SameIndexed(h.blocks, r.blocks, h.index);
    forall e | HolesMeet(r.blocks, e) ensures HolesMeet(h.blocks, e) {
      ShiftMeets(h.start, h.end, h.blocks, p, a, AlignedHdr(a), e);
    }
  }

  lemma LeadingHoleKeeps(h: State, a: int)
    requires Wf(h) && a in h.blocks && h.blocks[a].hole && a !in h.index
    requires AlignedHdr(a) + MIN_BLOCK <= End(h.blocks, a) && Gap(a) > MIN_BLOCK
    ensures Ready(h, PageSplit(h, a), AlignedHdr(a), End(h.blocks, a))
    ensures ExactBut(h, a) && Roomy(h) ==> ExactBut(PageSplit(h, a), AlignedHdr(a))
  {
    hide Tiled, Sorted, Distinct, SizeKey, HolesMeet;
    var mid := h.(blocks := Split(h.blocks, a, AlignedHdr(a), true, true));
    SplitKeeps(h, a, AlignedHdr(a), true);
    AddHoleCore(mid, a);
    if Roomy(h) { RoomToAdd(mid, a); }
  }

  lemma NextPageBounds(a: int)
    ensures NextPage(a) % 4096 == 0 && a + HDR < NextPage(a) <= a + HDR + 4096
  {}

  lemma ListedHole(h: State, i: nat)
    requires Core(h) && i < |h.index|
    ensures var a := h.index[i]; 4096 <= a && a in h.blocks && h.blocks[a].hole
  {
    assert h.index[i] in h.index;
  }

  lemma ChooseReady(h: State, i: nat, size: nat, align: bool)
    requires Wf(h) && i < |h.index| && Fits(h.blocks, h.index[i], size, align)
    ensures var (mid, u) := Choose(h, i, align);
      && u in mid.blocks && size + MIN_BLOCK <= Size(mid.blocks, u)
      && Ready(h, mid, u, End(mid.blocks, u))
      && (Exact(h) && Roomy(h) ==> ExactBut(mid, u))
      && 0 < u && u !in InUse(h.blocks)
      && (align ==> (u + HDR) % 4096 == 0)
  {
    hide Core, Seamed, SeamedBut, NextPage, RemoveAt, PageSplit, Exact, ExactBut, AlignedHdr;
    var a := h.index[i];
    ListedHole(h, i);
    if align {
      AlignedReady(h, i, a, size);
    } else {
      InPlaceReady(h, i, a);
    }
  }

  lemma InPlaceReady(h: State, i: nat, a: int)
    requires Wf(h) && i < |h.index| && h.index[i] == a
    ensures var mid := h.(index := RemoveAt(h.index, i));
      Ready(h, mid, a, End(h.blocks, a)) && (Exact(h) ==> ExactBut(mid, a))
  {
    hide Tiled, Sorted, Distinct, HolesMeet, SizeKey, RemoveAt;
    UnindexCore(h, i);
  }

  lemma AlignedRoom(blocks: Blocks, a: int, size: nat)
    requires Fits(blocks, a, size, true) && 4096 <= a
    ensures AlignedHdr(a) + size + MIN_BLOCK <= End(blocks, a)
    ensures a < AlignedHdr(a) && (AlignedHdr(a) + HDR) % 4096 == 0
  {}

  lemma AlignedReady(h: State, i: nat, a: int, size: nat)
    requires Wf(h) && i < |h.index| && h.index[i] == a && Fits(h.blocks, a, size, true)
    ensures var mid := h.(index := RemoveAt(h.index, i)); var u := AlignedHdr(a);
      && AlignedHdr(a) + size + MIN_BLOCK <= End(h.blocks, a)
      && Ready(h, PageSplit(mid, a), u, End(h.blocks, a))
      && (Exact(h) && Roomy(h) ==> ExactBut(PageSplit(mid, a), u))
      && a < u && u !in InUse(h.blocks) && (u + HDR) % 4096 == 0
  {
    hide NextPage, RemoveAt, PageSplit, HolesMeet, Sorted, Distinct, SizeKey;
    var mid := h.(index := RemoveAt(h.index, i));
    assert 4096 <= a && h.blocks[a].hole;
    AlignedRoom(h.blocks, a, size);
    hide Fits, Tiled, AlignedHdr;
    UnindexCore(h, i);
    assert Seamed(mid);
    hide Core, Seamed, SeamedBut;
    PageSplitKeeps(mid, a);
  }

  lemma GiveFrontKeeps(h: State, u: int, size: nat)
    requires Core(h) && SeamedBut(h, u) && u in h.blocks && h.blocks[u].hole && u !in h.index
    requires size + MIN_BLOCK <= Size(h.blocks, u)
    ensures var r := GiveFront(h, u, size);
      && Wf(r) && SameFrame(h, r) && InUseKept(h.blocks, r.blocks)
      && u in r.blocks && !r.blocks[u].hole && size + MIN_BLOCK <= Size(r.blocks, u) <= size + 2 * MIN_BLOCK
    ensures InUse(GiveFront(h, u, size).blocks) == InUse(h.blocks) + {u}
    ensures var r := GiveFront(h, u, size);
      if Size(h.blocks, u) <= size + 40 then End(r.blocks, u) == End(h.blocks, u)
      else var t := u + size + 20;
        End(r.blocks, u) == t && t in r.blocks && r.blocks[t] == Block(End(h.blocks, u), true)
    ensures ExactBut(h, u) && Roomy(h) ==> Exact(GiveFront(h, u, size))
  {
    hide Tiled, Sorted, Distinct, SizeKey, HolesMeet;
    if Size(h.blocks, u) <= size + 2 * MIN_BLOCK {
      WholeKeeps(h, u);
    } else {
      var t := u + size + MIN_BLOCK;
      var mid := h.(blocks := Split(h.blocks, u, t, false, true));
      SplitKeeps(h, u, t, false);
      AddHoleCore(mid, t);
      if Roomy(h) { RoomToAdd(mid, t); }
    }
  }

  lemma WholeKeeps(h: State, u: int)
    requires Core(h) && SeamedBut(h, u) && u in h.blocks && h.blocks[u].hole && u !in h.index
    ensures Wf(h.(blocks := SetHole(h.blocks, u, false)))
  {
    hide Sorted, Distinct, SizeKey;
    SetHoleTiled(h.start, h.end, h.blocks, u, false);
    SameIndexed(h.blocks, SetHole(h.blocks, u, false), h.index);
    forall e | HolesMeet(SetHole(h.blocks, u, false), e) ensures HolesMeet(h.blocks, e) && e != u {
      SetHoleMeets(h.start, h.end, h.blocks, u, false, e);
    }
  }

  lemma ExtendKeeps(h: State, pages: nat, grant: Grant)
    requires Wf(h) && pages > 0
    ensures var (r, ok) := Extend(h, pages, grant);
      && Wf(r) && r.cap == h.cap && r.start == h.start
      && (ok <==> grant(h.end, pages) && h.end + 4096 * pages <= 0xFFC0_0000 && |h.index| < h.cap)
      && (!ok ==> r == h)
      && (ok ==> |r.index| == |h.index| + 1 && r.end == h.end + 4096 * pages && r.seams == h.seams + {h.end}
                 && h.end !in h.blocks && r.blocks == h.blocks[h.end := Block(h.end + 4096 * pages, true)]
                 && (forall y :: y in r.index <==> y in h.index || y == h.end))
    ensures Exact(h) ==> Exact(Extend(h, pages, grant).0)
  {
    hide Tiled, Sorted, Distinct, SizeKey, Insert, HolesMeet;
    var (r, ok) := Extend(h, pages, grant);
    if ok {
      AppendTiled(h.start, h.end, h.blocks, r.end, true);
      SameIndexed(h.blocks, r.blocks, h.index);
      InsertMembers(h.index, SizeKey(r.blocks), h.end);
      InsertIndexed(r.blocks, h.index, h.end);
      forall e | HolesMeet(r.blocks, e) ensures HolesMeet(h.blocks, e) || e == h.end {
        AppendMeets(h.start, h.end, h.blocks, r.end, e);
      }
    }
  }

  /** What FreeBack and FreeForward leave: block b free but not listed, the blocks in use others than a as they were. */
  ghost predicate Freed(h: State, r: State, a: int, b: int) {
    && Core(r) && SameFrame(h, r)
    && b in r.blocks && r.blocks[b].hole && b !in r.index
    && InUse(r.blocks) == InUse(h.blocks) - {a}
    && (forall x | x in h.blocks && !h.blocks[x].hole && x != a :: x in r.blocks && r.blocks[x] == h.blocks[x])
  }

  lemma FreeBackKeeps(h: State, a: int)
    requires Wf(h) && a in h.blocks && !h.blocks[a].hole
    ensures var (r, b) := FreeBack(h, a);
      Freed(h, r, a, b) && SeamedBut(r, End(r.blocks, b)) && (Exact(h) ==> ExactBut(r, b))
  {
    hide Tiled, Indexed, HolesMeet, Remove, Freed, SeamedBut, Exact, ExactBut;
    if p :| IsPrev(h.blocks, p, a) && h.blocks[p].hole {
      FreeBackMerge(h, p, a);
      PrevUnique(h.start, h.end, h.blocks, p, a);
    } else {
      FreeBackAlone(h, a);
    }
  }

  lemma FreeBackMerge(h: State, p: int, a: int)
    requires Wf(h) && a in h.blocks && !h.blocks[a].hole && IsPrev(h.blocks, p, a) && h.blocks[p].hole
    ensures var r := h.(blocks := Merge(h.blocks, p, true), index := Remove(h.index, p));
      Freed(h, r, a, p) && SeamedBut(r, End(r.blocks, p)) && (Exact(h) ==> ExactBut(r, p))
  {
    hide Tiled, Sorted, Distinct, SizeKey, Remove, HolesMeet;
    PrevBefore(h.start, h.end, h.blocks, p, a);
    MergeTiled(h.start, h.end, h.blocks, p, true);
    RemoveIndexed(h.blocks, h.index, p);
    SameIndexed(h.blocks, Merge(h.blocks, p, true), Remove(h.index, p));
    forall e | HolesMeet(Merge(h.blocks, p, true), e) && e != End(h.blocks, a) ensures HolesMeet(h.blocks, e) {
      MergeMeets(h.start, h.end, h.blocks, p, true, e);
    }
  }

  lemma FreeBackAlone(h: State, a: int)
    requires Wf(h) && a in h.blocks && !h.blocks[a].hole
    requires !exists p :: IsPrev(h.blocks, p, a) && h.blocks[p].hole
    ensures var r := h.(blocks := SetHole(h.blocks, a, true));
      Freed(h, r, a, a) && SeamedBut(r, End(r.blocks, a)) && (Exact(h) ==> ExactBut(r, a))
  {
    hide Tiled, Sorted, Distinct, SizeKey, HolesMeet;
    SetHoleTiled(h.start, h.end, h.blocks, a, true);
    SameIndexed(h.blocks, SetHole(h.blocks, a, true), h.index);
    forall e | HolesMeet(SetHole(h.blocks, a, true), e) && e != End(h.blocks, a) ensures HolesMeet(h.blocks, e) {
      SetHoleMeets(h.start, h.end, h.blocks, a, true, e);
    }
  }

  lemma RemoveIndexed(blocks: Blocks, index: seq<int>, x: int)
    requires Indexed(blocks, index)
    ensures Indexed(blocks, Remove(index, x)) && |Remove(index, x)| <= |index|
    ensures forall y :: y in Remove(index, x) <==> y in index && y != x
  {
    RemoveKeeps(index, SizeKey(blocks), x);
  }

  lemma FreeForwardKeeps(h: State, b: int)
    requires Core(h) && b in h.blocks && h.blocks[b].hole && b !in h.index && SeamedBut(h, End(h.blocks, b))
    ensures var r := FreeForward(h, b);
      && Wf(r) && SameFrame(h, r) && b in r.blocks && r.blocks[b].hole && b !in r.index
      && InUse(r.blocks) == InUse(h.blocks)
      && (forall x | x in h.blocks && !h.blocks[x].hole :: x in r.blocks && r.blocks[x] == h.blocks[x])
      && (ExactBut(h, b) ==> ExactBut(r, b))
  {
    hide Tiled, Sorted, Distinct, SizeKey, Remove, HolesMeet;
    var n := End(h.blocks, b);
    if n in h.blocks && h.blocks[n].hole {
      PrevBefore(h.start, h.end, h.blocks, b, n);
      MergeTiled(h.start, h.end, h.blocks, b, true);
      RemoveIndexed(h.blocks, h.index, n);
      SameIndexed(h.blocks, Merge(h.blocks, b, true), Remove(h.index, n));
      forall e | HolesMeet(Merge(h.blocks, b, true), e) ensures HolesMeet(h.blocks, e) && e != n {
        MergeMeets(h.start, h.end, h.blocks, b, true, e);
      }
    } else if HolesMeet(h.blocks, n) {
      MeetAtHole(h.blocks, n);
    }
  }

  lemma MeetAtHole(blocks: Blocks, e: int)
    requires HolesMeet(blocks, e)
    ensures e in blocks && blocks[e].hole
  {}

  lemma FreeKeeps(h: State, ptr: int)
    requires Wf(h) && Live(h, ptr)
    ensures var (r, ok) := Free(h, ptr);
      && Wf(r) && SameFrame(h, r)
      && InUse(r.blocks) == InUse(h.blocks) - {ptr - HDR}
      && (forall x | x in InUse(r.blocks) :: r.blocks[x] == h.blocks[x])
      && (Roomy(h) ==> ok) && (Exact(h) && Roomy(h) ==> Exact(r))
  {
    hide Tiled, Sorted, Distinct, SizeKey, HolesMeet;
    FreeBackKeeps(h, ptr - HDR);
    var (h1, b) := FreeBack(h, ptr - HDR);
    FreeForwardKeeps(h1, b);
    var h2 := FreeForward(h1, b);
    AddHoleCore(h2, b);
    if Roomy(h) { RoomToAdd(h2, b); }
  }

  /** A heap whose index array of 0x20000 4-byte entries lies behind a heap_t of 28 bytes at `base`, and whose
      single hole takes up the rest of its pages. */
  ghost predicate OneHole(h: State, base: int, pages: nat) {
    && h.cap == 0x2_0000 && h.start == base + 28 + 4 * h.cap && h.end == base + 4096 * pages
    && h.blocks == map[h.start := Block(h.end, true)] && h.index == [h.start] && h.seams == {}
  }

  /** heap_place refuses an unaligned start and too few pages.  It leaves a well-formed heap with an exact
      index and a single hole, from just behind the 28 bytes of heap_t and the index array to the end. */
  lemma PlaceWf(base: int, pages: nat)
    requires 0 <= base && base + 4096 * pages <= LIMIT
    ensures Place(base, pages).Placed? <==>
      base % 4096 == 0 && 4096 * pages >= 28 + 4 * 0x2_0000 + 4096 + 0x1_0000
    ensures Place(base, pages).Placed? ==> Wf(Place(base, pages).heap) && Exact(Place(base, pages).heap)
    ensures Place(base, pages).Placed? ==> OneHole(Place(base, pages).heap, base, pages)
  {
    if Place(base, pages).Placed? {
      var h := Place(base, pages).heap;
      assert h.start % 4096 == HEAP_T;
      assert End(h.blocks, h.start) == h.end;
    }
  }
}
