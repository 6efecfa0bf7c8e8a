/** The heap of lib/heap.c in memory: headers and footers as bytes, the index as an array. */
module KernelHeap {
  import opened Bytes
  import opened Tiling
  import opened Tags
  import opened SortedSeq
  import opened OrderedArray
  import opened HeapSpec
  import opened HeapTheorems
  import Frames
  import Options
  import PageMapper
  import Paging

  ghost predicate AllTagged(m: Memory, blocks: Blocks) {
    forall a | a in blocks :: Tagged(m, a, blocks[a])
  }

  /** The bytes a caller may use: between header and footer of a block in use. */
  ghost predicate PayloadsKept(m: Memory, r: Memory, blocks: Blocks) {
    forall a | a in blocks && !blocks[a].hole :: SameOn(m, r, a + HDR, blocks[a].end - FTR)
  }

  lemma PayloadsTrans(m0: Memory, m1: Memory, m2: Memory, b0: Blocks, b1: Blocks)
    requires PayloadsKept(m0, m1, b0) && PayloadsKept(m1, m2, b1) && InUseKept(b0, b1)
    ensures PayloadsKept(m0, m2, b0)
  {}

  /** Stores inside block a leave the tags and payloads of all other blocks as they were. */
  lemma Retag(start: int, end: int, m: Memory, r: Memory, b1: Blocks, b2: Blocks, a: int)
    requires Tiled(start, end, b1) && AllTagged(m, b1) && a in b1 && SameOutside(m, r, a, b1[a].end)
    requires forall x | x in b2 :: Tagged(r, x, b2[x]) || (x in b1 && b2[x] == b1[x] && x != a)
    ensures AllTagged(r, b2) && PayloadsKept(m, r, b1 - {a}) && r.Keys == m.Keys
  {
    hide Tiled, Tagged, SameOn, SameOutside;
    SameKeys(m, r, a, b1[a].end);
    forall x | x in b1 && x != a ensures Tagged(r, x, b1[x]) && SameOn(m, r, x + HDR, b1[x].end - FTR) {
      Apart(start, end, b1, a, x);
      TagElsewhere(m, r, a, b1[a].end, x, b1[x]);
    }
  }

  lemma SameKeys(m: Memory, r: Memory, lo: int, hi: int)
    requires SameOutside(m, r, lo, hi)
    ensures r.Keys == m.Keys
  {}

  /** Stores that stay clear of a block leave all of it as it was. */
  lemma TagElsewhere(m: Memory, r: Memory, lo: int, hi: int, x: int, b: Block)
    requires Tagged(m, x, b) && SameOutside(m, r, lo, hi) && (b.end <= lo || hi <= x)
    ensures Tagged(r, x, b) && SameOn(m, r, x + HDR, b.end - FTR)
  {
    SameTags(m, r, x, b);
  }

  lemma SameTags(m: Memory, r: Memory, a: int, b: Block)
    requires Tagged(m, a, b) && SameOn(m, r, a, b.end)
    ensures Tagged(r, a, b)
  {}

  /** The comparison key, read through the header pointer. */
  function MemKey(m: Memory): int -> int {
    x => if Mapped(m, x + 4, 4) then Get32(m, x + 4) else 0
  }

  lemma KeysAgree(m: Memory, blocks: Blocks, index: seq<int>, a: int)
    requires AllTagged(m, blocks) && a in blocks && forall x | x in index :: x in blocks
    ensures Insert(index, MemKey(m), a) == Insert(index, SizeKey(blocks), a)
  {
    hide Tagged, MemKey, Insert;
    KeyIsSize(m, a, blocks[a]);
    forall i | 0 <= i < |index| ensures MemKey(m)(index[i]) == SizeKey(blocks)(index[i]) {
      KeyIsSize(m, index[i], blocks[index[i]]);
    }
    InsertSameKeys(index, MemKey(m), SizeKey(blocks), a);
  }

  lemma KeyIsSize(m: Memory, a: int, b: Block)
    requires Tagged(m, a, b)
    ensures MemKey(m)(a) == b.end - a
  {
    assert Mapped(m, a + 4, 4);
  }

  /** The size field of the header a pointer reaches. */
  function SizeField(m: Memory, a: int): Word
    requires Mapped(m, a, 12)
  {
    Get32(m, a + 4)
  }

  /** What loads through the header and footer pointers of a block give. */
  lemma Loads(h: State, m: Memory, a: int)
    requires Core(h) && AllTagged(m, h.blocks) && a in h.blocks
    ensures 4096 <= h.start <= a && a + MIN_BLOCK <= h.blocks[a].end <= h.end <= LIMIT
    ensures Mapped(m, a, 12) && SizeField(m, a) == Size(h.blocks, a) && m[a] == (if h.blocks[a].hole then 1 else 0)
    ensures Mapped(m, h.blocks[a].end - FTR, 8)
    ensures Get32(m, a + 8) == HDR_MAGIC && Get32(m, h.blocks[a].end - FTR) == a
      && Get32(m, h.blocks[a].end - 4) == FTR_MAGIC
  {
    hide Indexed;
    assert Tagged(m, a, h.blocks[a]);
  }

  lemma SamePayloads(m: Memory, blocks: Blocks)
    requires AllTagged(m, blocks)
    ensures PayloadsKept(m, m, blocks)
  {}

  lemma BlockBounds(h: State, a: int)
    requires Core(h) && a in h.blocks
    ensures 0 <= a && a + MIN_BLOCK <= h.blocks[a].end < 0x1_0000_0000
  {}

  lemma WholeTags(h: State, m: Memory, a: int)
    requires Core(h) && AllTagged(m, h.blocks) && a in h.blocks && h.blocks[a].hole
    ensures Mapped(m, a, 12)
    ensures var r := SetHoleField(m, a, false);
      AllTagged(r, SetHole(h.blocks, a, false)) && PayloadsKept(m, r, h.blocks) && r.Keys == m.Keys
  {
    hide Tiled, Indexed, HdrAt, FtrAt, SetHoleField;
    BlockBounds(h, a);
    assert Tagged(m, a, h.blocks[a]) && Mapped(m, a, 12);
    Retag(h.start, h.end, m, SetHoleField(m, a, false), h.blocks, SetHole(h.blocks, a, false), a);
    assert forall x | x in h.blocks && !h.blocks[x].hole :: x in h.blocks - {a};
  }

  lemma FrontTags(h: State, m: Memory, a: int, c: int, e: int)
    requires Core(h) && AllTagged(m, h.blocks) && a in h.blocks && h.blocks[a] == Block(e, true)
    requires a + MIN_BLOCK <= c <= e - MIN_BLOCK
    ensures 0 <= a && e < 0x1_0000_0000 && Tagged(m, a, Block(e, true))
    ensures var r := CutFront(m, a, c, e);
      AllTagged(r, Split(h.blocks, a, c, false, true)) && PayloadsKept(m, r, h.blocks) && r.Keys == m.Keys
  {
    hide Tiled, Indexed, Tagged, SameOutside, CutFront;
    BlockBounds(h, a);
    CutFrontTags(m, a, c, e);
    Retag(h.start, h.end, m, CutFront(m, a, c, e), h.blocks, Split(h.blocks, a, c, false, true), a);
    assert forall x | x in h.blocks && !h.blocks[x].hole :: x in h.blocks - {a};
  }

  lemma BackTags(h: State, m: Memory, a: int, c: int, e: int)
    requires Core(h) && AllTagged(m, h.blocks) && a in h.blocks && h.blocks[a] == Block(e, true)
    requires a + MIN_BLOCK <= c <= e - MIN_BLOCK
    ensures 0 <= a && e < 0x1_0000_0000 && Tagged(m, a, Block(e, true))
    ensures var r := CutBack(m, a, c, e);
      AllTagged(r, Split(h.blocks, a, c, true, true)) && PayloadsKept(m, r, h.blocks) && r.Keys == m.Keys
  {
    hide Tiled, Indexed, Tagged, SameOutside, CutBack;
    BlockBounds(h, a);
    CutBackTags(m, a, c, e);
    Retag(h.start, h.end, m, CutBack(m, a, c, e), h.blocks, Split(h.blocks, a, c, true, true), a);
    assert forall x | x in h.blocks && !h.blocks[x].hole :: x in h.blocks - {a};
  }

  lemma SliverTags(h: State, m: Memory, p: int, a: int, c: int, e: int)
    requires Core(h) && AllTagged(m, h.blocks)
    requires IsPrev(h.blocks, p, a) && !h.blocks[p].hole && a in h.blocks && h.blocks[a] == Block(e, true)
      && a < c <= e - MIN_BLOCK
    ensures 0 <= p && p + MIN_BLOCK <= a && e < 0x1_0000_0000
    ensures Tagged(m, p, Block(a, false)) && Tagged(m, a, Block(e, true))
    ensures var r := Absorb(m, p, a, c, e, false);
      && AllTagged(r, Split(Merge(h.blocks, p, false), p, c, false, true))
      && PayloadsKept(m, r, h.blocks) && r.Keys == m.Keys
  {
    hide Tiled, Indexed, Tagged, Absorb, SameOutside;
    PairBounds(h, p, a);
    assert Tagged(m, p, h.blocks[p]) && Tagged(m, a, h.blocks[a]);
    AbsorbTags(m, p, a, c, e, false);
    var r := Absorb(m, p, a, c, e, false);
    ShiftBoundary(h.start, h.end, h.blocks, p, a, c);
    ClearOfPair(h, m, r, p, a);
  }

  lemma PairBounds(h: State, p: int, a: int)
    requires Core(h) && IsPrev(h.blocks, p, a) && a in h.blocks
    ensures 0 <= p && p + MIN_BLOCK <= a < h.blocks[a].end < 0x1_0000_0000
  {}

  /** Stores inside two neighbouring blocks leave all others as they were. */
  lemma ClearOfPair(h: State, m: Memory, r: Memory, p: int, a: int)
    requires Core(h) && AllTagged(m, h.blocks) && IsPrev(h.blocks, p, a) && a in h.blocks
    requires SameOutside(m, r, p, h.blocks[a].end)
    ensures r.Keys == m.Keys
    ensures forall x | x in h.blocks && x != p && x != a ::
      Tagged(r, x, h.blocks[x]) && SameOn(m, r, x + HDR, h.blocks[x].end - FTR)
  {
    hide Tiled, Indexed, Tagged, SameOn, SameOutside;
    SameKeys(m, r, p, h.blocks[a].end);
    forall x | x in h.blocks && x != p && x != a
      ensures Tagged(r, x, h.blocks[x]) && SameOn(m, r, x + HDR, h.blocks[x].end - FTR)
    {
      Apart(h.start, h.end, h.blocks, p, x);
      Apart(h.start, h.end, h.blocks, a, x);
      PairBounds(h, p, a);
      TagElsewhere(m, r, p, h.blocks[a].end, x, h.blocks[x]);
    }
  }

  /** psalloc_at_v: the addresses of [lo, hi) become backed, by pages with some content. */
  function MapPages(m: Memory, lo: int, hi: int, content: int -> Byte): Memory {
    m + map x | lo <= x < hi && x !in m :: content(x)
  }

  /** Memory and mapping agree from lo on, below the window on the page tables. */
  ghost predicate Backed(m: Memory, lo: int, mmu: Paging.Mmu) {
    Paging.FullRam(mmu) && 0 <= lo && forall x | lo <= x < LIMIT :: x in m <==> Paging.PageOf(mmu, x / 4096).Some?
  }

  lemma EndAligned(h: State)
    requires Core(h)
    ensures 4096 <= h.start < h.end <= LIMIT && h.end % 4096 == 0
  {}

  /** Fresh pages behind the heap change neither tags nor payloads. */
  lemma MapKeeps(h: State, m: Memory, to: int, content: int -> Byte)
    requires Core(h) && AllTagged(m, h.blocks)
    ensures var r := MapPages(m, h.end, to, content); AllTagged(r, h.blocks) && PayloadsKept(m, r, h.blocks)
  {
    hide Tiled, Indexed, Tagged;
    var r := MapPages(m, h.end, to, content);
    forall x | x in h.blocks ensures Tagged(r, x, h.blocks[x]) && SameOn(m, r, x + HDR, h.blocks[x].end - FTR) {
      MapTags(m, h.end, to, content, x, h.blocks[x]);
    }
  }

  lemma MapTags(m: Memory, lo: int, hi: int, content: int -> Byte, x: int, b: Block)
    requires Tagged(m, x, b)
    ensures Tagged(MapPages(m, lo, hi, content), x, b) && SameOn(m, MapPages(m, lo, hi, content), x + HDR, b.end - FTR)
  {
    SameTags(m, MapPages(m, lo, hi, content), x, b);
  }

  /** `pages` pages from address `end` on have been mapped, with a heap's flags, and nothing else has. */
  ghost predicate PagesTaken(mmu0: Paging.Mmu, mmu1: Paging.Mmu, before: Frames.Owners, end: int, pages: nat, rw: bool,
    user: bool) {
    && Paging.FullRam(mmu0) && Paging.FullRam(mmu1) && 0 <= end && end + 4096 * pages <= LIMIT
    && PageMapper.RangeMapped(mmu0, mmu1, before, end / 4096, pages, rw, user)
  }

  lemma StillBacked(m: Memory, lo: int, mmu0: Paging.Mmu, mmu1: Paging.Mmu, before: Frames.Owners, end: int, done: nat,
                    content: int -> Byte, rw: bool, user: bool)
    requires Backed(m, lo, mmu0) && lo <= end && end % 4096 == 0
    requires PagesTaken(mmu0, mmu1, before, end, done, rw, user)
    ensures Backed(MapPages(m, end, end + 4096 * done, content), lo, mmu1)
  {
    hide Paging.PageOf, Paging.Pte, Paging.FullRam, PageMapper.DirectoryKept, Paging.Pde;
    var r := MapPages(m, end, end + 4096 * done, content);
    forall x | lo <= x < LIMIT ensures x in r <==> Paging.PageOf(mmu1, x / 4096).Some? {
      var q := x / 4096;
      assert end <= x < end + 4096 * done <==> end / 4096 <= q < end / 4096 + done;
      if end / 4096 <= q < end / 4096 + done {
        assert PageMapper.NewPage(mmu1, q, before, rw, user);
      } else {
        PageMapper.SameEntry(mmu0, mmu1, q);
      }
    }
  }

  lemma FreshTags(h: State, m: Memory, to: int, content: int -> Byte)
    requires Core(h) && h.end + MIN_BLOCK <= to <= LIMIT && AllTagged(m, h.blocks)
    ensures Mapped(MapPages(m, h.end, to, content), h.end, to - h.end) && 0 <= h.end && to < 0x1_0000_0000
    ensures var r := PutBlock(MapPages(m, h.end, to, content), h.end, to, true);
      AllTagged(r, h.blocks) && AllTagged(r, h.blocks[h.end := Block(to, true)]) && PayloadsKept(m, r, h.blocks)
  {
    hide Indexed, HdrAt, FtrAt, Get32, PutBlock;
    var m1 := MapPages(m, h.end, to, content);
    var r := PutBlock(m1, h.end, to, true);
    PutBlockTags(m1, h.end, to, true);
    forall x | x in h.blocks ensures Tagged(r, x, h.blocks[x]) && SameOn(m, r, x + HDR, h.blocks[x].end - FTR) {
      assert Tagged(m, x, h.blocks[x]);
      SameTags(m, r, x, h.blocks[x]);
    }
  }

  lemma OnlyPrev(h: State, p: int, a: int)
    requires Core(h) && IsPrev(h.blocks, p, a)
    ensures forall q | IsPrev(h.blocks, q, a) :: q == p
  {}

  lemma Listed(h: State)
    requires Core(h)
    ensures forall x | x in h.index :: 4096 <= x && x in h.blocks && h.blocks[x].hole
  {}

  lemma HasPrev(h: State, a: int) returns (p: int)
    requires Core(h) && a in h.blocks && a > h.start
    ensures IsPrev(h.blocks, p, a)
  {
    p := PrevExists(h.start, h.end, h.blocks, a);
  }

  lemma NoPrev(h: State, a: int)
    requires Core(h) && a in h.blocks && a <= h.start
    ensures !exists p :: IsPrev(h.blocks, p, a)
  {}

  lemma EndsInside(h: State, a: int)
    requires Core(h) && a in h.blocks
    ensures End(h.blocks, a) < h.end <==> End(h.blocks, a) in h.blocks
  {}

  lemma FreedTags(h: State, m: Memory, a: int)
    requires Core(h) && AllTagged(m, h.blocks) && a in h.blocks && Mapped(m, a, 12)
    ensures var r := SetHoleField(m, a, true);
      AllTagged(r, SetHole(h.blocks, a, true)) && SameOutside(m, r, a, h.blocks[a].end)
        && PayloadsKept(m, r, h.blocks - {a})
  {
    hide Tiled, Indexed, HdrAt, FtrAt, SetHoleField;
    BlockBounds(h, a);
    assert Tagged(m, a, h.blocks[a]);
    Retag(h.start, h.end, m, SetHoleField(m, a, true), h.blocks, SetHole(h.blocks, a, true), a);
  }

  /** Loads through the footer in front of a, once a is marked free. */
  lemma LoadsFreed(h: State, m: Memory, a: int, p: int)
    requires Core(h) && a in h.blocks && IsPrev(h.blocks, p, a) && AllTagged(m, SetHole(h.blocks, a, true))
    ensures Mapped(m, p, 12) && m[p] == (if h.blocks[p].hole then 1 else 0) && Get32(m, p + 8) == HDR_MAGIC
    ensures Mapped(m, a - FTR, 8) && Get32(m, a - FTR) == p && Get32(m, a - 4) == FTR_MAGIC
  {
    hide Tiled, Indexed;
    PairBounds(h, p, a);
    assert Tagged(m, p, SetHole(h.blocks, a, true)[p]);
  }

  lemma BackJoinTags(h: State, m0: Memory, m: Memory, p: int, a: int, e: int)
    requires Core(h) && a in h.blocks && IsPrev(h.blocks, p, a) && h.blocks[p].hole && h.blocks[a].end == e
    requires AllTagged(m0, h.blocks) && AllTagged(m, SetHole(h.blocks, a, true)) && SameOutside(m0, m, a, e)
    ensures 0 <= p && e < 0x1_0000_0000 && Tagged(m, p, Block(a, true)) && Tagged(m, a, Block(e, true))
    ensures var r := Join(m, p, a, e, true, true);
      AllTagged(r, Merge(h.blocks, p, true)) && PayloadsKept(m0, r, h.blocks - {a}) && r.Keys == m.Keys
  {
    hide Tiled, Indexed, Tagged, Join;
    PairBounds(h, p, a);
    var b := SetHole(h.blocks, a, true);
    assert Tagged(m, p, b[p]) && Tagged(m, a, b[a]);
    JoinTags(m, p, a, e, true, true);
    var r := Join(m, p, a, e, true, true);
    ClearOfPair(h, m0, r, p, a);
  }

  lemma ForwardJoinTags(h: State, m: Memory, a: int, n: int, e: int)
    requires Core(h) && AllTagged(m, h.blocks) && a in h.blocks && h.blocks[a] == Block(n, true)
    requires n in h.blocks && h.blocks[n] == Block(e, true)
    ensures 0 <= a && e < 0x1_0000_0000 && Tagged(m, a, Block(n, true)) && Tagged(m, n, Block(e, true))
    ensures var r := Join(m, a, n, e, true, true);
      AllTagged(r, Merge(h.blocks, a, true)) && PayloadsKept(m, r, h.blocks) && r.Keys == m.Keys
  {
    hide Tiled, Indexed, Tagged, Join;
    PairBounds(h, a, n);
    assert Tagged(m, a, h.blocks[a]) && Tagged(m, n, h.blocks[n]);
    JoinTags(m, a, n, e, true, true);
    var r := Join(m, a, n, e, true, true);
    ClearOfPair(h, m, r, a, n);
  }

  lemma StillKept(m0: Memory, m1: Memory, m2: Memory, h: State, h1: State, a: int, b: int)
    requires Freed(h, h1, a, b) && PayloadsKept(m0, m1, h.blocks - {a}) && PayloadsKept(m1, m2, h1.blocks)
    ensures PayloadsKept(m0, m2, h.blocks - {a})
  {}

  lemma PayloadStore(h: State, m: Memory, a: int, addr: int, v: Byte)
    requires Core(h) && AllTagged(m, h.blocks) && a in h.blocks && a + HDR <= addr < h.blocks[a].end - FTR
    ensures Mapped(m, addr, 1)
    ensures var r := Put8(m, addr, v); AllTagged(r, h.blocks) && PayloadsKept(m, r, h.blocks - {a})
  {
    hide Tiled, Indexed, HdrAt, FtrAt;
    assert Tagged(m, a, h.blocks[a]) && Mapped(m, addr, 1);
    var r := Put8(m, addr, v);
    FramesOutside(m, r, addr, addr + 1);
    forall x | x in h.blocks && x != a
      ensures Tagged(r, x, h.blocks[x]) && SameOn(m, r, x + HDR, h.blocks[x].end - FTR)
    {
      Apart(h.start, h.end, h.blocks, a, x);
      TagElsewhere(m, r, addr, addr + 1, x, h.blocks[x]);
    }
  }

  class Heap {
    var mem: Memory
    const start: int
    var end: int
    const index: OArray
    const rw: bool
    const user: bool
    ghost var blocks: Blocks
    ghost var seams: set<int>

    ghost function View(): State
      reads this, index, index.items
      requires index.Valid()
    {
      State(start, end, blocks, index.Contents(), index.items.Length, seams)
    }

    /** The bytes in memory spell out the blocks. */
    ghost predicate Repr()
      reads this, index
    {
      index.Valid() && AllTagged(mem, blocks)
    }

    ghost predicate Valid()
      reads this, index, index.items
    {
      Repr() && Core(View()) && Seamed(View())
    }

    /** heap_place once its two checks have passed, on pages that are present. */
    constructor Make(base: int, pages: nat, m: Memory, rw: bool, user: bool)
      requires Place(base, pages).Placed? && 0 <= base && base + 4096 * pages <= LIMIT && Mapped(m, base, 4096 * pages)
      ensures Valid() && View() == Place(base, pages).heap && fresh(index) && fresh(index.items)
      ensures OneHole(View(), base, pages) && index.items.Length == 0x2_0000
      ensures mem.Keys == m.Keys && this.rw == rw && this.user == user
    {
      hide HdrAt, FtrAt, PutBlock, Core, Seamed, Get32, Position;
      var s := base + HEAP_T + 4 * INDEX_SIZE;
      var e := base + 4096 * pages;
      start, end := s, e;
      this.rw, this.user := rw, user;
      mem := PutBlock(m, s, e, true);
      var ix := new OArray(INDEX_SIZE);
      index := ix;
      blocks := map[s := Block(e, true)];
      seams := {};
      PutBlockTags(m, s, e, true);
      PlaceWf(base, pages);
      new;
      var ok := index.Add(MemKey(mem), s);
      OnlyOne(MemKey(mem), s);
      assert index.Contents() == [s];
    }

    /** heap_place */
    static method HeapPlace(base: int, pages: nat, m: Memory, rw: bool, user: bool) returns (heap: Heap?)
      requires 0 <= base && base + 4096 * pages <= LIMIT && Mapped(m, base, 4096 * pages)
      ensures heap == null <==> Place(base, pages).Refused?
      ensures heap == null <==> base % 4096 != 0 || 4096 * pages < 28 + 4 * 0x2_0000 + 4096 + 0x1_0000
      ensures heap != null ==> fresh(heap) && fresh(heap.index) && fresh(heap.index.items)
      ensures heap != null ==> heap.Valid() && heap.View() == Place(base, pages).heap
      ensures heap != null ==> OneHole(heap.View(), base, pages) && heap.index.items.Length == 0x2_0000
      ensures heap != null ==> heap.mem.Keys == m.Keys && heap.rw == rw && heap.user == user
    {
      PlaceWf(base, pages);
      if base % 4096 != 0 { return null; }
      if 4096 * pages < HEAP_T + 4 * INDEX_SIZE + 4096 + MIN_HEAP_SIZE { return null; }
      heap := new Heap.Make(base, pages, m, rw, user);
    }

    /** Enter the hole at a, whose tags are in place, in the index. */
    method IndexHole(a: int) returns (ok: bool)
      requires index.Valid() && AllTagged(mem, blocks) && a in blocks && forall x | x in View().index :: x in blocks
      modifies index, index.items
      ensures index.Valid() && View() == AddHole(old(View()), a)
      ensures ok == (|old(View()).index| < index.items.Length)
    {
      KeysAgree(mem, blocks, View().index, a);
      ok := index.Add(MemKey(mem), a);
    }

    /** heap_alloc, lines 283-325: hand out the front of the hole at hdr. */
    method GiveHole(hdr: int, size: nat) returns (ptr: int)
      requires Repr() && Core(View()) && hdr in blocks && blocks[hdr].hole && hdr !in View().index
      requires size + MIN_BLOCK <= Size(blocks, hdr)
      modifies this, index, index.items
      ensures Repr() && View() == GiveFront(old(View()), hdr, size) && ptr == hdr + HDR
      ensures PayloadsKept(old(mem), mem, old(blocks)) && mem.Keys == old(mem).Keys
    {
      hide Core, Tagged, Get32, CutFront, SetHoleField, SizeField, PayloadsKept, AllTagged, AddHole;
      ghost var h := View();
      Loads(h, mem, hdr);
      Listed(h);
      var sizeHf := size + MIN_BLOCK;
      var oldSize := SizeField(mem, hdr);
      if oldSize <= sizeHf + MIN_BLOCK {
        WholeTags(h, mem, hdr);
        mem := SetHoleField(mem, hdr, false);
        blocks := SetHole(blocks, hdr, false);
        return hdr + HDR;
      }
      var hdr2 := hdr + sizeHf;
      FrontTags(h, mem, hdr, hdr2, hdr + oldSize);
      mem := CutFront(mem, hdr, hdr2, hdr + oldSize);
      blocks := Split(blocks, hdr, hdr2, false, true);
      var ok := IndexHole(hdr2);
      ptr := hdr + HDR;
    }

    /** heap_alloc, lines 151-262: cut the hole at hdr, just taken out of the index, so that the
        payload starts on a page. */
    method SplitForPage(hdr: int) returns (newHdr: int)
      requires Valid() && hdr in blocks && blocks[hdr].hole && hdr !in View().index
      requires AlignedHdr(hdr) + MIN_BLOCK <= blocks[hdr].end
      modifies this, index, index.items
      ensures Repr() && View() == PageSplit(old(View()), hdr) && newHdr == AlignedHdr(hdr)
      ensures PayloadsKept(old(mem), mem, old(blocks)) && mem.Keys == old(mem).Keys
    {
      hide Core, Seamed, Tagged, Get32, CutBack, SizeField, PayloadsKept, AllTagged, AddHole;
      ghost var h := View();
      Loads(h, mem, hdr);
      Listed(h);
      NextPageBounds(hdr);
      newHdr := NextPage(hdr) - HDR;
      var offset := newHdr - hdr;
      var e := hdr + SizeField(mem, hdr);
      if offset <= MIN_BLOCK {
        SliverHasPrev(h, hdr);
        if hdr - MIN_BLOCK < start {
          assert false;
        } else {
          AbsorbSliver(hdr, newHdr, e);
        }
      } else {
        BackTags(h, mem, hdr, newHdr, e);
        mem := CutBack(mem, hdr, newHdr, e);
        blocks := Split(blocks, hdr, newHdr, true, true);
        var ok := IndexHole(hdr);
      }
    }

    /** heap_alloc, lines 208-233: the bytes before newHdr go to the previous block. */
    method AbsorbSliver(hdr: int, newHdr: int, e: int)
      requires Valid() && hdr in blocks && blocks[hdr] == Block(e, true)
      requires newHdr == AlignedHdr(hdr) && hdr < newHdr <= e - MIN_BLOCK && Gap(hdr) <= MIN_BLOCK
      modifies this
      ensures Repr() && View() == PageSplit(old(View()), hdr)
      ensures PayloadsKept(old(mem), mem, old(blocks)) && mem.Keys == old(mem).Keys
    {
      hide Core, Seamed, Tagged, Get32, Absorb, PayloadsKept, AllTagged, NextPage;
      ghost var h := View();
      SliverHasPrev(h, hdr);
      ghost var q :| IsPrev(blocks, q, hdr);
      SliverPrevInUse(h, hdr, q);
      OnlyPrev(h, q, hdr);
      Loads(h, mem, q);
      SliverTags(h, mem, q, hdr, newHdr, e);
      assert Get32(mem, hdr - 4) == FTR_MAGIC;
      var p := Get32(mem, hdr - FTR);
      mem := Absorb(mem, p, hdr, newHdr, e, false);
      blocks := Split(Merge(blocks, p, false), p, newHdr, false, true);
    }

    /** heap_extend, lines 101-110: list the new last block and move the end of the heap. */
    method AppendBlock(to: int) returns (ok: bool)
      requires index.Valid() && AllTagged(mem, blocks[end := Block(to, true)]) && forall x | x in View().index ::
        x in blocks
      modifies this, index, index.items
      ensures index.Valid() && mem == old(mem) && ok == (old(index.size) < index.items.Length)
      ensures !ok ==> View() == old(View())
      ensures ok ==> var h := old(View()); var r := blocks;
        && r == h.blocks[h.end := Block(to, true)]
        && View() == State(start, to, r, Insert(h.index, SizeKey(r), h.end), h.cap, h.seams + {h.end})
    {
      hide Insert, SizeKey, MemKey;
      KeysAgree(mem, blocks[end := Block(to, true)], View().index, end);
      ok := index.Add(MemKey(mem), end);
      if !ok { return false; }
      seams := seams + {end};
      blocks := blocks[end := Block(to, true)];
      end := to;
    }

    /** The index buffer is none of the pager's stacks. */
    ghost predicate Apart(pager: PageMapper.Pager)
      reads index
    {
      index.items != pager.stack1.slots && index.items != pager.stack2.slots
    }

    /** The pager maps exactly the pages, from the heap's start on, whose bytes are in memory. */
    ghost predicate Over(pager: PageMapper.Pager)
      reads this, index, pager, pager.stack1, pager.stack2, pager.stack1.slots, pager.stack2.slots
    {
      Apart(pager) && pager.Valid() && Backed(mem, start, pager.mmu)
    }

    lemma OverApart(pager: PageMapper.Pager)
      requires Over(pager)
      ensures Apart(pager)
    {}

    twostate lemma OverKept(pager: PageMapper.Pager)
      requires old(Over(pager)) && mem.Keys == old(mem).Keys
      requires unchanged(pager) && unchanged(pager.stack1) && unchanged(pager.stack2)
      requires unchanged(pager.stack1.slots) && unchanged(pager.stack2.slots)
      ensures Over(pager)
    {
      hide PageMapper.Pager.Valid, Paging.PageOf, Paging.FullRam;
    }

    /** Pages behind the heap could be had now: below the window on the page tables, none of them mapped, and
        frames for them and for the page tables that are missing. */
    ghost predicate CanExtend(pages: nat, pager: PageMapper.Pager)
      reads this, pager, pager.stack1, pager.stack2, pager.stack1.slots, pager.stack2.slots
    {
      && Paging.FullRam(pager.mmu) && pager.Separate() && 0 <= end && end + 4096 * pages <= 0xFFC0_0000
      && PageMapper.FramesNeeded(pager.mmu, end / 4096, pages) <= pager.Free()
      && forall q | end / 4096 <= q < end / 4096 + pages :: Paging.PageOf(pager.mmu, q) == Options.None
    }

    /** In numbers: the range ends below the window, no page of it is mapped, and there are as many free frames
        as pages and directory slots without a table. */
    lemma CanExtendIff(pages: nat, pager: PageMapper.Pager)
      requires index.Valid() && Over(pager) && Core(View())
      ensures Paging.FullRam(pager.mmu) && pager.Separate()
      ensures end + 4096 * pages <= 0xFFC0_0000 ==> var vp := end / 4096;
        CanExtend(pages, pager) <==>
          && pager.Free() >= pages + |PageMapper.Missing(pager.mmu, vp, pages)|
          && forall q | vp <= q < vp + pages :: Paging.PageOf(pager.mmu, q) == Options.None
      ensures end + 4096 * pages > 0xFFC0_0000 ==> !CanExtend(pages, pager)
    {
      hide PageMapper.Pager.Valid, PageMapper.Missing, PageMapper.FramesNeeded, Paging.PageOf, Paging.FullRam, Core;
      pager.Ram();
      EndAligned(View());
      if end + 4096 * pages <= 0xFFC0_0000 { PageMapper.NeededIs(pager.mmu, end / 4096, pages); }
    }

    lemma BelowWindow(pages: nat, pager: PageMapper.Pager)
      ensures end + 4096 * pages > 0xFFC0_0000 ==> !CanExtend(pages, pager)
    {}

    /** heap_extend, line 83: get pages from psalloc_at_v.  Those it maps before it fails stay mapped;
        `content` is what they hold. */
    method TakePages(pages: nat, pager: PageMapper.Pager, content: int -> Byte) returns (ok: bool)
      requires Repr() && Core(View()) && Over(pager) && pages > 0 && end + 4096 * pages <= LIMIT
      modifies `mem, pager`mmu, pager`owner, pager.stack1, pager.stack2
      ensures Repr() && Over(pager) && PayloadsKept(old(mem), mem, blocks)
      ensures ok ==> mem == MapPages(old(mem), end, end + 4096 * pages, content)
      ensures (ok <==> old(CanExtend(pages, pager))) && (!ok ==> !CanExtend(pages, pager))
      ensures ok ==> PagesTaken(old(pager.mmu), pager.mmu, old(pager.owner), end, pages, rw, user)
    {
      hide PageMapper.Pager.Valid, Backed, MapPages, Core, AllTagged, PayloadsKept, Paging.FullRam, Paging.PageOf;
      hide PageMapper.RangeMapped, PageMapper.FramesNeeded;
      EndAligned(View());
      pager.Ram();
      var done;
      ghost var lost;
      ok, done, lost := pager.PsallocAtV(end, rw, user, pages);
      pager.Ram();
      MapKeeps(View(), mem, end + 4096 * done, content);
      StillBacked(mem, start, old(pager.mmu), pager.mmu, old(pager.owner), end, done, content, rw, user);
      if !ok {
        PageMapper.StillRefused(old(pager.mmu), pager.mmu, old(pager.owner), end / 4096, done, pages, pager.Free(), rw,
          user);
      }
      mem := MapPages(mem, end, end + 4096 * done, content);
    }

    /** heap_extend. */
    method HeapExtend(pages: nat, pager: PageMapper.Pager, content: int -> Byte) returns (ok: bool, ghost granted: bool)
      requires Valid() && pages > 0 && Over(pager)
      modifies this, index, index.items, pager`mmu, pager`owner, pager.stack1, pager.stack2
      ensures Repr() && Over(pager)
      ensures View() == Extend(old(View()), pages, Always(granted)).0
        && ok == Extend(old(View()), pages, Always(granted)).1
      ensures granted <==> old(CanExtend(pages, pager))
      ensures ok <==> old(CanExtend(pages, pager)) && old(index.size) < index.items.Length
      ensures !ok ==> !CanExtend(pages, pager) || index.size == index.items.Length
      ensures granted ==> PagesTaken(old(pager.mmu), pager.mmu, old(pager.owner), old(end), pages, rw, user)
      ensures PayloadsKept(old(mem), mem, old(blocks))
    {
      hide Core, Seamed, Tagged, Insert, SizeKey, PutBlock, MapPages, PayloadsKept, AllTagged, Over, CanExtend,
        PagesTaken;
      ghost var h := View();
      Listed(h);
      SamePayloads(mem, blocks);
      OverApart(pager);
      var to := end + 4096 * pages;
      granted := false;
      BelowWindow(pages, pager);
      if to > LIMIT { return false, false; }
      ok := TakePages(pages, pager, content);
      if !ok { return; }
      granted := true;
      label Taken:
      FreshTags(h, old(mem), to, content);
      PutBlockTags(mem, end, to, true);
      mem := PutBlock(mem, end, to, true);
      ok := AppendBlock(to);
      OverKept@Taken(pager);
    }

    /** heap_alloc over the page mapper; 0 is NULL, `grant` what psalloc_at_v answered.  A request so large
        that adding 20 wraps is outside its domain: see FitTestIff. */
    method HeapAlloc(size: nat, pageAlign: bool, pager: PageMapper.Pager, content: int -> Byte)
      returns (ptr: int, ghost grant: Grant)
      requires Valid() && size + MIN_BLOCK < 0x1_0000_0000 && Over(pager)
      modifies this, index, index.items, pager`mmu, pager`owner, pager.stack1, pager.stack2
      ensures Valid() && Over(pager)
      ensures View() == Alloc(old(View()), size, pageAlign, grant).0
        && ptr == Alloc(old(View()), size, pageAlign, grant).1
      ensures ptr == 0 <==>
        && NoRoom(old(View()), size, pageAlign)
        && !(old(CanExtend(PagesFor(size + 20), pager)) && old(index.size) < index.items.Length
             && (pageAlign ==> JustUnderPages(size)))
      ensures !NoRoom(old(View()), size, pageAlign) ==> end == old(end) && pager.mmu == old(pager.mmu)
      ensures ptr == 0 ==> !CanExtend(PagesFor(size + 20), pager) || index.size == index.items.Length
      ensures PayloadsKept(old(mem), mem, old(blocks))
      decreases index.items.Length - index.size
    {
      hide Core, Seamed, AllTagged, PayloadsKept, Carve, Extend, Over, CanExtend, NoRoom, JustUnderPages, Alloc;
      ghost var h := View();
      Listed(h);
      OverApart(pager);
      var i := FindFit(size, pageAlign);
      if i < index.size {
        ptr := ServeFrom(i, size, pageAlign);
        OverKept(pager);
        grant := Always(false);
        NullIff(h, size, pageAlign, grant);
        FoundIff(h, size, pageAlign, grant);
        return;
      }
      FoundIff(h, size, pageAlign, Always(false));
      var pages := PagesFor(size + MIN_BLOCK);
      SamePayloads(mem, blocks);
      var ok;
      ghost var granted;
      ok, granted := HeapExtend(pages, pager, content);
      ExtendKeeps(h, pages, Always(granted));
      if !ok {
        NullIff(h, size, pageAlign, Always(granted));
        FoundIff(h, size, pageAlign, Always(granted));
        return 0, Always(granted);
      }
      ghost var m1, b1, h1 := mem, blocks, View();
      ptr, grant := HeapAlloc(size, pageAlign, pager, content);
      PayloadsTrans(old(mem), m1, mem, h.blocks, b1);
      GrantFirst(h, h1, size, pageAlign, granted, grant);
      grant := FirstThen(h.end, granted, grant);
      ExtendKeeps(h, pages, grant);
      NullIff(h, size, pageAlign, grant);
    }

    /** The loop of heap_alloc: the first index entry whose block fits. */
    method FindFit(size: nat, pageAlign: bool) returns (i: nat)
      requires Valid() && size + MIN_BLOCK < 0x1_0000_0000
      ensures i == Scan(View(), size, pageAlign, 0)
    {
      hide Core, Seamed, AllTagged, SizeField, NextPage;
      ghost var h := View();
      Listed(h);
      var sizeHf := Wrapped(size);
      assert sizeHf == size + MIN_BLOCK;
      hide Wrapped;
      i := 0;
      while i < index.size
        invariant i <= index.size
        invariant Scan(h, size, pageAlign, 0) == Scan(h, size, pageAlign, i)
      {
        var hdr := index.items[i];
        assert hdr == h.index[i] && hdr in h.index;
        Loads(h, mem, hdr);
        if SizeField(mem, hdr) >= sizeHf {
          if !(pageAlign && hdr + HDR >= 4096) || NextPage(hdr) + size + FTR < hdr + SizeField(mem, hdr) {
            return;
          }
        }
        i := i + 1;
      }
    }

    /** heap_alloc, from the removal of the chosen block from the index on. */
    method ServeFrom(i: nat, size: nat, pageAlign: bool) returns (ptr: int)
      requires Valid() && i < index.size && Fits(blocks, index.items[i], size, pageAlign)
      modifies this, index, index.items
      ensures Valid() && View() == Carve(old(View()), i, size, pageAlign).0
        && ptr == Carve(old(View()), i, size, pageAlign).1
      ensures PayloadsKept(old(mem), mem, old(blocks)) && mem.Keys == old(mem).Keys
    {
      hide Core, Seamed, AllTagged, PayloadsKept, GiveFront, PageSplit, NextPage, SeamedBut, RemoveAt;
      ghost var h := View();
      Listed(h);
      var hdr := index.items[i];
      assert hdr == h.index[i] && hdr in h.index;
      UnindexCore(h, i);
      ChooseReady(h, i, size, pageAlign);
      SamePayloads(mem, blocks);
      index.Del(i);
      var newHdr := hdr;
      if pageAlign {
        AlignedRoom(blocks, hdr, size);
        newHdr := SplitForPage(hdr);
      }
      ghost var m1, mid := mem, View();
      GiveFrontKeeps(mid, newHdr, size);
      ptr := GiveHole(newHdr, size);
      PayloadsTrans(old(mem), m1, mem, h.blocks, mid.blocks);
    }

    /** heap_free of a live pointer, or of one at which a magic number is wrong: that one is refused, and
        nothing changes.  In a valid heap all other magic numbers it checks are right. */
    method HeapFree(addr: int) returns (ok: bool)
      requires Valid()
      requires Live(View(), addr) || (Mapped(mem, addr - 12, 12)
                 && (Get32(mem, addr - 4) != 0x8e99da12
                     || (Mapped(mem, addr - 12 + Get32(mem, addr - 8) - 8, 8)
                         && Get32(mem, addr - 12 + Get32(mem, addr - 8) - 4) != 0x981a7cb4)))
      modifies this, index, index.items
      ensures Valid() && mem.Keys == old(mem).Keys
      ensures old(Live(View(), addr)) ==>
        && View() == Free(old(View()), addr).0 && ok == Free(old(View()), addr).1
        && PayloadsKept(old(mem), mem, old(blocks) - {addr - HDR})
      ensures !old(Live(View(), addr)) ==> !ok && View() == old(View()) && mem == old(mem)
    {
      hide Core, Seamed, Tagged, AllTagged, PayloadsKept, Free;
      ghost var h := View();
      if Live(h, addr) { Loads(h, mem, addr - HDR); }
      if Get32(mem, addr - HDR + 8) != HDR_MAGIC { return false; }
      if Get32(mem, addr - HDR + SizeField(mem, addr - HDR) - 4) != FTR_MAGIC { return false; }
      ok := FreeLive(addr);
    }

    /** heap_free, lines 385-466. */
    method FreeLive(addr: int) returns (ok: bool)
      requires Valid() && Live(View(), addr)
      modifies this, index, index.items
      ensures Valid() && View() == Free(old(View()), addr).0 && ok == Free(old(View()), addr).1
      ensures PayloadsKept(old(mem), mem, old(blocks) - {addr - HDR}) && mem.Keys == old(mem).Keys
    {
      hide Core, Seamed, Tagged, AllTagged, PayloadsKept, FreeBack, FreeForward, AddHole;
      ghost var h := View();
      FreeKeeps(h, addr);
      FreeBackKeeps(h, addr - HDR);
      var hdr := MergeBack(addr - HDR);
      ghost var m1, h1 := mem, View();
      FreeForwardKeeps(h1, hdr);
      MergeForward(hdr);
      ghost var h2 := View();
      Listed(h2);
      ok := IndexHole(hdr);
      StillKept(old(mem), m1, mem, h, h1, addr - HDR, hdr);
    }

    /** A caller's store to a byte of its live range: the heap and all other payloads stay as they are. */
    method CallerStore(addr: int, v: Byte, ghost a: int)
      requires Valid() && a in blocks && !blocks[a].hole && a + HDR <= addr < blocks[a].end - FTR
      modifies `mem
      ensures Valid() && View() == old(View()) && mem == old(mem)[addr := v]
      ensures PayloadsKept(old(mem), mem, blocks - {a})
    {
      hide Core, Seamed, PayloadsKept, Tiled;
      PayloadStore(View(), mem, a, addr, v);
      mem := Put8(mem, addr, v);
    }

    /** heap_free, lines 385-427. */
    method MergeBack(hdr: int) returns (b: int)
      requires Valid() && hdr in blocks && !blocks[hdr].hole
      modifies this, index, index.items
      ensures Repr() && View() == FreeBack(old(View()), hdr).0 && b == FreeBack(old(View()), hdr).1
      ensures PayloadsKept(old(mem), mem, old(blocks) - {hdr}) && mem.Keys == old(mem).Keys
    {
      hide Core, Seamed, Tagged, AllTagged, PayloadsKept, Get32, SizeField, Join, SetHoleField, Remove;
      ghost var h := View();
      Loads(h, mem, hdr);
      assert Get32(mem, hdr + 8) == HDR_MAGIC;
      var e := hdr + SizeField(mem, hdr);
      assert Get32(mem, e - 4) == FTR_MAGIC;
      FreedTags(h, mem, hdr);
      mem := SetHoleField(mem, hdr, true);
      blocks := SetHole(blocks, hdr, true);
      b := hdr;
      if hdr > start {
        ghost var q := HasPrev(h, hdr);
        OnlyPrev(h, q, hdr);
        LoadsFreed(h, mem, hdr, q);
        assert Get32(mem, hdr - 4) == FTR_MAGIC;
        var p: int := Get32(mem, hdr - FTR);
        assert Get32(mem, p + 8) == HDR_MAGIC;
        if mem[p] != 0 {
          BackJoinTags(h, old(mem), mem, p, hdr, e);
          mem := Join(mem, p, hdr, e, true, true);
          blocks := Merge(h.blocks, p, true);
          var found := index.DelValue(p);
          b := p;
        }
      } else {
        NoPrev(h, hdr);
      }
    }

    /** heap_free, lines 431-457. */
    method MergeForward(hdr: int)
      requires Repr() && Core(View()) && hdr in blocks && blocks[hdr].hole
      modifies this, index, index.items
      ensures Repr() && View() == FreeForward(old(View()), hdr)
      ensures PayloadsKept(old(mem), mem, old(blocks)) && mem.Keys == old(mem).Keys
    {
      hide Core, Tagged, AllTagged, PayloadsKept, Get32, SizeField, Join, Remove;
      ghost var h := View();
      Loads(h, mem, hdr);
      SamePayloads(mem, blocks);
      var next := hdr + SizeField(mem, hdr);
      EndsInside(h, hdr);
      if next < end {
        Loads(h, mem, next);
        assert Get32(mem, next + 8) == HDR_MAGIC;
        if mem[next] != 0 {
          var e := next + SizeField(mem, next);
          assert Get32(mem, e - 4) == FTR_MAGIC;
          ForwardJoinTags(h, mem, hdr, next, e);
          mem := Join(mem, hdr, next, e, true, true);
          blocks := Merge(blocks, hdr, true);
          var found := index.DelValue(next);
        }
      }
    }
  }
}
