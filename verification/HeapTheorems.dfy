/** Properties of heap_alloc and heap_free across calls. */
module HeapTheorems {
  import opened Tiling
  import opened SortedSeq
  import opened HeapSpec

  /** What a granted request means for the caller. */
  ghost predicate Served(h: State, r: State, ptr: int, size: nat, align: bool) {
    var a := ptr - HDR;
    && a !in InUse(h.blocks) && InUse(r.blocks) == InUse(h.blocks) + {a}
    && a in r.blocks && size + MIN_BLOCK <= Size(r.blocks, a) <= size + 2 * MIN_BLOCK
    && (align ==> ptr % 4096 == 0)
    && InUseKept(h.blocks, r.blocks)
  }

  lemma CarveServes(h: State, i: nat, size: nat, align: bool)
    requires Wf(h) && i < |h.index| && Fits(h.blocks, h.index[i], size, align)
    ensures var (r, ptr) := Carve(h, i, size, align);
      Wf(r) && SameFrame(h, r) && ptr > 0 && Served(h, r, ptr, size, align)
    ensures Exact(h) && Roomy(h) ==> Exact(Carve(h, i, size, align).0)
  {
    hide Core, SeamedBut, GiveFront, Choose;
    ChooseReady(h, i, size, align);
    var (mid, u) := Choose(h, i, align);
    GiveFrontKeeps(mid, u, size);
  }

  /** heap_alloc keeps the heap well formed.  It either serves the request, or returns NULL and
      leaves every block in use untouched; the index stays exact while it has room. */
  lemma {:induction false} AllocServes(h: State, size: nat, align: bool, grant: Grant)
    requires Wf(h)
    ensures var (r, ptr) := Alloc(h, size, align, grant);
      && Wf(r) && r.start == h.start && r.cap == h.cap && h.end <= r.end && h.seams <= r.seams
      && (r.end == h.end || h.end in r.seams)
      && (ptr != 0 ==> ptr > 0 && Served(h, r, ptr, size, align))
      && (ptr == 0 ==> InUse(r.blocks) == InUse(h.blocks) && forall x | x in h.blocks ::
        x in r.blocks && r.blocks[x] == h.blocks[x])
    ensures Exact(h) && Roomy(Alloc(h, size, align, grant).0) ==> Exact(Alloc(h, size, align, grant).0)
    decreases h.cap - |h.index|
  {
    hide Tiled, Indexed, HolesMeet, Extend, Carve;
    var i := Scan(h, size, align, 0);
    if i < |h.index| {
      CarveServes(h, i, size, align);
    } else {
      var n := PagesFor(size + MIN_BLOCK);
      ExtendKeeps(h, n, grant);
      if Extend(h, n, grant).1 {
        AllocServes(Extend(h, n, grant).0, size, align, grant);
      }
    }
  }

  // ---------------------------------------------------------------- which hole, how many extensions

  ghost predicate NoneFits(h: State, size: nat, align: bool) {
    forall x | x in h.index :: !Fits(h.blocks, x, size, align)
  }

  /** No listed hole can serve the request. */
  ghost predicate NoRoom(h: State, size: nat, align: bool) {
    forall x | x in h.index :: !CanServe(h.blocks, x, size, align)
  }

  lemma NoRoomIff(h: State, size: nat, align: bool)
    requires Core(h)
    ensures NoRoom(h, size, align) <==> NoneFits(h, size, align)
  {
    hide Tiled, Fits, CanServe, RoomAt, NextPage;
    forall x | x in h.index ensures Fits(h.blocks, x, size, align) <==> CanServe(h.blocks, x, size, align) {
      StartsHigh(h, x);
      FitsIff(h.blocks, x, size, align);
    }
  }

  lemma StartsHigh(h: State, x: int)
    requires Core(h) && x in h.index
    ensures 4096 <= x && x in h.blocks && h.blocks[x].hole
  {}

  lemma ScanFinds(h: State, size: nat, align: bool)
    ensures Scan(h, size, align, 0) == |h.index| <==> NoneFits(h, size, align)
  {
    var i := Scan(h, size, align, 0);
    if i == |h.index| {
      forall x | x in h.index ensures !Fits(h.blocks, x, size, align) {
        var k :| 0 <= k < |h.index| && h.index[k] == x;
      }
    } else {
      assert h.index[i] in h.index;
    }
  }

  /** With an exact index an unaligned request is best fit: it takes the front of a hole that fits,
      no other hole that fits is smaller, and nothing is extended. */
  lemma BestFit(h: State, size: nat, grant: Grant, x: int)
    requires Wf(h) && Exact(h) && x in h.blocks && h.blocks[x].hole && size + MIN_BLOCK <= Size(h.blocks, x)
    ensures var (r, ptr) := Alloc(h, size, false, grant); var a := ptr - HDR;
      && a in h.blocks && h.blocks[a].hole
      && size + MIN_BLOCK <= Size(h.blocks, a) <= Size(h.blocks, x)
      && r.end == h.end
  {
    hide Tiled, HolesMeet, RemoveAt, GiveFront, Distinct;
    ScanFinds(h, size, false);
    var i := Scan(h, size, false, 0);
    assert Fits(h.blocks, x, size, false);
    assert i < |h.index|;
    CarveServes(h, i, size, false);
    var k :| 0 <= k < |h.index| && h.index[k] == x;
    assert i <= k;
    assert SizeKey(h.blocks)(h.index[i]) <= SizeKey(h.blocks)(h.index[k]);
  }

  /** An extension sized for an unaligned request serves it: heap_alloc extends at most once, and
      returns NULL exactly when no listed hole fits and the extension is refused. */
  lemma UnalignedExtendsOnce(h: State, size: nat, grant: Grant)
    requires Wf(h) && NoRoom(h, size, false)
    ensures var n := PagesFor(size + MIN_BLOCK); var (r, ptr) := Alloc(h, size, false, grant);
      if Extend(h, n, grant).1 then ptr == h.end + HDR && r.end == h.end + 4096 * n
      else ptr == 0 && r == h
  {
    hide Tiled, Indexed, HolesMeet, Extend, Carve, NoRoom;
    var n := PagesFor(size + MIN_BLOCK);
    NoRoomIff(h, size, false);
    ScanFinds(h, size, false);
    ExtendKeeps(h, n, grant);
    var (e, ok) := Extend(h, n, grant);
    if ok {
      FreshIsChosen(h, size, false, grant);
      CarveServes(e, Scan(e, size, false, 0), size, false);
      UnalignedPointer(e, Scan(e, size, false, 0), size);
    }
  }

  lemma UnalignedPointer(h: State, i: nat, size: nat)
    requires Wf(h) && i < |h.index| && Fits(h.blocks, h.index[i], size, false)
    ensures Carve(h, i, size, false).1 == h.index[i] + HDR
  {}

  /** After a failed scan and an extension, the fresh block is the only listed hole that can fit. */
  lemma FreshIsChosen(h: State, size: nat, align: bool, grant: Grant)
    requires Wf(h) && NoneFits(h, size, align)
    requires Extend(h, PagesFor(size + MIN_BLOCK), grant).1
    ensures var e := Extend(h, PagesFor(size + MIN_BLOCK), grant).0;
      && Wf(e) && h.end in e.blocks
      && (NoneFits(e, size, align) <==> !Fits(e.blocks, h.end, size, align))
      && (Fits(e.blocks, h.end, size, align) ==>
            var i := Scan(e, size, align, 0); i < |e.index| && e.index[i] == h.end)
  {
    hide Tiled, HolesMeet, Extend, Distinct, Sorted, SizeKey;
    ExtendKeeps(h, PagesFor(size + MIN_BLOCK), grant);
    var e := Extend(h, PagesFor(size + MIN_BLOCK), grant).0;
    ScanFinds(e, size, align);
    assert h.end in e.index;
    forall x | x in e.index && x != h.end ensures !Fits(e.blocks, x, size, align) {
      assert x in h.index;
    }
    if Fits(e.blocks, h.end, size, align) {
      assert e.index[Scan(e, size, align, 0)] in e.index;
    }
  }

  /** heap_alloc asks for pages only from the heap's end on. */
  lemma {:induction false} GrantsBehind(h: State, size: nat, align: bool, g1: Grant, g2: Grant)
    requires Wf(h) && forall a, n | a >= h.end :: g1(a, n) == g2(a, n)
    ensures Alloc(h, size, align, g1) == Alloc(h, size, align, g2)
    decreases h.cap - |h.index|
  {
    hide Core, Seamed, Carve, Exact;
    var i := Scan(h, size, align, 0);
    if i == |h.index| {
      var n := PagesFor(size + MIN_BLOCK);
      ExtendKeeps(h, n, g1);
      assert Extend(h, n, g1) == Extend(h, n, g2);
      if Extend(h, n, g1).1 { GrantsBehind(Extend(h, n, g1).0, size, align, g1, g2); }
    }
  }

  /** The answers of the first extension and of those that follow it, as the answers of one page mapper. */
  lemma GrantFirst(h: State, h1: State, size: nat, align: bool, granted: bool, grant: Grant)
    requires Wf(h) && Scan(h, size, align, 0) == |h.index|
    requires Extend(h, PagesFor(size + MIN_BLOCK), Always(granted)) == (h1, true)
    ensures Alloc(h1, size, align, grant) == Alloc(h, size, align, FirstThen(h.end, granted, grant))
  {
    hide Core, Seamed, Carve, Exact, Scan;
    var n, g := PagesFor(size + MIN_BLOCK), FirstThen(h.end, granted, grant);
    ExtendKeeps(h, n, Always(granted));
    assert Extend(h, n, g) == (h1, true);
    GrantsBehind(h1, size, align, grant, g);
  }

  /** The extension ignores alignment slack: a fresh block serves an aligned request exactly when
      the request falls 9 to 19 bytes short of a whole number of pages. */
  predicate JustUnderPages(size: nat) { 8 < 4095 - (size + 4095) % 4096 < 20 }

  lemma JustUnderPagesMeans(size: nat)
    ensures JustUnderPages(size) <==> exists k: nat :: 8 < 4096 * k - size < 20
  {
    var q := (size + 4095) / 4096;
    assert 4096 * q - size == 4095 - (size + 4095) % 4096;
    forall k: nat | 8 < 4096 * k - size < 20 ensures k == q {
      assert 4096 * (q - 1) < size <= 4096 * q;
    }
  }

  lemma FreshServesIff(h: State, size: nat, grant: Grant)
    requires Wf(h) && Extend(h, PagesFor(size + MIN_BLOCK), grant).1
    ensures var e := Extend(h, PagesFor(size + MIN_BLOCK), grant).0;
      h.end in e.blocks && (Fits(e.blocks, h.end, size, true) <==> JustUnderPages(size))
  {
    hide Tiled, Indexed, HolesMeet, Extend;
    var n := PagesFor(size + MIN_BLOCK);
    ExtendKeeps(h, n, grant);
    FreshArithmetic(h.end, size);
  }

  lemma FreshArithmetic(e: int, size: nat)
    requires e % 4096 == 0
    ensures NextPage(e) == e + 4096
    ensures 4096 + size + FTR < 4096 * PagesFor(size + MIN_BLOCK) <==> JustUnderPages(size)
  {}

  /** An aligned request no listed hole can serve is served by the first extension if it is just
      under a number of pages; otherwise heap_alloc extends until it is refused and returns NULL. */
  lemma {:induction false} AlignedNullIff(h: State, size: nat, grant: Grant)
    requires Wf(h) && NoRoom(h, size, true)
    ensures var n := PagesFor(size + MIN_BLOCK); var (r, ptr) := Alloc(h, size, true, grant);
      && Wf(r)
      && (ptr == 0 <==> !(Extend(h, n, grant).1 && JustUnderPages(size)))
      && (ptr == 0 ==> !Extend(r, n, grant).1)
      && (ptr != 0 ==> r.end == h.end + 4096 * n && h.end < ptr < r.end)
    decreases h.cap - |h.index|
  {
    hide Tiled, Indexed, HolesMeet, Extend, Carve, JustUnderPages, Served, NoRoom;
    var n := PagesFor(size + MIN_BLOCK);
    NoRoomIff(h, size, true);
    ScanFinds(h, size, true);
    ExtendKeeps(h, n, grant);
    var (e, ok) := Extend(h, n, grant);
    if ok {
      FreshIsChosen(h, size, true, grant);
      FreshServesIff(h, size, grant);
      if JustUnderPages(size) {
        CarveServes(e, Scan(e, size, true, 0), size, true);
        AlignedPointer(e, Scan(e, size, true, 0), size);
      } else {
        NoRoomIff(e, size, true);
        AlignedNullIff(e, size, grant);
      }
    }
  }

  lemma AlignedPointer(h: State, i: nat, size: nat)
    requires Wf(h) && i < |h.index| && Fits(h.blocks, h.index[i], size, true)
    ensures var ptr := Carve(h, i, size, true).1;
      h.index[i] + HDR < ptr && ptr + size + FTR < End(h.blocks, h.index[i])
  {}

  /** A request for whole pages is never served by extending: heap_palloc and heap_psalloc return
      NULL exactly when no listed hole has room for the pages behind a page boundary. */
  lemma PageRequestNullIff(h: State, pages: nat, grant: Grant)
    requires Wf(h)
    ensures Alloc(h, 4096 * pages, true, grant).1 == 0 <==> NoRoom(h, 4096 * pages, true)
  {
    hide Tiled, Indexed, SeamedBut, Extend, Carve, NoRoom;
    NoRoomIff(h, 4096 * pages, true);
    ScanFinds(h, 4096 * pages, true);
    if NoneFits(h, 4096 * pages, true) {
      assert !JustUnderPages(4096 * pages) by { FreshArithmetic(0, 4096 * pages); }
      AlignedNullIff(h, 4096 * pages, grant);
    } else {
      CarveServes(h, Scan(h, 4096 * pages, true, 0), 4096 * pages, true);
    }
  }

  /** NULL is returned if and only if no listed hole can serve the request, and the one extension made for it
      is refused or, for an aligned request, cannot serve it either. */
  lemma NullIff(h: State, size: nat, align: bool, grant: Grant)
    requires Wf(h)
    ensures Alloc(h, size, align, grant).1 == 0 <==>
      && NoRoom(h, size, align)
      && !(Extend(h, PagesFor(size + MIN_BLOCK), grant).1 && (align ==> JustUnderPages(size)))
  {
    hide Tiled, Indexed, SeamedBut, Extend, Carve, NoRoom, JustUnderPages;
    NoRoomIff(h, size, align);
    ScanFinds(h, size, align);
    if !NoRoom(h, size, align) {
      CarveServes(h, Scan(h, size, align, 0), size, align);
    } else if align {
      AlignedNullIff(h, size, grant);
    } else {
      UnalignedExtendsOnce(h, size, grant);
    }
  }

  /** The scan finds an entry exactly if there is one; then nothing is extended. */
  lemma FoundIff(h: State, size: nat, align: bool, grant: Grant)
    requires Wf(h)
    ensures Scan(h, size, align, 0) < |h.index| <==> !NoRoom(h, size, align)
    ensures !NoRoom(h, size, align) ==> Alloc(h, size, align, grant).0.end == h.end
    ensures !NoRoom(h, size, align) ==>
      Alloc(h, size, align, grant) == Carve(h, Scan(h, size, align, 0), size, align)
    ensures NoRoom(h, size, align) && !Extend(h, PagesFor(size + MIN_BLOCK), grant).1 ==>
      Alloc(h, size, align, grant) == (Extend(h, PagesFor(size + MIN_BLOCK), grant).0, 0)
  {
    hide Core, Seamed, Carve, Extend, NoRoom;
    NoRoomIff(h, size, align);
    ScanFinds(h, size, align);
    if !NoRoom(h, size, align) { CarveServes(h, Scan(h, size, align, 0), size, align); }
  }

  /** With an exact index an aligned request is best fit too: if any hole has a page boundary with room for
      it, the pointer is the first such boundary of a hole, no hole that has one is smaller, and nothing
      is extended. */
  lemma AlignedBestFit(h: State, size: nat, grant: Grant, x: int, P: int)
    requires Wf(h) && Exact(h) && x in h.blocks && h.blocks[x].hole && RoomAt(h.blocks, x, size, P)
    ensures var (r, ptr) := Alloc(h, size, true, grant);
      && r.end == h.end && r.seams == h.seams && ptr != 0
      && exists a :: a in h.blocks && h.blocks[a].hole && RoomAt(h.blocks, a, size, ptr)
                     && Size(h.blocks, a) <= Size(h.blocks, x)
                     && forall Q | RoomAt(h.blocks, a, size, Q) :: ptr <= Q
  {
    hide Tiled, HolesMeet, RemoveAt, GiveFront, Distinct, Choose, NextPage, RoomAt, Seamed;
    assert x in h.index;
    StartsHigh(h, x);
    FitsIff(h.blocks, x, size, true);
    ScanFinds(h, size, true);
    var i := Scan(h, size, true, 0);
    var k :| 0 <= k < |h.index| && h.index[k] == x;
    assert i <= k;
    var a := h.index[i];
    assert a in h.index;
    StartsHigh(h, a);
    FitsIff(h.blocks, a, size, true);
    assert SizeKey(h.blocks)(h.index[i]) <= SizeKey(h.blocks)(h.index[k]);
    CarveServes(h, i, size, true);
    CarveBlocks(h, i, size, true);
  }

  /** And conversely: without extending, an aligned request is served only if some hole has such a boundary. */
  lemma AlignedServedIff(h: State, size: nat, grant: Grant)
    requires Wf(h) && Exact(h)
    ensures var (r, ptr) := Alloc(h, size, true, grant);
      ptr != 0 && r.end == h.end <==> exists x, P :: x in h.blocks && h.blocks[x].hole && RoomAt(h.blocks, x, size, P)
  {
    hide Alloc, Core, Seamed, JustUnderPages;
    if x, P :| x in h.blocks && h.blocks[x].hole && RoomAt(h.blocks, x, size, P) {
      AlignedBestFit(h, size, grant, x, P);
    } else {
      forall x | x in h.index ensures !CanServe(h.blocks, x, size, true) { StartsHigh(h, x); }
      AlignedNullIff(h, size, grant);
    }
  }

  // ---------------------------------------------------------------- free undoes alloc

  /** Freeing the last n bytes of hole a, after a request for `size` was served from their front,
      does not reach past the end of a. */
  ghost predicate NoneBehind(blocks: Blocks, a: int, n: int, size: nat)
    requires a in blocks
  {
    n > size + 2 * MIN_BLOCK || !HolesMeet(blocks, End(blocks, a))
  }

  ghost function FreeBlocks(blocks: Blocks, a: int): Blocks
    requires a in blocks
  {
    var (r, b) := JoinBack(blocks, a);
    JoinForward(r, b)
  }

  /** Block u free again, joined to a hole behind it unless the front was split off. */
  ghost function Rejoined(blocks: Blocks, u: int, whole: bool): Blocks
    requires u in blocks
  {
    if whole then JoinForward(blocks, u) else blocks
  }

  /** Handing out the front of u, from blocks mid, and freeing it gives `blocks`. */
  ghost predicate Restored(blocks: Blocks, mid: Blocks, u: int, size: nat) {
    u in mid && FreeBlocks(GiveBlocks(mid, u, size), u) == blocks
  }

  /** heap_free of a block with no hole in front. */
  lemma FreeAlone(blocks: Blocks, u: int)
    requires u in blocks && forall p | IsPrev(blocks, p, u) :: !blocks[p].hole
    ensures FreeBlocks(blocks, u) == JoinForward(SetHole(blocks, u, true), u)
  {
    hide End, SetHole, JoinForward;
  }

  /** And of a block with the hole p in front. */
  lemma FreeBehind(blocks: Blocks, p: int, u: int)
    requires u in blocks && IsPrev(blocks, p, u) && blocks[p].hole && forall q | IsPrev(blocks, q, u) :: q == p
    ensures FreeBlocks(blocks, u) == JoinForward(Merge(blocks, p, true), p)
  {
    hide JoinForward;
  }

  /** Handing out the front of u leaves the blocks that end at u as they are. */
  lemma GiveKeepsPrev(start: int, end: int, blocks: Blocks, u: int, size: nat, p: int)
    requires Tiled(start, end, blocks) && u in blocks && blocks[u].hole && size + MIN_BLOCK <= Size(blocks, u)
    ensures var r := GiveBlocks(blocks, u, size);
      (IsPrev(r, p, u) <==> IsPrev(blocks, p, u)) && (IsPrev(blocks, p, u) ==> r[p] == blocks[p] && p != u)
  {}

  lemma NoHoleBefore(blocks: Blocks, u: int, p: int)
    requires u in blocks && blocks[u].hole && !HolesMeet(blocks, u) && IsPrev(blocks, p, u)
    ensures !blocks[p].hole
  {}

  lemma GiveThenFree(start: int, end: int, blocks: Blocks, u: int, size: nat)
    requires Tiled(start, end, blocks) && u in blocks && blocks[u].hole && size + MIN_BLOCK <= Size(blocks, u)
    requires !HolesMeet(blocks, u)
    ensures FreeBlocks(GiveBlocks(blocks, u, size), u) == Rejoined(blocks, u, Size(blocks, u) <= size + 2 * MIN_BLOCK)
  {
    hide Tiled, FreeBlocks, Merge, HolesMeet;
    var r := GiveBlocks(blocks, u, size);
    forall p | IsPrev(r, p, u) ensures !r[p].hole {
      GiveKeepsPrev(start, end, blocks, u, size, p);
      NoHoleBefore(blocks, u, p);
    }
    FreeAlone(r, u);
    if Size(blocks, u) <= size + 2 * MIN_BLOCK {
      assert SetHole(r, u, true) == blocks;
    } else {
      var c := u + size + MIN_BLOCK;
      SplitTiled(start, end, blocks, u, c, false, true);
      assert SetHole(r, u, true) == Split(blocks, u, c, true, true);
      SplitThenMerge(blocks, u, c, true, true);
    }
  }

  lemma GiveThenMerge(start: int, end: int, blocks: Blocks, p: int, u: int, size: nat)
    requires Tiled(start, end, blocks) && u in blocks && blocks[u].hole && size + MIN_BLOCK <= Size(blocks, u)
    requires IsPrev(blocks, p, u) && blocks[p].hole
    ensures var m := Rejoined(blocks, u, Size(blocks, u) <= size + 2 * MIN_BLOCK);
      && p in m && End(m, p) == u && u in m
      && FreeBlocks(GiveBlocks(blocks, u, size), u) == Merge(m, p, true)
  {
    hide Tiled, FreeBlocks;
    var r := GiveBlocks(blocks, u, size);
    var n := End(blocks, u);
    PrevBefore(start, end, blocks, p, u);
    PrevUnique(start, end, blocks, p, u);
    forall q ensures IsPrev(r, q, u) <==> q == p { GiveKeepsPrev(start, end, blocks, u, size, q); }
    GiveKeepsPrev(start, end, blocks, u, size, p);
    FreeBehind(r, p, u);
    var back := Merge(r, p, true);
    if Size(blocks, u) <= size + 2 * MIN_BLOCK {
      assert End(back, p) == n;
    } else {
      SplitTiled(start, end, blocks, u, u + size + MIN_BLOCK, false, true);
      assert End(back, p) == u + size + MIN_BLOCK;
    }
  }

  lemma RestoresInPlace(start: int, end: int, blocks: Blocks, a: int, size: nat)
    requires Tiled(start, end, blocks) && a in blocks && blocks[a].hole && size + MIN_BLOCK <= Size(blocks, a)
    ensures Restored(blocks, blocks, a, size) <==>
      !HolesMeet(blocks, a) && NoneBehind(blocks, a, Size(blocks, a), size)
  {
    assert IsPrev(blocks, a, End(blocks, a));
    if p :| IsPrev(blocks, p, a) && blocks[p].hole {
      GiveThenMerge(start, end, blocks, p, a, size);
      hide FreeBlocks, GiveBlocks;
      assert a !in FreeBlocks(GiveBlocks(blocks, a, size), a);
    } else {
      GiveThenFree(start, end, blocks, a, size);
    }
  }

  lemma RestoresLead(start: int, end: int, blocks: Blocks, a: int, u: int, size: nat)
    requires Tiled(start, end, blocks) && a in blocks && blocks[a].hole
    requires a + MIN_BLOCK <= u && u + size + MIN_BLOCK <= End(blocks, a)
    ensures Restored(blocks, Split(blocks, a, u, true, true), u, size) <==>
      NoneBehind(blocks, a, End(blocks, a) - u, size)
  {
    var mid := Split(blocks, a, u, true, true);
    var n := End(blocks, a);
    SplitTiled(start, end, blocks, a, u, true, true);
    assert IsPrev(blocks, a, n) && IsPrev(mid, a, u) && End(mid, u) == n;
    GiveThenMerge(start, end, mid, a, u, size);
    hide FreeBlocks, GiveBlocks, Tiled;
    SplitThenMerge(blocks, a, u, true, true);
  }

  lemma SliverStays(start: int, end: int, blocks: Blocks, p: int, a: int, u: int, size: nat)
    requires Tiled(start, end, blocks) && IsPrev(blocks, p, a) && !blocks[p].hole && a in blocks && blocks[a].hole
    requires a < u && u + size + MIN_BLOCK <= End(blocks, a)
    ensures !Restored(blocks, Split(Merge(blocks, p, false), p, u, false, true), u, size)
  {
    var mid := Split(Merge(blocks, p, false), p, u, false, true);
    ShiftBoundary(start, end, blocks, p, a, u);
    assert IsPrev(mid, p, u);
    hide Split, Merge;
    PrevUnique(start, end, mid, p, u);
    GiveThenFree(start, end, mid, u, size);
    hide FreeBlocks, GiveBlocks, Tiled;
    assert a !in Rejoined(mid, u, Size(mid, u) <= size + 2 * MIN_BLOCK);
  }

  lemma RestoresMoved(h: State, a: int, size: nat)
    requires Wf(h) && a in h.blocks && h.blocks[a].hole && Fits(h.blocks, a, size, true)
    ensures Restored(h.blocks, PageBlocks(h.blocks, a), AlignedHdr(a), size) <==>
      Gap(a) > MIN_BLOCK && NoneBehind(h.blocks, a, End(h.blocks, a) - AlignedHdr(a), size)
  {
    assert 4096 <= a;
    AlignedRoom(h.blocks, a, size);
    hide Restored, NoneBehind, NextPage, Fits, PageBlocks, Core, Seamed;
    if Gap(a) > MIN_BLOCK { LeadRestores(h, a, size); } else { SliverAbsorbed(h, a, size); }
  }

  lemma LeadRestores(h: State, a: int, size: nat)
    requires Wf(h) && a in h.blocks && h.blocks[a].hole && MIN_BLOCK < Gap(a)
    requires AlignedHdr(a) + size + MIN_BLOCK <= End(h.blocks, a)
    ensures Restored(h.blocks, PageBlocks(h.blocks, a), AlignedHdr(a), size) <==>
      NoneBehind(h.blocks, a, End(h.blocks, a) - AlignedHdr(a), size)
  {
    assert PageBlocks(h.blocks, a) == Split(h.blocks, a, AlignedHdr(a), true, true);
    hide Restored, NoneBehind, NextPage, PageBlocks, Seamed, Tiled, Indexed, Split;
    RestoresLead(h.start, h.end, h.blocks, a, AlignedHdr(a), size);
  }

  lemma SliverAbsorbed(h: State, a: int, size: nat)
    requires Wf(h) && a in h.blocks && h.blocks[a].hole && 0 < Gap(a) <= MIN_BLOCK
    requires AlignedHdr(a) + size + MIN_BLOCK <= End(h.blocks, a)
    ensures !Restored(h.blocks, PageBlocks(h.blocks, a), AlignedHdr(a), size)
  {
    hide Restored, NextPage, HolesMeet, Indexed;
    SliverHasPrev(h, a);
    var p :| IsPrev(h.blocks, p, a);
    SliverPrevInUse(h, a, p);
    PrevUnique(h.start, h.end, h.blocks, p, a);
    hide Wf, Tiled;
    SliverStays(h.start, h.end, h.blocks, p, a, AlignedHdr(a), size);
  }

  /** heap_alloc and then heap_free of the result restore the exact blocks if and only if no
      sliver was absorbed and the freed block has no older hole at an end it reaches. */
  lemma AllocFreeRestores(h: State, i: nat, size: nat, align: bool)
    requires Wf(h) && i < |h.index| && Fits(h.blocks, h.index[i], size, align)
    ensures var a := h.index[i]; var (r, ptr) := Carve(h, i, size, align);
      Live(r, ptr) && (Free(r, ptr).0.blocks == h.blocks <==>
        if align then Gap(a) > MIN_BLOCK && NoneBehind(h.blocks, a, End(h.blocks, a) - AlignedHdr(a), size)
        else !HolesMeet(h.blocks, a) && NoneBehind(h.blocks, a, Size(h.blocks, a), size))
  {
    hide Core, Seamed, Carve, Free, FreeBlocks, GiveBlocks, PageBlocks, NextPage, NoneBehind, HolesMeet, AlignedHdr;
    var a := h.index[i];
    ListedHole(h, i);
    CarveServes(h, i, size, align);
    CarveBlocks(h, i, size, align);
    var (r, ptr) := Carve(h, i, size, align);
    FreeOnBlocks(r, ptr);
    RestoresFrom(h, a, size, align);
  }

  lemma RestoresFrom(h: State, a: int, size: nat, align: bool)
    requires Wf(h) && Fits(h.blocks, a, size, align) && h.blocks[a].hole
    ensures var mid, u := if align then PageBlocks(h.blocks, a) else h.blocks, if align then AlignedHdr(a) else a;
      Restored(h.blocks, mid, u, size) <==>
      if align then Gap(a) > MIN_BLOCK && NoneBehind(h.blocks, a, End(h.blocks, a) - AlignedHdr(a), size)
      else !HolesMeet(h.blocks, a) && NoneBehind(h.blocks, a, Size(h.blocks, a), size)
  {
    hide HolesMeet, NoneBehind, Restored, Seamed, PageBlocks;
    if align { RestoresMoved(h, a, size); } else { RestoresInPlace(h.start, h.end, h.blocks, a, size); }
  }

  lemma FreeOnBlocks(h: State, ptr: int)
    requires Live(h, ptr)
    ensures Free(h, ptr).0.blocks == FreeBlocks(h.blocks, ptr - HDR)
  {}

  lemma CarveBlocks(h: State, i: nat, size: nat, align: bool)
    requires i < |h.index| && h.index[i] in h.blocks
    ensures var a := h.index[i]; var (r, ptr) := Carve(h, i, size, align);
      if MovesStart(a, align) then
        ptr == AlignedHdr(a) + HDR && r.blocks == GiveBlocks(PageBlocks(h.blocks, a), AlignedHdr(a), size)
      else ptr == a + HDR && r.blocks == GiveBlocks(h.blocks, a, size)
  {
    hide RemoveAt, Insert, GiveBlocks, PageBlocks;
  }
}
