/** Whole runs of a heap: place it, then any sequence of requests and of frees of live pointers. */
module HeapRuns {
  import opened Tiling
  import opened SortedSeq
  import opened HeapSpec
  import opened HeapTheorems

  /** Calls on a heap.  `grant` is what the page mapper answers during the call. */
  datatype Op = Request(size: nat, align: bool, grant: Grant) | Release(ptr: int)

  /** A heap and the pointers its callers hold, each with the size it was requested with. */
  datatype Session = Session(heap: State, live: map<int, nat>)

  /** The blocks in use are those of the live pointers, each with room for its request. */
  ghost predicate Sound(s: Session) {
    && Wf(s.heap)
    && (Roomy(s.heap) ==> Exact(s.heap))
    && (forall p | p in s.live ::
          p - HDR in InUse(s.heap.blocks) && s.live[p] + MIN_BLOCK <= Size(s.heap.blocks, p - HDR))
    && (forall a | a in InUse(s.heap.blocks) :: a + HDR in s.live)
  }

  ghost predicate Legal(s: Session, op: Op) { op.Release? ==> op.ptr in s.live }

  ghost function Step(s: Session, op: Op): Session
    requires Sound(s) && Legal(s, op)
  {
    match op
    case Request(size, align, grant) =>
      var (r, ptr) := Alloc(s.heap, size, align, grant);
      Session(r, if ptr == 0 then s.live else s.live[ptr := size])
    case Release(ptr) => Session(Free(s.heap, ptr).0, s.live - {ptr})
  }

  /** Every call keeps the session sound; the heap only ever grows, by whole extensions. */
  lemma StepSound(s: Session, op: Op)
    requires Sound(s) && Legal(s, op)
    ensures Sound(Step(s, op)) && Grown(s.heap, Step(s, op).heap)
    ensures forall p | p in s.live && op != Release(p) :: p in Step(s, op).live && Step(s, op).live[p] == s.live[p]
  {
    hide Sound, Alloc, Free;
    match op
    case Request(size, align, grant) => RequestSound(s, size, align, grant);
    case Release(ptr) => ReleaseSound(s, ptr);
  }

  ghost predicate Grown(h: State, r: State) {
    r.start == h.start && r.cap == h.cap && h.seams <= r.seams && h.end <= r.end && (r.end == h.end || h.end in r.seams)
  }

  lemma ReleaseSound(s: Session, ptr: int)
    requires Sound(s) && ptr in s.live
    ensures Sound(Step(s, Release(ptr))) && SameFrame(s.heap, Step(s, Release(ptr)).heap)
  {
    hide Core, Seamed, Free;
    assert ptr - HDR in InUse(s.heap.blocks);
    FreeKeeps(s.heap, ptr);
    var r := Step(s, Release(ptr));
    forall p | p in r.live
      ensures p - HDR in InUse(r.heap.blocks) && r.live[p] + MIN_BLOCK <= Size(r.heap.blocks, p - HDR)
    {
      assert p - HDR in InUse(s.heap.blocks);
      assert p - HDR in InUse(r.heap.blocks);
    }
  }

  lemma RequestSound(s: Session, size: nat, align: bool, grant: Grant)
    requires Sound(s)
    ensures var r := Step(s, Request(size, align, grant));
      && Sound(r) && Grown(s.heap, r.heap)
      && forall p | p in s.live :: p in r.live && r.live[p] == s.live[p]
  {
    hide Core, Seamed, Alloc;
    AllocServes(s.heap, size, align, grant);
    var r := Step(s, Request(size, align, grant));
    forall p | p in r.live
      ensures p - HDR in InUse(r.heap.blocks) && r.live[p] + MIN_BLOCK <= Size(r.heap.blocks, p - HDR)
    {
      if p in s.live { assert p - HDR in InUse(s.heap.blocks); }
    }
  }

  /** Each release in a sequence of calls is of a pointer that is live by then. */
  ghost predicate LegalRun(s: Session, ops: seq<Op>)
    requires Sound(s)
    decreases |ops|
  {
    ops == [] || (Legal(s, ops[0]) && (StepSound(s, ops[0]); LegalRun(Step(s, ops[0]), ops[1..])))
  }

  ghost function Run(s: Session, ops: seq<Op>): Session
    requires Sound(s) && LegalRun(s, ops)
    decreases |ops|
  {
    if ops == [] then s else StepSound(s, ops[0]); Run(Step(s, ops[0]), ops[1..])
  }

  /** Every run keeps the session sound, and a pointer nobody releases stays live. */
  lemma {:induction false} RunSound(s: Session, ops: seq<Op>)
    requires Sound(s) && LegalRun(s, ops)
    ensures Sound(Run(s, ops)) && Run(s, ops).heap.start == s.heap.start
    ensures Run(s, ops).heap.end == s.heap.end || Run(s, ops).heap.seams != {}
    ensures s.heap.seams <= Run(s, ops).heap.seams
    ensures forall p | p in s.live && Release(p) !in ops :: p in Run(s, ops).live && Run(s, ops).live[p] == s.live[p]
    decreases |ops|
  {
    hide Sound, Step;
    if ops != [] {
      StepSound(s, ops[0]);
      RunSound(Step(s, ops[0]), ops[1..]);
    }
  }

  lemma PlaceSound(base: int, pages: nat)
    requires 0 <= base && base + 4096 * pages <= LIMIT && Place(base, pages).Placed?
    ensures Sound(Session(Place(base, pages).heap, map[]))
  {
    PlaceWf(base, pages);
  }

  /** Two live pointers never share a byte, and no live range touches a header or footer. */
  lemma LiveDisjoint(s: Session, p: int, q: int)
    requires Sound(s) && p in s.live && q in s.live && p != q
    ensures p + s.live[p] + FTR <= q - HDR || q + s.live[q] + FTR <= p - HDR
    ensures forall a | a in s.heap.blocks :: p + s.live[p] <= a || a + HDR <= p
    ensures forall a | a in s.heap.blocks :: p + s.live[p] <= End(s.heap.blocks, a) - FTR || End(s.heap.blocks, a) <= p
  {
    assert p - HDR in s.heap.blocks && q - HDR in s.heap.blocks;
    hide Indexed, HolesMeet;
    assert p < q ==> End(s.heap.blocks, p - HDR) <= q - HDR;
    assert q < p ==> End(s.heap.blocks, q - HDR) <= p - HDR;
  }

  // ---------------------------------------------------------------- coalescing

  ghost function ReleaseOne(s: Session, p: int): (r: Session)
    requires Sound(s) && p in s.live
    ensures Sound(r) && SameFrame(s.heap, r.heap) && r.live == s.live - {p}
  {
    ReleaseSound(s, p);
    Step(s, Release(p))
  }

  /** Free every pointer of a list, in its order. */
  ghost function ReleaseAll(s: Session, ptrs: seq<int>): (r: Session)
    requires Sound(s) && Distinct(ptrs) && forall p | p in ptrs :: p in s.live
    ensures Sound(r) && SameFrame(s.heap, r.heap)
    ensures forall p :: p in r.live <==> p in s.live && p !in ptrs
    decreases |ptrs|
  {
    hide Sound, ReleaseOne;
    if ptrs == [] then s
    else
      assert ptrs[0] in ptrs && forall p | p in ptrs[1..] :: p in ptrs && p != ptrs[0];
      ReleaseAll(ReleaseOne(s, ptrs[0]), ptrs[1..])
  }

  /** With nothing in use, every block but the first begins at a seam. */
  lemma {:induction false} AllHoles(h: State)
    requires Wf(h) && InUse(h.blocks) == {}
    ensures h.blocks.Keys <= h.seams + {h.start} && |h.blocks| <= |h.seams| + 1
    ensures h.seams == {} ==> h.blocks == map[h.start := Block(h.end, true)]
  {
    forall a | a in h.blocks ensures h.blocks[a].hole { assert a !in InUse(h.blocks); }
    forall a | a in h.blocks && a != h.start ensures a in h.seams {
      var p := PrevExists(h.start, h.end, h.blocks, a);
      assert HolesMeet(h.blocks, a);
    }
    SubsetSize(h.blocks.Keys, h.seams + {h.start});
    assert |h.seams + {h.start}| <= |h.seams| + 1 by {
      assert h.start !in h.seams;
    }
    if h.seams == {} {
      assert End(h.blocks, h.start) == h.end;
      assert h.blocks.Keys == {h.start};
    }
  }

  lemma {:induction false} SubsetSize(a: set<int>, b: set<int>)
    requires a <= b
    ensures |a| <= |b|
  {
    assert b == a + (b - a);
  }

  /** Coalescing is complete: freeing all live pointers, in any order, leaves at most one hole more
      than there were extensions, and without extensions a single hole over the whole region. */
  lemma ReleasingAllCoalesces(s: Session, ptrs: seq<int>)
    requires Sound(s) && Distinct(ptrs) && (forall p :: p in ptrs <==> p in s.live)
    ensures var h := ReleaseAll(s, ptrs).heap;
      && InUse(h.blocks) == {}
      && |h.blocks| <= |s.heap.seams| + 1
      && (s.heap.seams == {} ==> h.blocks == map[s.heap.start := Block(s.heap.end, true)])
  {
    var r := ReleaseAll(s, ptrs);
    assert forall p :: p !in r.live;
    forall a ensures a !in InUse(r.heap.blocks) { assert a + HDR !in r.live; }
    AllHoles(r.heap);
  }

  /** From heap_place through any run in which the heap was never extended, and back: freeing what
      is live gives the very blocks that heap_place made. */
  lemma RoundTripToPlaced(base: int, pages: nat, ops: seq<Op>, ptrs: seq<int>)
    requires 0 <= base && base + 4096 * pages <= LIMIT && Place(base, pages).Placed?
    requires Sound(Session(Place(base, pages).heap, map[])) && LegalRun(Session(Place(base, pages).heap, map[]), ops)
    requires var s := Run(Session(Place(base, pages).heap, map[]), ops);
      s.heap.seams == {} && Sound(s) && Distinct(ptrs) && (forall p :: p in ptrs <==> p in s.live)
    ensures var s := Run(Session(Place(base, pages).heap, map[]), ops);
      ReleaseAll(s, ptrs).heap.blocks == Place(base, pages).heap.blocks
  {
    hide Sound, LegalRun, Run;
    var s0 := Session(Place(base, pages).heap, map[]);
    RunSound(s0, ops);
    ReleasingAllCoalesces(Run(s0, ops), ptrs);
  }
}
