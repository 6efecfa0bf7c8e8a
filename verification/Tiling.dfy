/** Blocks laid end to end over an address range, and the moves the heap makes on them:
    split one block in two, merge a block with its successor, change a hole flag, append. */
module Tiling {

  /** A block is known by its header address; `end` is the address just past its footer. */
  datatype Block = Block(end: int, hole: bool)

  /** Blocks by header address. */
  type Blocks = map<int, Block>

  /** sizeof(heap_hdr_t) and sizeof(heap_ftr_t) */
  const HDR := 12
  const FTR := 8
  const MIN_BLOCK := 20

  function End(blocks: Blocks, a: int): int
    requires a in blocks
  {
    blocks[a].end
  }

  function Size(blocks: Blocks, a: int): int
    requires a in blocks
  {
    blocks[a].end - a
  }

  /** The blocks cover [start, end) exactly: each is big enough for its header and footer, ends
      where another begins or at `end`, and no two overlap. */
  ghost predicate Tiled(start: int, end: int, blocks: Blocks) {
    && start in blocks
    && (forall a | a in blocks :: start <= a && a + MIN_BLOCK <= blocks[a].end <= end)
    && (forall a {:trigger End(blocks, a)} | a in blocks :: End(blocks, a) == end || End(blocks, a) in blocks)
    && (forall a, b | a in blocks && b in blocks && a < b :: blocks[a].end <= b)
  }

  /** Cut the block at a in two at address c. */
  function Split(blocks: Blocks, a: int, c: int, first: bool, second: bool): Blocks
    requires a in blocks
  {
    blocks[a := Block(c, first)][c := Block(blocks[a].end, second)]
  }

  /** Join the block at a with the one that starts where it ends. */
  function Merge(blocks: Blocks, a: int, hole: bool): Blocks
    requires a in blocks && End(blocks, a) in blocks
  {
    (blocks - {blocks[a].end})[a := Block(blocks[blocks[a].end].end, hole)]
  }

  function SetHole(blocks: Blocks, a: int, hole: bool): Blocks
    requires a in blocks
  {
    blocks[a := Block(blocks[a].end, hole)]
  }

  /** p is the block that ends where a begins. */
  predicate IsPrev(blocks: Blocks, p: int, a: int) {
    p in blocks && End(blocks, p) == a
  }

  /** A hole begins at e where another one ends. */
  ghost predicate HolesMeet(blocks: Blocks, e: int) {
    e in blocks && blocks[e].hole && exists p :: IsPrev(blocks, p, e) && blocks[p].hole
  }

  lemma SplitTiled(start: int, end: int, blocks: Blocks, a: int, c: int, first: bool, second: bool)
    requires Tiled(start, end, blocks) && a in blocks
    requires a + MIN_BLOCK <= c <= blocks[a].end - MIN_BLOCK
    ensures c !in blocks
    ensures Tiled(start, end, Split(blocks, a, c, first, second))
  {
    var r := Split(blocks, a, c, first, second);
    forall x {:trigger End(r, x)} | x in r ensures End(r, x) == end || End(r, x) in r {
      assert End(r, x) == if x == a then c else End(blocks, if x == c then a else x);
    }
  }

  lemma MergeTiled(start: int, end: int, blocks: Blocks, a: int, hole: bool)
    requires Tiled(start, end, blocks) && a in blocks && End(blocks, a) in blocks
    ensures Tiled(start, end, Merge(blocks, a, hole))
  {
    var r := Merge(blocks, a, hole);
    forall x {:trigger End(r, x)} | x in r ensures End(r, x) == end || End(r, x) in r {
      assert End(r, x) == End(blocks, if x == a then End(blocks, a) else x);
    }
  }

  lemma SetHoleTiled(start: int, end: int, blocks: Blocks, a: int, hole: bool)
    requires Tiled(start, end, blocks) && a in blocks
    ensures Tiled(start, end, SetHole(blocks, a, hole))
  {
    var r := SetHole(blocks, a, hole);
    forall x {:trigger End(r, x)} | x in r ensures End(r, x) == end || End(r, x) in r {
      assert End(blocks, x) == End(r, x);
    }
  }

  lemma AppendTiled(start: int, end: int, blocks: Blocks, to: int, hole: bool)
    requires Tiled(start, end, blocks) && end + MIN_BLOCK <= to
    ensures start < end && end !in blocks
    ensures Tiled(start, to, blocks[end := Block(to, hole)])
  {
    var r := blocks[end := Block(to, hole)];
    forall x {:trigger End(r, x)} | x in r ensures End(r, x) == to || End(r, x) in r {
      if x != end { assert End(blocks, x) == End(r, x); }
    }
  }

  /** Splitting a hole makes holes meet at the cut, if both pieces are holes, and nowhere else anew. */
  lemma SplitMeets(start: int, end: int, blocks: Blocks, a: int, c: int, first: bool, e: int)
    requires Tiled(start, end, blocks) && a in blocks && blocks[a].hole
    requires a + MIN_BLOCK <= c <= blocks[a].end - MIN_BLOCK
    requires HolesMeet(Split(blocks, a, c, first, true), e)
    ensures (e == c && first) || HolesMeet(blocks, e)
    ensures !first ==> e != a
  {}

  /** Merging makes holes meet only at an outer end of a block that was in use before. */
  lemma MergeMeets(start: int, end: int, blocks: Blocks, a: int, hole: bool, e: int)
    requires Tiled(start, end, blocks) && a in blocks && End(blocks, a) in blocks
    requires HolesMeet(Merge(blocks, a, hole), e)
    ensures var b := End(blocks, a);
      || HolesMeet(blocks, e)
      || (hole && e == a && !blocks[a].hole)
      || (hole && e == End(blocks, b) && !blocks[b].hole)
    ensures e != End(blocks, a)
  {}

  lemma SetHoleMeets(start: int, end: int, blocks: Blocks, a: int, hole: bool, e: int)
    requires Tiled(start, end, blocks) && a in blocks
    requires HolesMeet(SetHole(blocks, a, hole), e)
    ensures HolesMeet(blocks, e) || (hole && (e == a || e == End(blocks, a)))
    ensures e == a ==> hole && exists p :: IsPrev(blocks, p, a) && blocks[p].hole
  {}

  lemma AppendMeets(start: int, end: int, blocks: Blocks, to: int, e: int)
    requires Tiled(start, end, blocks) && end < to
    requires HolesMeet(blocks[end := Block(to, true)], e)
    ensures HolesMeet(blocks, e) || e == end
  {}

  /** Move the boundary between an in-use block p and the hole a behind it up to c. */
  lemma ShiftBoundary(start: int, end: int, blocks: Blocks, p: int, a: int, c: int)
    requires Tiled(start, end, blocks) && IsPrev(blocks, p, a) && !blocks[p].hole && a in blocks && blocks[a].hole
    requires a < c <= blocks[a].end - MIN_BLOCK
    ensures var r := Split(Merge(blocks, p, false), p, c, false, true);
      && Tiled(start, end, r) && c !in blocks
      && r == (blocks - {a})[p := Block(c, false)][c := Block(blocks[a].end, true)]
  {
    assert p + MIN_BLOCK <= a;
    assert c !in blocks;
    hide Tiled;
    MergeTiled(start, end, blocks, p, false);
    SplitTiled(start, end, Merge(blocks, p, false), p, c, false, true);
  }

  lemma ShiftMeets(start: int, end: int, blocks: Blocks, p: int, a: int, c: int, e: int)
    requires Tiled(start, end, blocks) && IsPrev(blocks, p, a) && !blocks[p].hole && a in blocks && blocks[a].hole
    requires a < c <= blocks[a].end - MIN_BLOCK
    requires HolesMeet((blocks - {a})[p := Block(c, false)][c := Block(blocks[a].end, true)], e)
    ensures HolesMeet(blocks, e)
  {}

  /** Splitting and merging undo each other. */
  lemma SplitThenMerge(blocks: Blocks, a: int, c: int, first: bool, second: bool)
    requires a in blocks && a != c && c !in blocks
    ensures End(Split(blocks, a, c, first, second), a) == c
    ensures Merge(Split(blocks, a, c, first, second), a, blocks[a].hole) == blocks
  {}

  /** Every address of the region lies in a block. */
  lemma {:induction false} Covering(start: int, end: int, blocks: Blocks, x: int) returns (a: int)
    requires Tiled(start, end, blocks) && start <= x < end
    ensures a in blocks && a <= x < End(blocks, a)
  {
    a := start;
    while End(blocks, a) <= x
      invariant a in blocks && a <= x
      decreases x - a
    {
      a := End(blocks, a);
    }
  }

  /** Every block but the first has a predecessor. */
  lemma PrevExists(start: int, end: int, blocks: Blocks, a: int) returns (p: int)
    requires Tiled(start, end, blocks) && a in blocks && a != start
    ensures IsPrev(blocks, p, a) && p < a
  {
    p := Covering(start, end, blocks, a - 1);
  }

  lemma PrevBefore(start: int, end: int, blocks: Blocks, p: int, a: int)
    requires Tiled(start, end, blocks) && IsPrev(blocks, p, a)
    ensures p + MIN_BLOCK <= a
  {}

  lemma Apart(start: int, end: int, blocks: Blocks, a: int, x: int)
    requires Tiled(start, end, blocks) && a in blocks && x in blocks && x != a
    ensures x < End(blocks, x) && (End(blocks, x) <= a || End(blocks, a) <= x)
  {}

  lemma PrevUnique(start: int, end: int, blocks: Blocks, p: int, a: int)
    requires Tiled(start, end, blocks) && IsPrev(blocks, p, a)
    ensures forall q | IsPrev(blocks, q, a) :: q == p
  {}

  /** Without its last block a tiling covers the region before that block. */
  lemma DropLast(start: int, end: int, blocks: Blocks, b: int)
    requires Tiled(start, end, blocks) && b in blocks && End(blocks, b) == end && b != start
    ensures Tiled(start, b, blocks - {b})
  {
    var rest := blocks - {b};
    forall x {:trigger End(rest, x)} | x in rest ensures End(rest, x) == b || End(rest, x) in rest {
      assert End(blocks, x) == End(rest, x);
    }
  }

  /** At 20 bytes a block or more, a region holds at most a twentieth as many blocks as bytes. */
  lemma {:induction false} BlockCount(start: int, end: int, blocks: Blocks)
    requires Tiled(start, end, blocks)
    ensures 20 * |blocks| <= end - start
    decreases |blocks|
  {
    var b := Covering(start, end, blocks, end - 1);
    var rest := blocks - {b};
    assert blocks == rest[b := blocks[b]] && |blocks| == |rest| + 1;
    assert End(blocks, b) == end && b + MIN_BLOCK <= end && start <= b;
    if b != start {
      DropLast(start, end, blocks, b);
      hide Tiled;
      BlockCount(start, b, rest);
    } else {
      assert forall x | x in blocks :: x == b;
      assert rest == map[];
    }
  }
}
