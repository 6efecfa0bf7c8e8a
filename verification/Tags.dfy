/** Block headers and footers as bytes in memory, and the stores made through pointers to them. */
module Tags {
  import opened Bytes
  import opened Tiling

  const HDR_MAGIC: Word := 0x8e99da12
  const FTR_MAGIC: Word := 0x981a7cb4

  /** heap_hdr_t { hole; size; magic } at offsets 0, 4 and 8. */
  ghost predicate HdrAt(m: Memory, a: int, hole: bool, size: int) {
    Mapped(m, a, 12) && m[a] == (if hole then 1 else 0) && Get32(m, a + 4) == size && Get32(m, a + 8) == HDR_MAGIC
  }

  /** heap_ftr_t { hdr; magic } at offsets 0 and 4. */
  ghost predicate FtrAt(m: Memory, f: int, hdr: int) {
    Mapped(m, f, 8) && Get32(m, f) == hdr && Get32(m, f + 4) == FTR_MAGIC
  }

  ghost predicate Tagged(m: Memory, a: int, b: Block) {
    a + MIN_BLOCK <= b.end && Mapped(m, a, b.end - a) && HdrAt(m, a, b.hole, b.end - a) && FtrAt(m, b.end - FTR, a)
  }

  /** The bytes of a block's header and footer: the hole flag at 0, the size at 4 and 0x8e99da12 at 8, and in
      the last 8 bytes the header's address and 0x981a7cb4, lowest byte first. */
  lemma TagBytes(m: Memory, a: int, b: Block)
    requires Tagged(m, a, b)
    ensures a + 20 <= b.end && forall x | a <= x < b.end :: x in m
    ensures m[a] == (if b.hole then 1 else 0)
    ensures var s0: int, s1: int, s2: int, s3: int := m[a + 4], m[a + 5], m[a + 6], m[a + 7];
      s0 + 0x100 * s1 + 0x1_0000 * s2 + 0x100_0000 * s3 == b.end - a
    ensures m[a + 8] == 0x12 && m[a + 9] == 0xda && m[a + 10] == 0x99 && m[a + 11] == 0x8e
    ensures var e := b.end; var h0: int, h1: int, h2: int, h3: int := m[e - 8], m[e - 7], m[e - 6], m[e - 5];
      h0 + 0x100 * h1 + 0x1_0000 * h2 + 0x100_0000 * h3 == a
    ensures var e := b.end; m[e - 4] == 0xb4 && m[e - 3] == 0x7c && m[e - 2] == 0x1a && m[e - 1] == 0x98
  {
    MagicBytes(m, a + 8, 0x12, 0xda, 0x99, 0x8e);
    MagicBytes(m, b.end - 4, 0xb4, 0x7c, 0x1a, 0x98);
  }

  lemma MagicBytes(m: Memory, a: int, b0: int, b1: int, b2: int, b3: int)
    requires 0 <= b0 < 256 && 0 <= b1 < 256 && 0 <= b2 < 256 && 0 <= b3 < 256
    requires Mapped(m, a, 4) && Get32(m, a) == b0 + 0x100 * b1 + 0x1_0000 * b2 + 0x100_0000 * b3
    ensures m[a] == b0 && m[a + 1] == b1 && m[a + 2] == b2 && m[a + 3] == b3
  {
    WordBytes(m, map[a := b0, a + 1 := b1, a + 2 := b2, a + 3 := b3], a);
  }

  /** A store into [lo, hi) changes no header or footer that lies outside. */
  ghost predicate KeepsTags(m: Memory, r: Memory, lo: int, hi: int) {
    && SameOutside(m, r, lo, hi)
    && (forall a, hole, size | HdrAt(m, a, hole, size) && (a + HDR <= lo || hi <= a) :: HdrAt(r, a, hole, size))
    && (forall f, hdr | FtrAt(m, f, hdr) && (f + FTR <= lo || hi <= f) :: FtrAt(r, f, hdr))
  }

  lemma FramesOutside(m: Memory, r: Memory, lo: int, hi: int)
    requires SameOutside(m, r, lo, hi)
    ensures KeepsTags(m, r, lo, hi)
  {}

  /** hdr->hole = v */
  function SetHoleField(m: Memory, a: int, v: bool): (r: Memory)
    requires Mapped(m, a, 12)
    ensures KeepsTags(m, r, a, a + 1)
    ensures forall hole, size | HdrAt(m, a, hole, size) :: HdrAt(r, a, v, size)
  {
    var r := Put8(m, a, if v then 1 else 0);
    WordsOutside(m, r, a, a + 1);
    FramesOutside(m, r, a, a + 1);
    r
  }

  /** hdr->size = v */
  function SetSizeField(m: Memory, a: int, v: Word): (r: Memory)
    requires Mapped(m, a, 12)
    ensures KeepsTags(m, r, a + 4, a + 8)
    ensures forall hole, size | HdrAt(m, a, hole, size) :: HdrAt(r, a, hole, v)
  {
    var r := Put32(m, a + 4, v);
    WordsOutside(m, r, a + 4, a + 8);
    FramesOutside(m, r, a + 4, a + 8);
    r
  }

  /** The three stores that make a header. */
  function PutHdr(m: Memory, a: int, hole: bool, size: Word): (r: Memory)
    requires Mapped(m, a, 12)
    ensures KeepsTags(m, r, a, a + 12) && HdrAt(r, a, hole, size)
  {
    var m2 := Put32(Put8(m, a, if hole then 1 else 0), a + 4, size);
    var r := Put32(m2, a + 8, HDR_MAGIC);
    WordsOutside(m2, r, a + 8, a + 12);
    FramesOutside(m, r, a, a + 12);
    r
  }

  /** ftr->hdr = hdr */
  function SetHdrField(m: Memory, f: int, hdr: Word): (r: Memory)
    requires Mapped(m, f, 8)
    ensures KeepsTags(m, r, f, f + 4)
    ensures forall old_hdr | FtrAt(m, f, old_hdr) :: FtrAt(r, f, hdr)
  {
    var r := Put32(m, f, hdr);
    WordsOutside(m, r, f, f + 4);
    FramesOutside(m, r, f, f + 4);
    r
  }

  /** The two stores that make a footer. */
  function PutFtr(m: Memory, f: int, hdr: Word): (r: Memory)
    requires Mapped(m, f, 8)
    ensures KeepsTags(m, r, f, f + 8) && FtrAt(r, f, hdr)
  {
    var m1 := Put32(m, f, hdr);
    var r := Put32(m1, f + 4, FTR_MAGIC);
    WordsOutside(m1, r, f + 4, f + 8);
    FramesOutside(m, r, f, f + 8);
    r
  }

  /** memmove of a footer: both words are read before either is written. */
  function MoveFtr(m: Memory, dest: int, src: int): (r: Memory)
    requires Mapped(m, dest, 8) && Mapped(m, src, 8)
    ensures KeepsTags(m, r, dest, dest + 8)
    ensures forall hdr | FtrAt(m, src, hdr) :: FtrAt(r, dest, hdr)
  {
    var m1 := Put32(m, dest, Get32(m, src));
    var r := Put32(m1, dest + 4, Get32(m, src + 4));
    WordsOutside(m1, r, dest + 4, dest + 8);
    FramesOutside(m, r, dest, dest + 8);
    r
  }

  /** Header and footer of one block over [a, e). */
  function PutBlock(m: Memory, a: int, e: int, hole: bool): Memory
    requires 0 <= a && a + MIN_BLOCK <= e < 0x1_0000_0000 && Mapped(m, a, e - a)
  {
    hide HdrAt, FtrAt, Get32, SetSizeField, SetHoleField, PutHdr, PutFtr, SetHdrField, MoveFtr;
    PutFtr(PutHdr(m, a, hole, e - a), e - FTR, a)
  }

  lemma PutBlockTags(m: Memory, a: int, e: int, hole: bool)
    requires 0 <= a && a + MIN_BLOCK <= e < 0x1_0000_0000 && Mapped(m, a, e - a)
    ensures var r := PutBlock(m, a, e, hole); SameOutside(m, r, a, e) && Tagged(r, a, Block(e, hole))
  {
    hide HdrAt, FtrAt, Get32, SetSizeField, SetHoleField, PutHdr, PutFtr, SetHdrField, MoveFtr;
  }

  /** Shrink the hole [a, e) to an in-use block [a, c), with a hole [c, e) behind it. */
  function CutFront(m: Memory, a: int, c: int, e: int): Memory
    requires 0 <= a && a + MIN_BLOCK <= c <= e - MIN_BLOCK && e < 0x1_0000_0000 && Tagged(m, a, Block(e, true))
  {
    hide HdrAt, FtrAt, Get32, SetSizeField, SetHoleField, PutHdr, PutFtr, SetHdrField, MoveFtr;
    var m1 := SetHoleField(SetSizeField(m, a, c - a), a, false);
    var m2 := PutHdr(PutFtr(m1, c - FTR, a), c, true, e - c);
    SetHdrField(m2, e - FTR, c)
  }

  lemma CutFrontTags(m: Memory, a: int, c: int, e: int)
    requires 0 <= a && a + MIN_BLOCK <= c <= e - MIN_BLOCK && e < 0x1_0000_0000 && Tagged(m, a, Block(e, true))
    ensures var r := CutFront(m, a, c, e);
      SameOutside(m, r, a, e) && Tagged(r, a, Block(c, false)) && Tagged(r, c, Block(e, true))
  {
    hide HdrAt, FtrAt, Get32, SetSizeField, SetHoleField, PutHdr, PutFtr, SetHdrField, MoveFtr;
  }

  /** Shrink the hole [a, e) to [a, c), with another hole [c, e) behind it. */
  function CutBack(m: Memory, a: int, c: int, e: int): Memory
    requires 0 <= a && a + MIN_BLOCK <= c <= e - MIN_BLOCK && e < 0x1_0000_0000 && Tagged(m, a, Block(e, true))
  {
    hide HdrAt, FtrAt, Get32, SetSizeField, SetHoleField, PutHdr, PutFtr, SetHdrField, MoveFtr;
    var m1 := PutFtr(SetSizeField(m, a, c - a), c - FTR, a);
    PutHdr(SetHdrField(m1, e - FTR, c), c, true, e - c)
  }

  lemma CutBackTags(m: Memory, a: int, c: int, e: int)
    requires 0 <= a && a + MIN_BLOCK <= c <= e - MIN_BLOCK && e < 0x1_0000_0000 && Tagged(m, a, Block(e, true))
    ensures var r := CutBack(m, a, c, e);
      SameOutside(m, r, a, e) && Tagged(r, a, Block(c, true)) && Tagged(r, c, Block(e, true))
  {
    hide HdrAt, FtrAt, Get32, SetSizeField, SetHoleField, PutHdr, PutFtr, SetHdrField, MoveFtr;
  }

  /** What is done after the footer has been moved: lines 229-233. */
  function Rehead(m: Memory, c: int, e: int): Memory
    requires 0 <= c <= e - MIN_BLOCK && e < 0x1_0000_0000 && Mapped(m, c, e - c)
  {
    PutHdr(SetHdrField(m, e - FTR, c), c, true, e - c)
  }

  /** Give the first c - a bytes of the hole [a, e) to the block [p, a) in front of it. */
  function Absorb(m: Memory, p: int, a: int, c: int, e: int, ghost hole: bool): Memory
    requires 0 <= p && p + MIN_BLOCK <= a < c <= e - MIN_BLOCK && e < 0x1_0000_0000
    requires Tagged(m, p, Block(a, hole)) && Tagged(m, a, Block(e, true))
  {
    hide HdrAt, FtrAt, Get32, SetSizeField, SetHoleField, PutHdr, PutFtr, SetHdrField, MoveFtr;
    Rehead(MoveFtr(SetSizeField(m, p, c - p), c - FTR, a - FTR), c, e)
  }

  lemma AbsorbTags(m: Memory, p: int, a: int, c: int, e: int, hole: bool)
    requires 0 <= p && p + MIN_BLOCK <= a < c <= e - MIN_BLOCK && e < 0x1_0000_0000
    requires Tagged(m, p, Block(a, hole)) && Tagged(m, a, Block(e, true))
    ensures var r := Absorb(m, p, a, c, e, hole); SameOutside(m, r, p, e) && SameOn(m, r, p + HDR, a - FTR)
    ensures var r := Absorb(m, p, a, c, e, hole); Tagged(r, p, Block(c, hole)) && Tagged(r, c, Block(e, true))
  {
    hide HdrAt, FtrAt, Get32, SetSizeField, SetHoleField, PutHdr, PutFtr, SetHdrField, MoveFtr;
  }

  /** Join the blocks [a, b) and [b, e) into one hole: only the outer header and footer are touched. */
  function Join(m: Memory, a: int, b: int, e: int, ghost first: bool, ghost second: bool): Memory
    requires 0 <= a && e < 0x1_0000_0000 && Tagged(m, a, Block(b, first)) && Tagged(m, b, Block(e, second))
  {
    hide HdrAt, FtrAt, Get32, SetSizeField, SetHoleField, PutHdr, PutFtr, SetHdrField, MoveFtr;
    SetHdrField(SetSizeField(m, a, e - a), e - FTR, a)
  }

  lemma JoinTags(m: Memory, a: int, b: int, e: int, first: bool, second: bool)
    requires 0 <= a && e < 0x1_0000_0000 && Tagged(m, a, Block(b, first)) && Tagged(m, b, Block(e, second))
    ensures var r := Join(m, a, b, e, first, second); SameOutside(m, r, a, e) && Tagged(r, a, Block(e, first))
  {
    hide HdrAt, FtrAt, Get32, SetSizeField, SetHoleField, PutHdr, PutFtr, SetHdrField, MoveFtr;
  }

  /** Absorb with the pointer arithmetic as lib/heap.c:222 spells it: the distance to the moved
      footer is counted in 12-byte headers, 96 bytes instead of 8. */
  function AbsorbAsSpelt(m: Memory, p: int, a: int, c: int, e: int, ghost hole: bool): Memory
    requires 0 <= p && p + MIN_BLOCK <= a < c <= e - MIN_BLOCK && e < 0x1_0000_0000
    requires Tagged(m, p, Block(a, hole)) && Tagged(m, a, Block(e, true)) && Mapped(m, c - 96, 8)
  {
    hide HdrAt, FtrAt, Get32, SetSizeField, SetHoleField, PutHdr, PutFtr, SetHdrField, MoveFtr;
    Rehead(MoveFtr(SetSizeField(m, p, c - p), c - 96, a - FTR), c, e)
  }

  /** So spelt, the grown block ends in its own footer exactly if its last 8 bytes were one before. */
  lemma SpeltFooterIff(m: Memory, p: int, a: int, c: int, e: int, hole: bool)
    requires 0 <= p && p + MIN_BLOCK <= a < c <= e - MIN_BLOCK && e < 0x1_0000_0000
    requires Tagged(m, p, Block(a, hole)) && Tagged(m, a, Block(e, true)) && Mapped(m, c - 96, 8)
    ensures FtrAt(AbsorbAsSpelt(m, p, a, c, e, hole), c - FTR, p) <==> FtrAt(m, c - FTR, p)
  {
    hide HdrAt, FtrAt, Get32, SetSizeField, SetHoleField, PutHdr, PutFtr, SetHdrField, MoveFtr;
    var r := AbsorbAsSpelt(m, p, a, c, e, hole);
    assert SameOn(m, r, c - FTR, c);
    SameFooter(m, r, c - FTR, p);
  }

  lemma SameFooter(m: Memory, r: Memory, f: int, hdr: int)
    requires SameOn(m, r, f, f + FTR)
    ensures FtrAt(m, f, hdr) <==> FtrAt(r, f, hdr)
  {}

  /** Equal words are equal bytes. */
  lemma WordBytes(m: Memory, r: Memory, a: int)
    requires Mapped(m, a, 4) && Mapped(r, a, 4) && Get32(m, a) == Get32(r, a)
    ensures SameOn(m, r, a, a + 4)
  {
    var m0: int, m1: int, m2: int, m3: int := m[a], m[a + 1], m[a + 2], m[a + 3];
    var r0: int, r1: int, r2: int, r3: int := r[a], r[a + 1], r[a + 2], r[a + 3];
    LowByte(m0, m1 + 0x100 * (m2 + 0x100 * m3), r0, r1 + 0x100 * (r2 + 0x100 * r3));
    LowByte(m1, m2 + 0x100 * m3, r1, r2 + 0x100 * r3);
    LowByte(m2, m3, r2, r3);
    forall x | a <= x < a + 4 ensures x in m && x in r && r[x] == m[x] {
      assert x == a || x == a + 1 || x == a + 2 || x == a + 3;
    }
  }

  lemma LowByte(b: int, h: int, b': int, h': int)
    requires 0 <= b < 0x100 && 0 <= b' < 0x100 && b + 0x100 * h == b' + 0x100 * h'
    ensures b == b' && h == h'
  {}

  lemma FooterBytes(m: Memory, r: Memory, f: int, hdr: int)
    requires FtrAt(m, f, hdr)
    ensures FtrAt(r, f, hdr) <==> SameOn(m, r, f, f + FTR)
  {
    if FtrAt(r, f, hdr) {
      hide Get32;
      WordBytes(m, r, f);
      WordBytes(m, r, f + 4);
    }
    if SameOn(m, r, f, f + FTR) { SameFooter(m, r, f, hdr); }
  }

  lemma ReheadKeeps(m: Memory, c: int, e: int)
    requires 0 <= c <= e - MIN_BLOCK && e < 0x1_0000_0000 && Mapped(m, c, e - c)
    ensures SameOutside(m, Rehead(m, c, e), c, e)
  {
    hide HdrAt, FtrAt, Get32, PutHdr, SetHdrField;
  }

  /** The whole truth about line 222: as spelt, the stores leave the memory that was meant if and only if
      the 8 bytes at c - 8, which they miss, and the 8 bytes at c - 96, which they hit instead, already
      held the footer of p (the latter once the new size of p is stored, should they overlap it). */
  lemma SpeltRightIff(m: Memory, p: int, a: int, c: int, e: int, hole: bool)
    requires 0 <= p && p + MIN_BLOCK <= a < c <= e - MIN_BLOCK && e < 0x1_0000_0000
    requires Tagged(m, p, Block(a, hole)) && Tagged(m, a, Block(e, true)) && Mapped(m, c - 96, 8)
    ensures AbsorbAsSpelt(m, p, a, c, e, hole) == Absorb(m, p, a, c, e, hole) <==>
      FtrAt(m, c - FTR, p) && FtrAt(SetSizeField(m, p, c - p), c - 96, p)
  {
    hide HdrAt, FtrAt, Get32, SetSizeField, MoveFtr, Rehead, SameOn, SameOutside;
    var m0 := SetSizeField(m, p, c - p);
    MovedFooters(m, p, a, c, e, hole);
    ReheadedSame(m0, MoveFtr(m0, c - FTR, a - FTR), MoveFtr(m0, c - 96, a - FTR), c, e);
  }

  /** Moving the footer, to either place, changes nothing exactly if it is there already. */
  lemma MovedFooters(m: Memory, p: int, a: int, c: int, e: int, hole: bool)
    requires 0 <= p && p + MIN_BLOCK <= a < c <= e - MIN_BLOCK && e < 0x1_0000_0000
    requires Tagged(m, p, Block(a, hole)) && Tagged(m, a, Block(e, true)) && Mapped(m, c - 96, 8)
    ensures var m0 := SetSizeField(m, p, c - p);
      && Mapped(m0, c - FTR, e - c + FTR) && Mapped(m0, c - 96, 8) && Mapped(m0, a - FTR, 8)
      && SameOutside(m0, MoveFtr(m0, c - FTR, a - FTR), c - FTR, c)
      && SameOutside(m0, MoveFtr(m0, c - 96, a - FTR), c - 96, c - 88)
      && (SameOn(MoveFtr(m0, c - FTR, a - FTR), m0, c - FTR, c) <==> FtrAt(m, c - FTR, p))
      && (SameOn(MoveFtr(m0, c - 96, a - FTR), m0, c - 96, c - 88) <==> FtrAt(m0, c - 96, p))
  {
    hide HdrAt, FtrAt, Get32, SetSizeField, MoveFtr;
    var m0 := SetSizeField(m, p, c - p);
    assert SameOn(m, m0, c - FTR, c);
    SameFooter(m, m0, c - FTR, p);
    FooterBytes(MoveFtr(m0, c - FTR, a - FTR), m0, c - FTR, p);
    FooterBytes(MoveFtr(m0, c - 96, a - FTR), m0, c - 96, p);
  }

  lemma ReheadedSame(m0: Memory, meant: Memory, spelt: Memory, c: int, e: int)
    requires 0 <= c <= e - MIN_BLOCK && e < 0x1_0000_0000 && Mapped(m0, c - FTR, e - c + FTR) && Mapped(m0, c - 96, 8)
    requires SameOutside(m0, meant, c - FTR, c) && SameOutside(m0, spelt, c - 96, c - 88)
    ensures Rehead(spelt, c, e) == Rehead(meant, c, e) <==>
      SameOn(meant, m0, c - FTR, c) && SameOn(spelt, m0, c - 96, c - 88)
  {
    hide PutHdr, SetHdrField, HdrAt, FtrAt, Get32, Rehead;
    ReheadKeeps(meant, c, e);
    ReheadKeeps(spelt, c, e);
    if SameOn(meant, m0, c - FTR, c) && SameOn(spelt, m0, c - 96, c - 88) {
      assert forall x | x in m0 :: meant[x] == m0[x] && spelt[x] == m0[x];
      assert meant == spelt;
    }
    if Rehead(spelt, c, e) == Rehead(meant, c, e) {
      forall x | c - FTR <= x < c || c - 96 <= x < c - 88 ensures meant[x] == spelt[x] {
        assert Rehead(spelt, c, e)[x] == Rehead(meant, c, e)[x];
      }
    }
  }

  /** What line 222 hits: a stretch of bytes before p, of another block or below the heap, or within the
      payload of p, survives if and only if its 8 bytes at c - 96 held the footer of p already. */
  lemma SpeltHitsIff(m: Memory, p: int, a: int, c: int, e: int, hole: bool, lo: int, hi: int)
    requires 0 <= p && p + MIN_BLOCK <= a < c <= e - MIN_BLOCK && e < 0x1_0000_0000
    requires Tagged(m, p, Block(a, hole)) && Tagged(m, a, Block(e, true))
    requires lo <= c - 96 && c - 88 <= hi && Mapped(m, lo, hi - lo) && (hi <= p || (p + HDR <= lo && hi <= a))
    ensures SameOn(m, AbsorbAsSpelt(m, p, a, c, e, hole), lo, hi) <==> FtrAt(m, c - 96, p)
  {
    hide HdrAt, FtrAt, Get32, SetSizeField, PutHdr, SetHdrField, MoveFtr, Rehead;
    var m0 := SetSizeField(m, p, c - p);
    var m1 := MoveFtr(m0, c - 96, a - FTR);
    var r := AbsorbAsSpelt(m, p, a, c, e, hole);
    ReheadKeeps(m1, c, e);
    assert FtrAt(m1, c - 96, p) && SameOutside(m0, m1, c - 96, c - 88) && SameOutside(m, m0, p + 4, p + 8);
    assert SameOn(m1, r, c - 96, c - 88);
    FooterBytes(m1, m, c - 96, p);
    assert SameOn(m1, m, c - 96, c - 88) <==> SameOn(m, r, lo, hi);
  }

  /** So, with the store inside the payload of p, absorption as spelt keeps the promise AbsorbTags makes of
      p if and only if both places held that footer before. */
  lemma SpeltPromiseIff(m: Memory, p: int, a: int, c: int, e: int, hole: bool)
    requires 0 <= p && p + MIN_BLOCK <= a < c <= e - MIN_BLOCK && e < 0x1_0000_0000 && c <= a + MIN_BLOCK
    requires Tagged(m, p, Block(a, hole)) && Tagged(m, a, Block(e, true)) && p + HDR <= c - 96
    ensures Mapped(m, c - 96, 8)
    ensures var r := AbsorbAsSpelt(m, p, a, c, e, hole);
      Tagged(r, p, Block(c, hole)) && SameOn(m, r, p + HDR, a - FTR) <==> FtrAt(m, c - FTR, p) && FtrAt(m, c - 96, p)
  {
    hide HdrAt, FtrAt, Get32, SetSizeField, PutHdr, SetHdrField, MoveFtr, Rehead;
    SpeltFooterIff(m, p, a, c, e, hole);
    SpeltHitsIff(m, p, a, c, e, hole, p + HDR, a - FTR);
    SpeltHeader(m, p, a, c, e, hole);
  }

  lemma SpeltHeader(m: Memory, p: int, a: int, c: int, e: int, hole: bool)
    requires 0 <= p && p + MIN_BLOCK <= a < c <= e - MIN_BLOCK && e < 0x1_0000_0000 && p + HDR <= c - 96
    requires Tagged(m, p, Block(a, hole)) && Tagged(m, a, Block(e, true)) && Mapped(m, c - 96, 8)
    ensures var r := AbsorbAsSpelt(m, p, a, c, e, hole); HdrAt(r, p, hole, c - p) && r.Keys == m.Keys
  {
    hide HdrAt, FtrAt, Get32, SetSizeField, PutHdr, SetHdrField, MoveFtr;
  }

  /** They were not if the sliver has 12 bytes: the last word is then the magic of the old header. */
  lemma SpeltBreaksTwelve(m: Memory, p: int, a: int, e: int, hole: bool)
    requires 0 <= p && p + MIN_BLOCK <= a <= e - 32 && e < 0x1_0000_0000
    requires Tagged(m, p, Block(a, hole)) && Tagged(m, a, Block(e, true)) && Mapped(m, a - 84, 8)
    ensures !Tagged(AbsorbAsSpelt(m, p, a, a + 12, e, hole), p, Block(a + 12, hole))
  {
    hide AbsorbAsSpelt, Get32;
    SpeltFooterIff(m, p, a, a + 12, e, hole);
    assert Get32(m, a + 8) == HDR_MAGIC;
  }
}
