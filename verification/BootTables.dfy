/** The page directory and tables mem_init builds before paging is switched on. */
module BootTables {
  import opened Options
  import opened Paging

  /** The frames popped for them: the directory first, then the tables, from the top of memory below 16M. */
  const DIR_FRAME := 4095

  function TableFrame(k: int): int { 4094 - k }

  /** Entry x of the initial map: page x itself below p, then the pages of memstack2, from 16M on. */
  function MapEntry(p: int, x: int): int { if x < p then 4096 * x + 3 else 4096 * (4096 + x - p) + 3 }

  /** Entry k of the directory.  `late` are the flags of tables begun in the loop over memstack2: the
      source gives none at lib/mem.c:198, and 3 at lib/mem.c:170. */
  function DirEntry(p: int, late: int, k: int): int { 4096 * TableFrame(k) + if 1024 * k < p then 3 else late }

  function Tables(n: int): int { (n + 1023) / 1024 }

  /** Entry x counted through the tables. */
  function Word(m: Mmu, x: int): int
    requires FullRam(m) && 0 <= x < 1024 * 1023
  {
    m.ram[TableFrame(x / 1024)][x % 1024]
  }

  /** The structures after mem_init for p identity-mapped pages and n mapped pages in all. */
  ghost predicate Built(m: Mmu, p: int, n: int, late: int) {
    && FullRam(m) && m.dir == DIR_FRAME
    && (forall x | 0 <= x < 1024 * Tables(n) && x < 1024 * 1023 :: Word(m, x) == if x < n then MapEntry(p, x) else 0)
    && (forall k | 0 <= k < 1023 :: Pde(m, k) == if k < Tables(n) then DirEntry(p, late, k) else 0)
    && Pde(m, 1023) == 4096 * DIR_FRAME + 3
  }

  lemma EntryBits(f: int)
    ensures Present(4096 * f + 3) && Frame(4096 * f + 3) == f && !Present(4096 * f)
  {}

  /** The initial map, with the flags as the source spells them (0) or as the first loop has them (3). */
  lemma InitialMap(m: Mmu, p: int, n: int, late: int, q: int)
    requires Built(m, p, n, late) && 0 < p <= n <= 6000 && (late == 0 || late == 3) && 0 <= q < 1023 * 1024
    ensures PageOf(m, q) ==
      if q < p then Some(q)
      else if q < n && (late == 3 || 1024 * (q / 1024) < p) then Some(4096 + q - p)
      else None
    ensures Pte(m, q) ==
      if q < p then 4096 * q + 3
      else if q < n && (late == 3 || 1024 * (q / 1024) < p) then 4096 * (4096 + q - p) + 3
      else 0
  {
    var k := q / 1024;
    assert q < 1024 * Tables(n) <==> k < Tables(n);
    EntryBits(TableFrame(k));
    if k < Tables(n) {
      assert Word(m, q) == m.ram[TableFrame(k)][q % 1024];
      EntryBits(q);
      EntryBits(4096 + q - p);
    }
  }

  lemma BuiltWired(m: Mmu, p: int, n: int, late: int)
    requires Built(m, p, n, late) && 0 < p <= n <= 6000 && (late == 0 || late == 3)
    ensures Wired(m)
    ensures m.dir == 4095 && Pde(m, 1023) == 4096 * 4095 + 3
    ensures forall k | 0 <= k < 1023 ::
      Pde(m, k) == if 1024 * k < p then 4096 * (4094 - k) + 3 else if 1024 * k < n then 4096 * (4094 - k) + late else 0
  {
    forall d | 0 <= d < 1023 && Present(Pde(m, d)) ensures d < Tables(n) && Frame(Pde(m, d)) == TableFrame(d) {
      EntryBits(TableFrame(d));
    }
  }

  /** As spelt, every page of memstack2 is mapped exactly if no table is begun in the loop over them. */
  lemma LateFlagsIff(m: Mmu, p: int, n: int)
    requires Built(m, p, n, 0) && 0 < p < n <= 6000
    ensures (forall q | p <= q < n :: PageOf(m, q) == Some(4096 + q - p)) <==> (n - 1) / 1024 == (p - 1) / 1024
  {
    forall q | p <= q < n
      ensures PageOf(m, q) == if 1024 * (q / 1024) < p then Some(4096 + q - p) else None
    {
      InitialMap(m, p, n, 0, q);
    }
    assert PageOf(m, n - 1) == Some(4096 + (n - 1) - p) ==> 1024 * ((n - 1) / 1024) < p;
    if (n - 1) / 1024 == (p - 1) / 1024 {
      forall q | p <= q < n ensures 1024 * (q / 1024) < p { assert q / 1024 <= (n - 1) / 1024; }
    }
  }

  /** The relocated memstack2: its pages follow the identity map, so that a pointer into it, moved by
      memstack1_base - 16M, reaches the word the physical pointer named. */
  lemma RelocatedStack(m: Mmu, p: int, n: int, pa: int)
    requires Built(m, p, n, 3) && 0 < p <= n <= 6000 && 0x100_0000 <= pa < 0x100_0000 + 4096 * (n - p)
    ensures var va := pa + 4096 * p - 0x100_0000; 0 <= va < 0xFFC0_0000 && Translate(m, va) == Some(pa)
  {
    var va := pa + 4096 * p - 0x100_0000;
    TranslateByPage(m, va);
    assert va / 4096 == pa / 4096 + p - 4096;
    InitialMap(m, p, n, 3, va / 4096);
  }

  // ---------------------------------------------------------------- building them

  /** A store to word i of frame f, with paging off. */
  function Poke(m: Mmu, f: int, i: int, w: int): Mmu
    requires FullRam(m) && 0 <= f < FRAMES && 0 <= i < 1024
  {
    m.(ram := m.ram[f := m.ram[f][i := w]])
  }

  lemma PokeWord(m: Mmu, x: int, w: int)
    requires FullRam(m) && m.dir == DIR_FRAME && 0 <= x < 8192 && 0 <= w < 0x1_0000_0000
    ensures var r := Poke(m, TableFrame(x / 1024), x % 1024, w);
      && FullRam(r) && r.dir == DIR_FRAME
      && (forall y | 0 <= y < 8192 :: Word(r, y) == if y == x then w else Word(m, y))
      && (forall d | 0 <= d < 1024 :: Pde(r, d) == Pde(m, d))
  {}

  lemma PokeDir(m: Mmu, d: int, w: int)
    requires FullRam(m) && m.dir == DIR_FRAME && 0 <= d < 1024 && 0 <= w < 0x1_0000_0000
    ensures var r := Poke(m, DIR_FRAME, d, w);
      && FullRam(r) && r.dir == DIR_FRAME
      && (forall y | 0 <= y < 8192 :: Word(r, y) == Word(m, y))
      && (forall e | 0 <= e < 1024 :: Pde(r, e) == if e == d then w else Pde(m, e))
  {}

  /** The first x entries and the first `ind` directory slots are written. */
  ghost predicate Partial(m: Mmu, p: int, late: int, x: int, ind: int) {
    && FullRam(m) && m.dir == DIR_FRAME && 0 <= x < 8192
    && (forall y | 0 <= y < x :: Word(m, y) == MapEntry(p, y))
    && 1 <= ind < 1023 && 1024 * (ind - 1) <= x <= 1024 * ind
    && (forall k | 0 <= k < ind :: Pde(m, k) == DirEntry(p, late, k))
  }
}
