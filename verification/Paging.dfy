/** 32-bit paging with 4K pages and a directory whose last slot points to the directory itself.
    Masks and shifts of the source are written as divisions and remainders. */
module Paging {
  import opened Options

  /** Physical memory as 1024-word frames, by frame number, and the frame cr3 points to. */
  datatype Mmu = Mmu(ram: map<int, seq<int>>, dir: int)

  const FRAMES := 0x10_0000

  /** Bit 0 of a directory or table entry. */
  predicate Present(entry: int) { entry % 2 == 1 }

  /** entry & 0xFFFFF000, as a frame number. */
  function Frame(entry: int): int { entry / 4096 }

  ghost predicate FullRam(m: Mmu) {
    && 0 <= m.dir < FRAMES
    && (forall f | 0 <= f < FRAMES :: f in m.ram && |m.ram[f]| == 1024)
    && (forall f, i | f in m.ram && 0 <= i < |m.ram[f]| :: 0 <= m.ram[f][i] < 0x1_0000_0000)
  }

  function Pde(m: Mmu, d: int): int
    requires FullRam(m) && 0 <= d < 1024
  {
    m.ram[m.dir][d]
  }

  /** The self-reference, and page tables in frames of their own. */
  ghost predicate Wired(m: Mmu) {
    && FullRam(m)
    && Pde(m, 1023) == 4096 * m.dir + 3
    && (forall d | 0 <= d < 1023 && Present(Pde(m, d)) :: Frame(Pde(m, d)) != m.dir)
    && (forall d, e | 0 <= d < e < 1023 && Present(Pde(m, d)) && Present(Pde(m, e)) ::
      Frame(Pde(m, d)) != Frame(Pde(m, e)))
  }

  /** The word at slot i of the table a directory entry points to. */
  function Slot(m: Mmu, entry: int, i: int): int
    requires Frame(entry) in m.ram && 0 <= i < |m.ram[Frame(entry)]|
  {
    m.ram[Frame(entry)][i]
  }

  /** What the processor makes of virtual address va; None is a page fault. */
  function Translate(m: Mmu, va: int): Option<int>
    requires FullRam(m) && 0 <= va < 0x1_0000_0000
  {
    var pde := Pde(m, va / 0x40_0000);
    if !Present(pde) then None
    else
      var pte := Slot(m, pde, va / 4096 % 1024);
      if !Present(pte) then None else Some(4096 * Frame(pte) + va % 4096)
  }

  /** The whole table entry of a virtual page, 0 where there is no table. */
  function Pte(m: Mmu, vp: int): int
    requires FullRam(m) && 0 <= vp < FRAMES
  {
    var pde := Pde(m, vp / 1024);
    if Present(pde) then Slot(m, pde, vp % 1024) else 0
  }

  /** The frame a virtual page is mapped to. */
  function PageOf(m: Mmu, vp: int): Option<int>
    requires FullRam(m) && 0 <= vp < FRAMES
  {
    if Present(Pte(m, vp)) then Some(Frame(Pte(m, vp))) else None
  }

  lemma TranslateByPage(m: Mmu, va: int)
    requires FullRam(m) && 0 <= va < 0x1_0000_0000
    ensures Translate(m, va) == match PageOf(m, va / 4096) case None => None case Some(f) => Some(4096 * f + va % 4096)
  {}

  /** A load or store through a virtual address that is mapped. */
  function Load(m: Mmu, va: int): int
    requires FullRam(m) && 0 <= va < 0x1_0000_0000 && Translate(m, va).Some?
  {
    LoadBounds(m, va);
    m.ram[Translate(m, va).value / 4096][va % 4096 / 4]
  }

  function Store(m: Mmu, va: int, w: int): Mmu
    requires FullRam(m) && 0 <= va < 0x1_0000_0000 && Translate(m, va).Some?
  {
    LoadBounds(m, va);
    var f := Translate(m, va).value / 4096;
    m.(ram := m.ram[f := m.ram[f][va % 4096 / 4 := w]])
  }

  lemma LoadBounds(m: Mmu, va: int)
    requires FullRam(m) && 0 <= va < 0x1_0000_0000 && Translate(m, va).Some?
    ensures Translate(m, va).value / 4096 in m.ram && |m.ram[Translate(m, va).value / 4096]| == 1024
    ensures va % 4096 / 4 < 1024
  {}

  /** vpage_dir[d], and the entry of page vp in the table window. */
  function DirWindow(d: int): int { 0xFFFF_F000 + 4 * d }

  function TableWindow(d: int, i: int): int { 0xFFC0_0000 + 4096 * d + 4 * i }

  lemma WindowArithmetic(d: int, i: int, f: int)
    requires 0 <= d < 1024 && 0 <= i < 1024
    ensures var va := TableWindow(d, i);
      va / 0x40_0000 == 1023 && va / 4096 % 1024 == d && va % 4096 == 4 * i && 0 <= va < 0x1_0000_0000
    ensures (4096 * f + 4 * i) / 4096 == f
  {}

  /** Through the recursive slot the last page of the address space is the directory itself. */
  lemma DirWindowShows(m: Mmu, d: int, w: int)
    requires Wired(m) && 0 <= d < 1024
    ensures Translate(m, DirWindow(d)).Some? && Load(m, DirWindow(d)) == Pde(m, d)
    ensures Store(m, DirWindow(d), w) == m.(ram := m.ram[m.dir := m.ram[m.dir][d := w]])
  {
    assert DirWindow(d) == TableWindow(1023, d);
    WindowArithmetic(1023, d, m.dir);
  }

  /** And the last 4MB are the page tables, one page each. */
  lemma TableWindowShows(m: Mmu, d: int, i: int, w: int)
    requires Wired(m) && 0 <= d < 1023 && 0 <= i < 1024 && Present(Pde(m, d))
    ensures var t := Frame(Pde(m, d));
      && t in m.ram && |m.ram[t]| == 1024
      && Translate(m, TableWindow(d, i)).Some? && Load(m, TableWindow(d, i)) == m.ram[t][i]
      && Store(m, TableWindow(d, i), w) == m.(ram := m.ram[t := m.ram[t][i := w]])
  {
    WindowArithmetic(d, i, Frame(Pde(m, d)));
    hide TableWindow;
  }

  /** addr_v2p: reads the table entry through the window, without checking that it is present. */
  function AddrV2P(m: Mmu, va: int): int
    requires Wired(m) && 0 <= va < 0xFFC0_0000 && Present(Pde(m, va / 0x40_0000))
  {
    TableWindowShows(m, va / 0x40_0000, va / 4096 % 1024, 0);
    4096 * Frame(Load(m, TableWindow(va / 0x40_0000, va / 4096 % 1024))) + va % 4096
  }

  /** For mapped pages addr_v2p computes what the processor does. */
  lemma AddrV2PIsTranslate(m: Mmu, va: int)
    requires Wired(m) && 0 <= va < 0xFFC0_0000 && Translate(m, va).Some?
    ensures Present(Pde(m, va / 0x40_0000)) && AddrV2P(m, va) == Translate(m, va).value
  {
    TableWindowShows(m, va / 0x40_0000, va / 4096 % 1024, 0);
  }

  /** Once its page is mapped, addr_v2p of any address in it keeps the offset. */
  lemma MappedOffsets(m: Mmu, virt: int, phys: int, off: int)
    requires Wired(m) && 0 <= virt < 0xFFC0_0000 && virt % 4096 == 0 && phys % 4096 == 0 && 0 <= off < 4096
    requires Translate(m, virt) == Some(phys)
    ensures Translate(m, virt + off) == Some(phys + off)
    ensures Present(Pde(m, (virt + off) / 0x40_0000)) && AddrV2P(m, virt + off) == phys + off
  {
    hide Translate, AddrV2P;
    assert (virt + off) / 4096 == virt / 4096 && (virt + off) % 4096 == off;
    TranslateByPage(m, virt);
    TranslateByPage(m, virt + off);
    AddrV2PIsTranslate(m, virt + off);
  }

  // ---------------------------------------------------------------- updates

  /** The table entry of page vp set to w. */
  function SetPte(m: Mmu, vp: int, w: int): Mmu
    requires FullRam(m) && 0 <= vp < FRAMES
  {
    var t := Frame(Pde(m, vp / 1024));
    m.(ram := m.ram[t := m.ram[t][vp % 1024 := w]])
  }

  /** Setting a table entry changes that entry, and so the translation of its page, and no other. */
  lemma SetPteIsPointUpdate(m: Mmu, vp: int, w: int)
    requires Wired(m) && 0 <= vp < 1023 * 1024 && Present(Pde(m, vp / 1024)) && 0 <= w < 0x1_0000_0000
    ensures Wired(SetPte(m, vp, w)) && FullRam(SetPte(m, vp, w))
    ensures forall d | 0 <= d < 1024 :: Pde(SetPte(m, vp, w), d) == Pde(m, d)
    ensures forall q | 0 <= q < 1023 * 1024 :: Pte(SetPte(m, vp, w), q) == if q == vp then w else Pte(m, q)
    ensures forall q | 0 <= q < 1023 * 1024 ::
      PageOf(SetPte(m, vp, w), q) == if q == vp then (if Present(w) then Some(Frame(w)) else None) else PageOf(m, q)
  {
    var r := SetPte(m, vp, w);
    var t := Frame(Pde(m, vp / 1024));
    assert forall d | 0 <= d < 1024 :: Pde(r, d) == Pde(m, d);
    forall q | 0 <= q < 1023 * 1024 ensures Pte(r, q) == if q == vp then w else Pte(m, q) {
      assert q == 1024 * (q / 1024) + q % 1024 && vp == 1024 * (vp / 1024) + vp % 1024;
    }
  }

  /** Directory slot d set to an entry. */
  function SetPde(m: Mmu, d: int, entry: int): Mmu
    requires FullRam(m) && 0 <= d < 1024
  {
    m.(ram := m.ram[m.dir := m.ram[m.dir][d := entry]])
  }

  /** Pointing a directory slot to a frame no table uses keeps the directory in order. */
  lemma SetPdeWired(m: Mmu, d: int, entry: int)
    requires Wired(m) && 0 <= d < 1023 && Present(entry) && 0 <= entry < 0x1_0000_0000
    requires Frame(entry) != m.dir && forall e | 0 <= e < 1023 && e != d && Present(Pde(m, e)) ::
      Frame(Pde(m, e)) != Frame(entry)
    ensures Wired(SetPde(m, d, entry)) && Pde(SetPde(m, d, entry), d) == entry
  {
    assert forall e | 0 <= e < 1024 :: Pde(SetPde(m, d, entry), e) == if e == d then entry else Pde(m, e);
  }

  /** A whole table replaced. */
  function SetTable(m: Mmu, d: int, words: seq<int>): Mmu
    requires FullRam(m) && 0 <= d < 1024
  {
    m.(ram := m.ram[Frame(Pde(m, d)) := words])
  }

  lemma SetTableWired(m: Mmu, d: int, words: seq<int>)
    requires Wired(m) && 0 <= d < 1023 && Present(Pde(m, d)) && |words| == 1024
    requires forall i | 0 <= i < 1024 :: 0 <= words[i] < 0x1_0000_0000
    ensures Wired(SetTable(m, d, words)) && Pde(SetTable(m, d, words), d) == Pde(m, d)
  {
    assert forall e | 0 <= e < 1024 :: Pde(SetTable(m, d, words), e) == Pde(m, e);
  }

  function Zeros(): seq<int> { seq(1024, _ => 0) }

  /** Directory slot d pointing to frame t, which holds zeros. */
  function AddTable(m: Mmu, d: int, entry: int): Mmu
    requires FullRam(m) && 0 <= d < 1023
  {
    m.(ram := m.ram[m.dir := m.ram[m.dir][d := entry]][Frame(entry) := Zeros()])
  }

  /** A new, empty page table in a frame no table uses changes no entry of a page, and so no translation. */
  lemma AddTableKeeps(m: Mmu, d: int, entry: int)
    requires Wired(m) && 0 <= d < 1023 && !Present(Pde(m, d)) && Present(entry) && 0 <= entry < 0x1_0000_0000
    requires Frame(entry) != m.dir && forall e | 0 <= e < 1023 && Present(Pde(m, e)) :: Frame(Pde(m, e)) != Frame(entry)
    ensures Wired(AddTable(m, d, entry))
    ensures forall e | 0 <= e < 1024 :: Pde(AddTable(m, d, entry), e) == if e == d then entry else Pde(m, e)
    ensures forall q | 0 <= q < 1023 * 1024 :: Pte(AddTable(m, d, entry), q) == Pte(m, q)
    ensures forall q | 0 <= q < 1023 * 1024 :: PageOf(AddTable(m, d, entry), q) == PageOf(m, q)
  {
    var r := AddTable(m, d, entry);
    assert forall e | 0 <= e < 1024 :: Pde(r, e) == if e == d then entry else Pde(m, e);
    forall q | 0 <= q < 1023 * 1024 ensures Pte(r, q) == Pte(m, q) {
      if q / 1024 == d { assert Slot(r, entry, q % 1024) == 0; }
    }
  }

  // ---------------------------------------------------------------- the entry kpfree_at_v selects

  /** Address of the table entry kpfree_at_v reads and clears; the mask on the page number is span - 1. */
  function FreeEntry(addr: int, span: int): int
    requires span > 0
  {
    0xFFC0_0000 + 4096 * (addr / 0x40_0000) + 4 * (addr / 4096 % span)
  }

  /** The page whose entry that is: with 0x3FF the page itself, with 0xFFFF often another. */
  function HitPage(vp: nat, span: int): nat { if span == 0x400 then vp else vp + 1024 * (vp / 1024 % 64) }

  lemma FreeEntryHits(addr: nat, span: int)
    requires addr < 0x1_0000_0000 && (span == 0x400 || span == 0x1_0000)
    ensures var hit := HitPage(addr / 4096, span);
      && FreeEntry(addr, span) == TableWindow(hit / 1024, hit % 1024) && hit % 1024 == addr / 4096 % 1024
      && (hit < 1023 * 1024 ==> 0 <= FreeEntry(addr, span) < 0x1_0000_0000)
  {
    var vp := addr / 4096;
    assert addr / 0x40_0000 == vp / 1024;
    assert vp % 0x1_0000 == 1024 * (vp / 1024 % 64) + vp % 1024;
    var d, k, i := vp / 1024, vp / 1024 % 64, vp % 1024;
    assert (1024 * (d + k) + i) / 1024 == d + k && (1024 * (d + k) + i) % 1024 == i;
  }

  /** As written the mask is 0xFFFF.  It selects the entry of the page exactly in the first 4MB of
      every 256MB; the mask 0x3FF does everywhere. */
  lemma FreeEntryIff(addr: nat)
    requires addr < 0x1_0000_0000
    ensures FreeEntry(addr, 0x400) == TableWindow(addr / 0x40_0000, addr / 4096 % 1024)
    ensures FreeEntry(addr, 0x1_0000) == FreeEntry(addr, 0x400) <==> addr / 0x40_0000 % 64 == 0
  {
    var vp := addr / 4096;
    assert addr / 0x40_0000 == vp / 1024;
    assert vp % 0x1_0000 == 1024 * (vp / 1024 % 64) + vp % 1024;
  }

  /** For instance for the page at 4MB, page 1024, the entry of page 2048 is read and cleared. */
  lemma FreeEntryWrong()
    ensures FreeEntry(0x40_0000, 0x1_0000) == TableWindow(2, 0) != TableWindow(1, 0)
  {}
}
