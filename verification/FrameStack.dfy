/** The downward-growing stacks of free page frames, memstack1 and memstack2. */
module FrameStack {
  import opened SortedSeq

  /** Addresses base, base + 4096, ... of n frames, the last first: a stack as mem_init fills it. */
  function Filled(base: int, n: nat): seq<int> {
    if n == 0 then [] else [base + 4096 * (n - 1)] + Filled(base, n - 1)
  }

  lemma {:induction false} FilledHas(base: int, n: nat)
    ensures |Filled(base, n)| == n && Distinct(Filled(base, n))
    ensures forall i | 0 <= i < n :: Filled(base, n)[i] == base + 4096 * (n - 1 - i)
  {
    if n > 0 { FilledHas(base, n - 1); }
  }

  /** What a pop takes off a stack still as mem_init filled it. */
  lemma FilledPop(base: int, n: nat, a: int, rest: seq<int>)
    requires 0 < n && Filled(base, n) == [a] + rest
    ensures a == base + 4096 * (n - 1) && rest == Filled(base, n - 1)
  {
    assert Filled(base, n)[0] == a && Filled(base, n)[1..] == rest;
  }

  /** Distinct page addresses in a range are at most as many as its pages. */
  lemma {:induction false} DistinctFrames(s: seq<int>, lo: int, n: nat)
    requires Distinct(s) && forall i | 0 <= i < |s| :: s[i] % 4096 == 0 && lo <= s[i] / 4096 < lo + n
    ensures |s| <= n
    decreases n
  {
    if s != [] {
      assert lo <= s[0] / 4096 < lo + n;
      var top := 4096 * (lo + n - 1);
      if i :| 0 <= i < |s| && s[i] == top {
        var r := RemoveAt(s, i);
        assert forall k | 0 <= k < |r| :: r[k] == s[if k < i then k else k + 1];
        forall k | 0 <= k < |r| ensures r[k] % 4096 == 0 && lo <= r[k] / 4096 < lo + (n - 1) {
          NotTop(r[k], lo, n);
        }
        DistinctFrames(r, lo, n - 1);
      } else {
        forall k | 0 <= k < |s| ensures s[k] % 4096 == 0 && lo <= s[k] / 4096 < lo + (n - 1) {
          NotTop(s[k], lo, n);
        }
        DistinctFrames(s, lo, n - 1);
      }
    }
  }

  lemma NotTop(a: int, lo: int, n: nat)
    requires n > 0 && a % 4096 == 0 && lo <= a / 4096 < lo + n && a != 4096 * (lo + n - 1)
    ensures lo <= a / 4096 < lo + (n - 1)
  {}

  /** `slots` is the reserved area, `top` the word the stack pointer points to; the base is its end. */
  class FrameStack {
    const slots: array<int>
    var top: nat

    ghost predicate Valid() reads this { top <= slots.Length }

    ghost function Contents(): seq<int>
      reads this, slots
      requires Valid()
    {
      slots[top..]
    }

    /** mem_init, lines 96-102 and 126-133: n frames from `base` on, pushed into `words` reserved words. */
    constructor Fill(words: nat, base: int, n: nat)
      requires n <= words
      ensures Valid() && fresh(slots) && slots.Length == words && Contents() == Filled(base, n)
    {
      slots := new int[words];
      top := words;
      new;
      var i := 0;
      while i < n
        invariant i <= n && top == words - i && slots[top..] == Filled(base, i)
      {
        top := top - 1;
        slots[top] := base + 4096 * i;
        assert slots[top..] == [slots[top]] + slots[top + 1..];
        i := i + 1;
      }
    }

    /** ms1_ppalloc, ms2_ppalloc: 0 when the stack is empty. */
    method Pop() returns (addr: int)
      requires Valid()
      modifies this
      ensures Valid()
      ensures old(Contents()) == [] ==> addr == 0 && Contents() == []
      ensures old(Contents()) != [] ==> old(Contents()) == [addr] + Contents()
    {
      if top == slots.Length { return 0; }
      addr := slots[top];
      top := top + 1;
    }

    /** One arm of ppfree.  There is room as long as the pointer has not reached the reserved area's start. */
    method Push(addr: int)
      requires Valid() && |Contents()| < slots.Length
      modifies this, slots
      ensures Valid() && Contents() == [addr] + old(Contents())
    {
      top := top - 1;
      slots[top] := addr;
    }
  }

  // ---------------------------------------------------------------- the two stacks of mem_init

  /** Pages a stack for n frames is given: 1 + n/1024. */
  function StackPages(n: nat): nat { 1 + n / 1024 }

  /** kmem_end rounded up to pages, as mem_init does it. */
  function KernelPages(kmemEnd: nat): nat { 1 + kmemEnd / 4096 }

  /** Kernel end and memory size (in kB) for which none of the unsigned subtractions underflows and
      frames have 32-bit addresses. */
  predicate MemoryFits(kmemEnd: nat, memTotal: nat) {
    && KernelPages(kmemEnd) < 4096
    && StackPages(4096 - KernelPages(kmemEnd)) <= 4096 - KernelPages(kmemEnd)
    && 0x4000 + 4 <= memTotal < 0x40_0000 + 4
  }

  /** Number of frames on each stack and first page above it, as mem_init computes them. */
  function Frames1(kmemEnd: nat): int { 4096 - KernelPages(kmemEnd) - StackPages1(kmemEnd) }

  function StackPages1(kmemEnd: nat): nat {
    if KernelPages(kmemEnd) > 4096 then 0 else StackPages(4096 - KernelPages(kmemEnd)) % 256
  }

  /** Pages identity-mapped at boot: the kernel and stack 1. */
  function IdentityPages(kmemEnd: nat): nat { KernelPages(kmemEnd) + StackPages1(kmemEnd) }

  function Base1(kmemEnd: nat): int { 4096 * IdentityPages(kmemEnd) }

  function Pages2(memTotal: nat): int { (memTotal - 0x4000) / 4 }

  function StackPages2(memTotal: nat): int { 1 + Pages2(memTotal) / 1024 }

  /** Pages mapped at boot in all. */
  function MappedPages(kmemEnd: nat, memTotal: nat): int { IdentityPages(kmemEnd) + StackPages2(memTotal) }

  function Frames2(memTotal: nat): int { Pages2(memTotal) - StackPages2(memTotal) }

  function Base2(memTotal: nat): int { 4096 * (4096 + StackPages2(memTotal)) }

  /** The reserved pages hold the frames, the 8-bit page count of stack 1 does not wrap, and both stacks
      reach exactly to their limits: 16M, and the last whole page of memory. */
  lemma StackSizes(kmemEnd: nat, memTotal: nat)
    requires MemoryFits(kmemEnd, memTotal)
    ensures 0 < IdentityPages(kmemEnd) < MappedPages(kmemEnd, memTotal) < 6000
      && IdentityPages(kmemEnd) + Frames1(kmemEnd) == 4096
    ensures StackPages1(kmemEnd) == StackPages(4096 - KernelPages(kmemEnd)) <= 4
    ensures 0 <= Frames1(kmemEnd) <= 1024 * StackPages1(kmemEnd)
    ensures Base1(kmemEnd) + 4096 * Frames1(kmemEnd) == 0x100_0000
    ensures Base1(kmemEnd) - 4096 * StackPages1(kmemEnd) > kmemEnd
    ensures 0 <= Frames2(memTotal) <= 1024 * StackPages2(memTotal) && StackPages2(memTotal) <= 1021
    ensures Base2(memTotal) + 4096 * Frames2(memTotal) == 0x100_0000 + 4096 * Pages2(memTotal) <= 0x1_0000_0000
    ensures memTotal - 4 < 0x4000 + 4 * Pages2(memTotal) <= memTotal
    ensures 4096 * (KernelPages(kmemEnd) - 1) <= kmemEnd < 4096 * KernelPages(kmemEnd)
    ensures 1024 * (StackPages1(kmemEnd) - 1) <= 4096 - KernelPages(kmemEnd) < 1024 * StackPages1(kmemEnd)
    ensures 1024 * (StackPages2(memTotal) - 1) <= Pages2(memTotal) < 1024 * StackPages2(memTotal)
    ensures Base1(kmemEnd) == 4096 * (KernelPages(kmemEnd) + StackPages1(kmemEnd))
    ensures Base2(memTotal) == 0x100_0000 + 4096 * StackPages2(memTotal)
    ensures 4096 * MappedPages(kmemEnd, memTotal) == Base1(kmemEnd) + 4096 * StackPages2(memTotal)
  {}

  /** Nothing underflows and no address is too large, exactly for kernels that end below the last page of
      the first 16M, and memory between 16M and one page, and 4G. */
  lemma MemoryFitsIff(kmemEnd: nat, memTotal: nat)
    ensures MemoryFits(kmemEnd, memTotal) <==> kmemEnd < 0xFF_F000 && 0x4004 <= memTotal < 0x40_0004
  {}

  /** The frames mem_init stacks are pairwise distinct, page-aligned and nonzero, and are exactly the
      pages from the stack's end to its limit. */
  lemma FilledCovers(base: int, n: nat, a: int)
    requires base % 4096 == 0 && 0 < base
    ensures Distinct(Filled(base, n))
    ensures a in Filled(base, n) <==> a % 4096 == 0 && base <= a < base + 4096 * n
  {
    hide Distinct, Filled;
    FilledHas(base, n);
    var s := Filled(base, n);
    if a % 4096 == 0 && base <= a < base + 4096 * n {
      var i := n - 1 - (a - base) / 4096;
      assert s[i] == a;
    }
    if a in s {
      var i :| 0 <= i < n && s[i] == a;
      assert (base + 4096 * (n - 1 - i)) % 4096 == 0;
    }
  }
}
