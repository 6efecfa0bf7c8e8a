/** Where every page frame is: the account the physical memory manager keeps of them. */
module Frames {
  import opened SortedSeq
  import opened Options
  import opened Paging

  /** A frame is on its stack, maps one page, is one page table or the directory, or has been handed
      out by ppalloc without being mapped (for ever, if palloc_at_v then fails). */
  datatype Owner = Stacked | Page(vp: int) | Table(d: int) | Directory | Held

  type Owners = map<int, Owner>

  const PAGES := 0xF_FC00

  /** One stack lists frames of the account that are on it, each once. */
  ghost predicate Lists(s: seq<int>, owner: Owners, low: bool) {
    && Distinct(s)
    && forall a | a in s ::
         a % 4096 == 0 && a / 4096 in owner && owner[a / 4096] == Stacked && (a / 4096 < 4096 <==> low)
  }

  ghost predicate Stacks(s1: seq<int>, s2: seq<int>, owner: Owners) {
    && Lists(s1, owner, true) && Lists(s2, owner, false)
    && (forall f | f in owner :: 0 < f < FRAMES && (owner[f] == Stacked ==> 4096 * f in if f < 4096 then s1 else s2))
  }

  ghost predicate PagesRight(m: Mmu, owner: Owners)
    requires FullRam(m)
  {
    && (forall q | 0 <= q < PAGES && PageOf(m, q).Some? && PageOf(m, q).value in owner ::
      owner[PageOf(m, q).value] == Page(q))
    && (forall f | f in owner && owner[f].Page? :: 0 <= owner[f].vp < PAGES && PageOf(m, owner[f].vp) == Some(f))
  }

  ghost predicate TablesRight(m: Mmu, owner: Owners)
    requires FullRam(m)
  {
    && (forall d | 0 <= d < 1023 && Present(Pde(m, d)) ::
      Frame(Pde(m, d)) in owner && owner[Frame(Pde(m, d))] == Table(d))
    && (forall f | f in owner && owner[f].Table? ::
          0 <= owner[f].d < 1023 && Present(Pde(m, owner[f].d)) && Frame(Pde(m, owner[f].d)) == f)
    && m.dir in owner && owner[m.dir] == Directory
    && (forall f | f in owner && owner[f] == Directory :: f == m.dir)
  }

  /** The account: every frame handed out at boot is in exactly the place it is entered under. */
  ghost predicate Accounts(m: Mmu, s1: seq<int>, s2: seq<int>, owner: Owners) {
    Wired(m) && Stacks(s1, s2, owner) && PagesRight(m, owner) && TablesRight(m, owner)
  }

  /** What the account means: a frame of it is on stack 1, on stack 2, mapped by page q, a page table
      or the directory exactly if it is entered so, and therefore in one place only.  Stack 1 holds only
      frames below 16M and stack 2 only frames from there on. */
  lemma FramePlaces(m: Mmu, s1: seq<int>, s2: seq<int>, owner: Owners, f: int, q: int, d: int)
    requires Accounts(m, s1, s2, owner) && f in owner && 0 <= q < PAGES && 0 <= d < 1023
    ensures 4096 * f in s1 <==> owner[f] == Stacked && f < 4096
    ensures 4096 * f in s2 <==> owner[f] == Stacked && f >= 4096
    ensures PageOf(m, q) == Some(f) <==> owner[f] == Page(q)
    ensures Present(Pde(m, d)) && Frame(Pde(m, d)) == f <==> owner[f] == Table(d)
    ensures m.dir == f <==> owner[f] == Directory
  {
    hide PageOf, Pde, FullRam, Distinct;
    assert 4096 * f / 4096 == f;
  }

  // ---------------------------------------------------------------- one predicate at a time

  lemma ListsIgnore(s: seq<int>, owner: Owners, low: bool, f: int, o: Owner)
    requires Lists(s, owner, low) && f in owner && owner[f] != Stacked
    ensures Lists(s, owner[f := o], low)
  {}

  lemma StacksIgnore(s1: seq<int>, s2: seq<int>, owner: Owners, f: int, o: Owner)
    requires Stacks(s1, s2, owner) && f in owner && owner[f] != Stacked && o != Stacked
    ensures Stacks(s1, s2, owner[f := o])
  {
    ListsIgnore(s1, owner, true, f, o);
    ListsIgnore(s2, owner, false, f, o);
    hide Lists;
  }

  lemma PagesIgnore(m: Mmu, owner: Owners, f: int, o: Owner)
    requires FullRam(m) && PagesRight(m, owner) && f in owner && !owner[f].Page? && !o.Page?
    ensures PagesRight(m, owner[f := o])
  {}

  lemma TablesIgnore(m: Mmu, owner: Owners, f: int, o: Owner)
    requires FullRam(m) && TablesRight(m, owner) && f in owner && !owner[f].Table? && owner[f] != Directory
    requires !o.Table? && o != Directory
    ensures TablesRight(m, owner[f := o])
  {}

  lemma Pops(s: seq<int>, owner: Owners, low: bool, a: int, r: seq<int>)
    requires Lists(s, owner, low) && s == [a] + r
    ensures a % 4096 == 0 && a / 4096 in owner && owner[a / 4096] == Stacked && (a / 4096 < 4096 <==> low)
    ensures Lists(r, owner[a / 4096 := Held], low)
    ensures forall x | x in s :: x == a || x in r
  {
    assert s[0] == a;
    assert forall i | 0 <= i < |r| :: r[i] == s[i + 1];
    assert a in s && forall x | x in r :: x in s && x != a && x / 4096 != a / 4096;
  }

  lemma Pushes(s: seq<int>, owner: Owners, low: bool, f: int)
    requires Lists(s, owner, low) && f in owner && owner[f] != Stacked && (f < 4096 <==> low)
    ensures Lists([4096 * f] + s, owner[f := Stacked], low)
  {
    assert 4096 * f !in s;
  }

  /** Frames on the other stack are not affected. */
  lemma ListsOther(s: seq<int>, owner: Owners, low: bool, f: int, o: Owner)
    requires Lists(s, owner, low) && f in owner && (f < 4096 <==> !low)
    ensures Lists(s, owner[f := o], low)
  {}

  lemma StackPops(s1: seq<int>, s2: seq<int>, owner: Owners, a: int, r1: seq<int>, r2: seq<int>)
    requires Stacks(s1, s2, owner)
    requires (s1 == [a] + r1 && r2 == s2) || (s2 == [a] + r2 && r1 == s1)
    ensures a % 4096 == 0 && a / 4096 in owner && owner[a / 4096] == Stacked && 0 < a / 4096 < FRAMES && a > 0
    ensures s1 == r1 ==> a / 4096 >= 4096
    ensures s2 == r2 ==> a / 4096 < 4096
    ensures Stacks(r1, r2, owner[a / 4096 := Held])
  {
    hide Lists;
    var f := a / 4096;
    if s1 == [a] + r1 && r2 == s2 {
      Pops(s1, owner, true, a, r1);
      ListsOther(s2, owner, false, f, Held);
    } else {
      Pops(s2, owner, false, a, r2);
      ListsOther(s1, owner, true, f, Held);
    }
    forall g | g in owner && g != f && owner[g] == Stacked ensures 4096 * g in if g < 4096 then r1 else r2 {
      assert 4096 * g != a;
    }
  }

  /** The stacks after `f` is pushed on the one it belongs to. */
  function Pushed(s: seq<int>, low: bool, f: int): seq<int> {
    if (f < 4096) == low then [4096 * f] + s else s
  }

  lemma StackPushes(s1: seq<int>, s2: seq<int>, owner: Owners, f: int)
    requires Stacks(s1, s2, owner) && f in owner && owner[f] != Stacked
    ensures Stacks(Pushed(s1, true, f), Pushed(s2, false, f), owner[f := Stacked])
  {
    if f < 4096 {
      Pushes(s1, owner, true, f);
      ListsOther(s2, owner, false, f, Stacked);
    } else {
      Pushes(s2, owner, false, f);
      ListsOther(s1, owner, true, f, Stacked);
    }
    hide Lists;
  }

  // ---------------------------------------------------------------- the moves

  /** Taking a frame off a stack. */
  lemma Popped(m: Mmu, s1: seq<int>, s2: seq<int>, owner: Owners, a: int, r1: seq<int>, r2: seq<int>)
    requires Accounts(m, s1, s2, owner)
    requires (s1 == [a] + r1 && r2 == s2) || (s2 == [a] + r2 && r1 == s1)
    ensures a % 4096 == 0 && a / 4096 in owner && owner[a / 4096] == Stacked && 0 < a / 4096 < FRAMES && a > 0
    ensures s1 == r1 ==> a / 4096 >= 4096
    ensures s2 == r2 ==> a / 4096 < 4096
    ensures Accounts(m, r1, r2, owner[a / 4096 := Held])
  {
    hide FullRam, Stacks, PagesRight, TablesRight;
    StackPops(s1, s2, owner, a, r1, r2);
    PagesIgnore(m, owner, a / 4096, Held);
    TablesIgnore(m, owner, a / 4096, Held);
  }

  /** Turning a held frame into an empty page table. */
  lemma TableAdded(m: Mmu, s1: seq<int>, s2: seq<int>, owner: Owners, d: int, entry: int)
    requires Accounts(m, s1, s2, owner) && 0 <= d < 1023 && !Present(Pde(m, d))
    requires Present(entry) && 0 <= entry < 0x1_0000_0000 && Frame(entry) in owner && owner[Frame(entry)] == Held
    ensures Accounts(AddTable(m, d, entry), s1, s2, owner[Frame(entry) := Table(d)])
    ensures forall e | 0 <= e < 1024 :: Pde(AddTable(m, d, entry), e) == if e == d then entry else Pde(m, e)
    ensures forall q | 0 <= q < PAGES :: Pte(AddTable(m, d, entry), q) == Pte(m, q)
    ensures forall q | 0 <= q < PAGES :: PageOf(AddTable(m, d, entry), q) == PageOf(m, q)
  {
    hide Stacks, Pte;
    AddTableKeeps(m, d, entry);
    StacksIgnore(s1, s2, owner, Frame(entry), Table(d));
    PagesIgnore(m, owner, Frame(entry), Table(d));
    hide FullRam, PageOf, AddTable, Pde;
  }

  /** Mapping a page to a frame that is held, or foreign to the account. */
  lemma PageMapped(m: Mmu, s1: seq<int>, s2: seq<int>, owner: Owners, vp: int, entry: int)
    requires Accounts(m, s1, s2, owner) && 0 <= vp < PAGES && Present(Pde(m, vp / 1024)) && PageOf(m, vp) == None
    requires Present(entry) && 0 <= entry < 0x1_0000_0000 && (Frame(entry) in owner ==> owner[Frame(entry)] == Held)
    ensures Accounts(SetPte(m, vp, entry), s1, s2,
      if Frame(entry) in owner then owner[Frame(entry) := Page(vp)] else owner)
  {
    hide Stacks;
    SetPteIsPointUpdate(m, vp, entry);
    if Frame(entry) in owner {
      StacksIgnore(s1, s2, owner, Frame(entry), Page(vp));
      TablesIgnore(m, owner, Frame(entry), Page(vp));
    }
    hide FullRam, PageOf, SetPte, Pde;
  }

  /** Unmapping a page and giving its frame back. */
  lemma PageFreed(m: Mmu, s1: seq<int>, s2: seq<int>, owner: Owners, vp: int, f: int)
    requires Accounts(m, s1, s2, owner) && 0 <= vp < PAGES && PageOf(m, vp) == Some(f) && f in owner
    ensures Accounts(SetPte(m, vp, 0), Pushed(s1, true, f), Pushed(s2, false, f), owner[f := Stacked])
  {
    hide Stacks;
    assert Present(Pde(m, vp / 1024));
    SetPteIsPointUpdate(m, vp, 0);
    StackPushes(s1, s2, owner, f);
    TablesIgnore(m, owner, f, Stacked);
    hide FullRam, PageOf, SetPte, Pde;
  }
}
