/** Byte-addressed memory and the little-endian 32-bit loads and stores the heap makes through
    its header and footer pointers. */
module Bytes {
  type Byte = x: int | 0 <= x < 256
  type Word = x: int | 0 <= x < 0x1_0000_0000

  /** The bytes that are backed by mapped pages. */
  type Memory = map<int, Byte>

  predicate Mapped(m: Memory, a: int, n: nat) {
    forall x | a <= x < a + n :: x in m
  }

  function Get32(m: Memory, a: int): Word
    requires Mapped(m, a, 4)
  {
    var b0: int, b1: int, b2: int, b3: int := m[a], m[a + 1], m[a + 2], m[a + 3];
    b0 + 0x100 * b1 + 0x1_0000 * b2 + 0x100_0000 * b3
  }

  /** What a store into [a, a + n) leaves alone: the mapping, and every byte outside. */
  ghost predicate SameOutside(m: Memory, r: Memory, a: int, b: int) {
    r.Keys == m.Keys && forall x | x in m && !(a <= x < b) :: r[x] == m[x]
  }

  /** The bytes of [a, b) are mapped and equal in both memories. */
  ghost predicate SameOn(m: Memory, r: Memory, a: int, b: int) {
    forall x | a <= x < b :: x in m && x in r && r[x] == m[x]
  }

  /** A store does not change the words outside its bytes. */
  lemma WordsOutside(m: Memory, r: Memory, lo: int, hi: int)
    requires SameOutside(m, r, lo, hi)
    ensures forall b | Mapped(m, b, 4) && (b + 4 <= lo || hi <= b) :: Mapped(r, b, 4) && Get32(r, b) == Get32(m, b)
  {}

  function Put8(m: Memory, a: int, v: Byte): (r: Memory)
    requires Mapped(m, a, 1)
    ensures a in r && r[a] == v && SameOutside(m, r, a, a + 1)
  {
    m[a := v]
  }

  function Put32(m: Memory, a: int, w: Word): (r: Memory)
    requires Mapped(m, a, 4)
    ensures SameOutside(m, r, a, a + 4)
    ensures Mapped(r, a, 4) && Get32(r, a) == w
  {
    var w1 := w / 0x100;
    var w2 := w1 / 0x100;
    m[a := w % 0x100][a + 1 := w1 % 0x100][a + 2 := w2 % 0x100][a + 3 := w2 / 0x100]
  }
}
