/** long2str_10h of lib/c/printf.c: a size in G, M, k and units, as many of them as the precision allows. */
module HumanText {
  import opened NumberText

  /** The text so far, what is left of the number and of the precision, and whether a NUL follows. */
  datatype Part = Part(text: string, n: nat, p: nat, ended: bool)

  function Plus(text: string): string { if text == "" then "" else text + "+" }

  /** One of the first three blocks; only the last of them (k) writes a NUL behind its letter. */
  function UnitPart(a: Part, size: nat, letter: char, nul: bool): Part
    requires size > 0
  {
    if a.p > 0 && a.n >= size then
      Part(Plus(a.text) + Render(a.n / size, 10, false) + [letter], a.n % size, a.p - 1, nul)
    else a
  }

  function Units(num: nat, precision: nat): Part {
    var g := UnitPart(Part("", num, precision, false), 0x4000_0000, 'G', false);
    UnitPart(UnitPart(g, 0x10_0000, 'M', false), 0x400, 'k', true)
  }

  function Human(num: nat, precision: nat): Part {
    var a := Units(num, precision);
    if a.p > 0 then Part(Plus(a.text) + Render(a.n, 10, false), 0, a.p, true)
    else if a.text == "" then Part("0", a.n, a.p, true)
    else a
  }

  // ---------------------------------------------------------------- reading it back

  /** Total of the finished parts and number being read. */
  datatype Reading = Reading(total: int, acc: int)

  function Read(r: Reading, c: char): Reading {
    if c == 'G' then Reading(r.total + 0x4000_0000 * r.acc, 0)
    else if c == 'M' then Reading(r.total + 0x10_0000 * r.acc, 0)
    else if c == 'k' then Reading(r.total + 0x400 * r.acc, 0)
    else if c == '+' then Reading(r.total + r.acc, 0)
    else Reading(r.total, 10 * r.acc + CharDigit(c))
  }

  function ReadAll(s: string): Reading {
    if s == "" then Reading(0, 0) else Read(ReadAll(s[..|s| - 1]), s[|s| - 1])
  }

  /** The number a text denotes. */
  function Sum(s: string): int { ReadAll(s).total + ReadAll(s).acc }

  lemma ReadNext(s: string, c: char)
    ensures ReadAll(s + [c]) == Read(ReadAll(s), c)
  {
    hide Read, CharDigit;
    assert (s + [c])[..|s|] == s;
  }

  lemma {:induction false} ReadNumeral(s: string, n: nat)
    requires ReadAll(s).acc == 0
    ensures ReadAll(s + Numeral(n, 10, false)) == Reading(ReadAll(s).total, n)
    decreases n
  {
    hide ReadAll, DigitChar;
    if n == 0 {
      assert s + Numeral(n, 10, false) == s;
    } else {
      var d := DigitChar(n % 10, false);
      DigitIsRead(n % 10);
      ReadNumeral(s, n / 10);
      ReadNext(s + Numeral(n / 10, 10, false), d);
      assert s + Numeral(n, 10, false) == (s + Numeral(n / 10, 10, false)) + [d];
    }
  }

  lemma DigitIsRead(d: int)
    requires 0 <= d < 10
    ensures var c := DigitChar(d, false); CharDigit(c) == d && c != 'G' && c != 'M' && c != 'k' && c != '+' && c != '\0'
  {}

  lemma ReadNumber(s: string, n: nat)
    requires ReadAll(s).acc == 0
    ensures ReadAll(s + Render(n, 10, false)) == Reading(ReadAll(s).total, n)
  {
    if n == 0 { ReadNext(s, '0'); } else { ReadNumeral(s, n); }
  }

  lemma ReadPlus(s: string)
    ensures ReadAll(Plus(s)) == Reading(Sum(s), 0)
  {}

  predicate IsUnit(size: nat, letter: char) {
    (size == 0x4000_0000 && letter == 'G') || (size == 0x10_0000 && letter == 'M') || (size == 0x400 && letter == 'k')
  }

  /** A part moves exactly its share of the number from what is left into the text. */
  lemma PartSums(a: Part, size: nat, letter: char, nul: bool)
    requires IsUnit(size, letter)
    ensures var r := UnitPart(a, size, letter, nul); Sum(r.text) + r.n == Sum(a.text) + a.n
  {
    hide ReadAll, Render;
    if a.p > 0 && a.n >= size {
      var s := Plus(a.text) + Render(a.n / size, 10, false);
      ReadPlus(a.text);
      ReadNumber(Plus(a.text), a.n / size);
      ReadNext(s, letter);
    }
  }

  /** What is printed sums to the number, less what is left when the precision runs out; with a
      precision of 4 or more nothing is. */
  lemma HumanSums(num: nat, precision: nat)
    ensures Sum(Human(num, precision).text) + Human(num, precision).n == num
    ensures precision >= 4 ==> Human(num, precision).n == 0 && Human(num, precision).ended
  {
    hide ReadAll, Render, Sum;
    var a0 := Part("", num, precision, false);
    var a1 := UnitPart(a0, 0x4000_0000, 'G', false);
    var a2 := UnitPart(a1, 0x10_0000, 'M', false);
    PartSums(a0, 0x4000_0000, 'G', false);
    PartSums(a1, 0x10_0000, 'M', false);
    PartSums(a2, 0x400, 'k', true);
    var a := Units(num, precision);
    assert Sum("") == 0 && Sum("0") == 0 by { NothingRead(); }
    if a.p > 0 { LastSums(a); }
  }

  lemma NothingRead()
    ensures Sum("") == 0 && Sum("0") == 0
  {}

  lemma LastSums(a: Part)
    ensures Sum(Plus(a.text) + Render(a.n, 10, false)) == Sum(a.text) + a.n
  {
    hide ReadAll, Render;
    ReadPlus(a.text);
    ReadNumber(Plus(a.text), a.n);
  }

  // ---------------------------------------------------------------- the text, part by part

  /** A part of the number that is not zero. */
  function PartOf(n: nat, size: nat, letter: char): seq<string>
    requires size > 0
  {
    if n >= size then [Render(n / size, 10, false) + [letter]] else []
  }

  /** The parts of a number in units of 1024: those of G, M and k that are not zero, and the rest. */
  function Parts(num: nat): seq<string> {
    PartOf(num, 0x4000_0000, 'G') + PartOf(num % 0x4000_0000, 0x10_0000, 'M') + PartOf(num % 0x10_0000, 0x400, 'k')
    + [Render(num % 0x400, 10, false)]
  }

  function Join(parts: seq<string>): string {
    if parts == [] then "" else Plus(Join(parts[..|parts| - 1])) + parts[|parts| - 1]
  }

  function First(parts: seq<string>, n: nat): seq<string> { if n < |parts| then parts[..n] else parts }

  /** The blocks so far have written the first parts, as far as the precision goes, and `rest` remains. */
  ghost predicate Upto(a: Part, parts: seq<string>, precision: nat, rest: int) {
    && a.p == (if precision > |parts| then precision - |parts| else 0) && (a.p > 0 ==> a.n == rest)
    && a.text == Join(First(parts, precision)) && (forall s | s in parts :: s != "")
  }

  lemma JoinLast(parts: seq<string>, s: string)
    ensures Join(parts + [s]) == Plus(Join(parts)) + s
  {
    assert (parts + [s])[..|parts|] == parts;
  }

  lemma UnitUpto(a: Part, size: nat, letter: char, nul: bool, parts: seq<string>, precision: nat, rest: nat)
    requires size > 0 && Upto(a, parts, precision, rest)
    ensures Upto(UnitPart(a, size, letter, nul), parts + PartOf(rest, size, letter), precision, rest % size)
  {
    hide Join, Render;
    var next := parts + PartOf(rest, size, letter);
    if rest >= size {
      if a.p > 0 {
        JoinLast(parts, Render(rest / size, 10, false) + [letter]);
        assert Plus(a.text) + (Render(rest / size, 10, false) + [letter]) ==
          Plus(a.text) + Render(rest / size, 10, false) + [letter];
      } else {
        assert First(next, precision) == First(parts, precision);
      }
    } else {
      assert next == parts;
    }
  }

  lemma UnitsUpto(num: nat, precision: nat)
    ensures Upto(Units(num, precision), Parts(num)[..|Parts(num)| - 1], precision, num % 0x400)
  {
    hide Upto, Render, UnitPart;
    var a0 := Part("", num, precision, false);
    var a1 := UnitPart(a0, 0x4000_0000, 'G', false);
    var a2 := UnitPart(a1, 0x10_0000, 'M', false);
    NoParts(num, precision);
    UnitUpto(a0, 0x4000_0000, 'G', false, [], precision, num);
    var q1 := PartOf(num, 0x4000_0000, 'G');
    assert [] + q1 == q1;
    UnitUpto(a1, 0x10_0000, 'M', false, q1, precision, num % 0x4000_0000);
    Remainders(num);
    var q2 := q1 + PartOf(num % 0x4000_0000, 0x10_0000, 'M');
    assert q1 + [] == q1 && q2 + [] == q2;
    UnitUpto(a2, 0x400, 'k', true, q2, precision, num % 0x10_0000);
    assert Parts(num)[..|Parts(num)| - 1] == q2 + PartOf(num % 0x10_0000, 0x400, 'k');
  }

  lemma Remainders(num: nat)
    ensures num % 0x4000_0000 % 0x10_0000 == num % 0x10_0000 && num % 0x10_0000 % 0x400 == num % 0x400
  {}

  /** What is printed, for every number and precision: as many of the parts as the precision allows, with
      plus signs between them, and "0" if that is none. */
  lemma HumanIs(num: nat, precision: nat)
    ensures Human(num, precision).text == if precision == 0 then "0" else Join(First(Parts(num), precision))
  {
    hide Join, Render, UnitPart, Upto, Human, Units, First;
    UnitsUpto(num, precision);
    var parts := Parts(num);
    assert parts == parts[..|parts| - 1] + [Render(num % 0x400, 10, false)];
    LastUpto(Units(num, precision), parts[..|parts| - 1], precision, num, num % 0x400);
  }

  lemma NoParts(num: nat, precision: nat)
    ensures Upto(Part("", num, precision, false), [], precision, num)
  {}

  lemma LastUpto(a: Part, parts: seq<string>, precision: nat, num: nat, rest: nat)
    requires Upto(a, parts, precision, rest) && a == Units(num, precision)
    ensures Human(num, precision).text ==
      if precision == 0 then "0" else Join(First(parts + [Render(rest, 10, false)], precision))
  {
    hide Render, Units, Join, Plus;
    var s := Render(rest, 10, false);
    JoinLast(parts, s);
    if a.p > 0 {
      assert First(parts + [s], precision) == parts + [s] && First(parts, precision) == parts;
    } else {
      assert First(parts + [s], precision) == parts[..precision] == First(parts, precision);
      if precision > 0 {
        assert parts[..precision][precision - 1] in parts;
        JoinedNonempty(parts[..precision]);
      } else {
        assert Join([]) == "" by { NoneJoined(); }
      }
    }
  }

  lemma JoinedNonempty(parts: seq<string>)
    requires parts != [] && parts[|parts| - 1] != ""
    ensures Join(parts) != ""
  {}

  lemma NoneJoined()
    ensures Join([]) == ""
  {}

  /** The string is left without a terminating NUL exactly when G or M is the last part the precision
      admits. */
  lemma UnterminatedIff(num: nat, precision: nat)
    ensures !Human(num, precision).ended <==>
      || (precision == 1 && num >= 0x10_0000)
      || (precision == 2 && num >= 0x4000_0000 && num % 0x4000_0000 >= 0x10_0000)
  {
    hide Render;
  }

  lemma ShortNumeral(n: nat)
    requires n < 10000
    ensures |Render(n, 10, false)| <= if n < 10 then 1 else if n < 100 then 2 else if n < 1000 then 3 else 4
  {
    assert Numeral(n, 10, false) == if n == 0 then "" else Numeral(n / 10, 10, false) + [DigitChar(n % 10, false)];
    assert n / 10 > 0 ==>
      Numeral(n / 10, 10, false) == Numeral(n / 10 / 10, 10, false) + [DigitChar(n / 10 % 10, false)];
    assert n / 10 / 10 > 0 ==>
      Numeral(n / 10 / 10, 10, false) == Numeral(n / 10 / 10 / 10, 10, false) + [DigitChar(n / 10 / 10 % 10, false)];
    assert n / 10 / 10 / 10 > 0 ==>
      Numeral(n / 10 / 10 / 10, 10, false) == Numeral(0, 10, false) + [DigitChar(n / 10 / 10 / 10 % 10, false)];
  }

  /** Lengths after each part, for 32-bit numbers. */
  lemma PartLengths(num: nat, precision: nat)
    requires num < 0x1_0000_0000
    ensures var a1 := UnitPart(Part("", num, precision, false), 0x4000_0000, 'G', false);
      var a2 := UnitPart(a1, 0x10_0000, 'M', false); var a3 := UnitPart(a2, 0x400, 'k', true);
      && |a1.text| <= 2 && (a1.p > 0 ==> a1.n < 0x4000_0000)
      && |a2.text| <= 8 && (a2.p > 0 ==> a2.n < 0x10_0000)
      && |a3.text| <= 14 && (a3.p > 0 ==> a3.n < 0x400)
  {
    hide Render;
    var a1 := UnitPart(Part("", num, precision, false), 0x4000_0000, 'G', false);
    var a2 := UnitPart(a1, 0x10_0000, 'M', false);
    ShortNumeral(num / 0x4000_0000);
    if a1.p > 0 { ShortNumeral(a1.n / 0x10_0000); }
    if a2.p > 0 { ShortNumeral(a2.n / 0x400); }
  }

  /** At most 19 characters, 20 bytes with the NUL: within printf's 25-byte buffer. */
  lemma HumanFits(num: nat, precision: nat)
    requires num < 0x1_0000_0000
    ensures |Human(num, precision).text| <= 19
  {
    hide Render;
    PartLengths(num, precision);
    var a := Units(num, precision);
    if a.p > 0 { ShortNumeral(a.n); }
  }

  // ---------------------------------------------------------------- the printer

  /** What the buffer holds once a part is written: its text, and a NUL if it ends in one. */
  function Shown(buf: seq<char>, at: nat, a: Part): seq<char>
    requires at + |a.text| < |buf|
  {
    Overlay(buf, at, if a.ended then a.text + ['\0'] else a.text)
  }

  /** long2str_10h into `dest` from `at` on, in a buffer with 20 bytes to spare. */
  method Long2Str10h(dest: array<char>, at: nat, num: nat, precision: nat)
    requires num < 0x1_0000_0000 && precision < 256 && at + 20 <= dest.Length
    modifies dest
    ensures |Human(num, precision).text| <= 19
    ensures dest[..] == Shown(old(dest[..]), at, Human(num, precision))
  {
    hide Render, Overlay, UnitPart;
    ghost var buf := dest[..];
    HumanFits(num, precision);
    PartLengths(num, precision);
    OverlayEmpty(buf, at);
    ghost var a := Part("", num, precision, false);
    var pos, n, p, needPlus := at, num, precision, false;
    a, pos, n, p, needPlus := PutPart(dest, buf, at, a, pos, n, p, needPlus, 0x4000_0000, 'G', false);
    a, pos, n, p, needPlus := PutPart(dest, buf, at, a, pos, n, p, needPlus, 0x10_0000, 'M', false);
    a, pos, n, p, needPlus := PutPart(dest, buf, at, a, pos, n, p, needPlus, 0x400, 'k', true);
    assert a == Units(num, precision);
    if p > 0 {
      ShortNumeral(n);
      if needPlus {
        PlusOver(buf, at, a);
        dest[pos] := '+';
        pos := pos + 1;
      }
      var end := Int2Str(dest, pos, n, 10, false);
      NumberOver(buf, at, a);
    } else if !needPlus {
      OverlayNext(buf, at, "", '0');
      OverlayNext(buf, at, "0", '\0');
      dest[pos] := '0';
      pos := pos + 1;
      dest[pos] := '\0';
      assert "" + ['0'] == "0";
    }
  }

  /** Each of the three blocks: plus sign, quotient, and the unit letter over the NUL. */
  method PutPart(dest: array<char>, ghost buf: seq<char>, at: nat, ghost a: Part, pos: nat, n: nat, p: nat,
                 needPlus: bool,
                 size: nat, letter: char, nul: bool)
    returns (ghost r: Part, pos': nat, n': nat, p': nat, needPlus': bool)
    requires IsUnit(size, letter) && |buf| == dest.Length && at + 20 <= dest.Length
    requires !a.ended && |a.text| <= 8 && dest[..] == Overlay(buf, at, a.text)
    requires a.n == n && a.p == p && pos == at + |a.text| && (needPlus <==> a.text != "")
    requires p > 0 ==> n / size < 1024
    modifies dest
    ensures r == UnitPart(a, size, letter, nul) && |r.text| <= |a.text| + 6 && at + |r.text| < dest.Length
    ensures dest[..] == Shown(buf, at, r)
    ensures r.ended ==> nul && r.text != ""
    ensures r.n == n' && r.p == p' && pos' == at + |r.text| && (needPlus' <==> r.text != "")
  {
    hide Render, Overlay;
    r, pos', n', p', needPlus' := a, pos, n, p, needPlus;
    if p > 0 && n >= size {
      ShortNumeral(n / size);
      if needPlus {
        OverlayNext(buf, at, a.text, '+');
        dest[pos'] := '+';
        pos' := pos' + 1;
      }
      ghost var s := Plus(a.text);
      assert dest[..] == Overlay(buf, at, s) && pos' == at + |s|;
      var end := Int2Str(dest, pos', n / size, 10, false);
      ghost var t := s + Render(n / size, 10, false);
      OverlayTwice(buf, at, s, Render(n / size, 10, false) + ['\0']);
      assert s + (Render(n / size, 10, false) + ['\0']) == t + ['\0'];
      pos' := FindNul(dest, buf, at, pos', end, t, n / size);
      OverReplace(buf, at, t, '\0', letter);
      dest[pos'] := letter;
      pos' := pos' + 1;
      if nul {
        OverlayNext(buf, at, t + [letter], '\0');
        dest[pos'] := '\0';
      }
      n', p', needPlus' := n % size, p - 1, true;
      r := UnitPart(a, size, letter, nul);
    }
  }

  lemma {:induction false} NumeralNoNul(n: nat)
    ensures forall c | c in Numeral(n, 10, false) :: c != '\0'
    decreases n
  {
    if n > 0 {
      NumeralNoNul(n / 10);
      DigitIsRead(n % 10);
    }
  }

  lemma NoNul(n: nat)
    ensures forall c | c in Render(n, 10, false) :: c != '\0'
  {
    NumeralNoNul(n);
  }

  /** The last character of an overlay replaced. */
  lemma OverReplace(buf: seq<char>, at: nat, t: string, c: char, d: char)
    requires at + |t| < |buf|
    ensures |Overlay(buf, at, t + [c])| == |buf|
    ensures Overlay(buf, at, t + [c])[at + |t| := d] == Overlay(buf, at, t + [d])
  {}

  /** The plus sign goes over the NUL behind k, or behind a letter without one. */
  lemma PlusOver(buf: seq<char>, at: nat, a: Part)
    requires a.text != "" && at + |a.text| < |buf|
    ensures |Shown(buf, at, a)| == |buf| && Shown(buf, at, a)[at + |a.text| := '+'] == Overlay(buf, at, Plus(a.text))
  {}

  lemma NumberOver(buf: seq<char>, at: nat, a: Part)
    requires at + |Plus(a.text)| + |Render(a.n, 10, false)| < |buf|
    ensures |Overlay(buf, at, Plus(a.text))| == |buf|
    ensures Overlay(Overlay(buf, at, Plus(a.text)), at + |Plus(a.text)|, Render(a.n, 10, false) + ['\0']) ==
      Overlay(buf, at, Plus(a.text) + Render(a.n, 10, false) + ['\0'])
  {}

  /** `while(*dest != 0) dest++;` from the start of a number just written. */
  method FindNul(dest: array<char>, ghost buf: seq<char>, ghost at: nat, from: nat, ghost end: nat, ghost t: string,
    ghost q: nat)
    returns (pos: nat)
    requires at + |t| < |buf| && from <= end == at + |t| && end - from == |Render(q, 10, false)|
    requires at <= from && t[from - at..] == Render(q, 10, false)
    requires dest[..] == Overlay(buf, at, t + ['\0'])
    ensures pos == end
  {
    NoNul(q);
    pos := from;
    assert |dest[..]| == |buf| && dest[..][end] == '\0';
    forall k | from <= k < end ensures dest[k] != '\0' {
      assert dest[..][k] == t[k - at] == Render(q, 10, false)[k - from];
      assert Render(q, 10, false)[k - from] in Render(q, 10, false);
    }
    while dest[pos] != '\0'
      invariant from <= pos <= end < dest.Length
      decreases end - pos
    {
      pos := pos + 1;
    }
  }
}
