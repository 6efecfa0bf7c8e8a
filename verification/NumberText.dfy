/** The number printers of lib/c/printf.c. */
module NumberText {

  const INT_MIN := -0x8000_0000
  const INT_MAX := 0x7FFF_FFFF

  /** C's % and / truncate towards zero. */
  function CRem(n: int, b: int): int
    requires b > 0
  {
    if n >= 0 then n % b else -(-n % b)
  }

  function CDiv(n: int, b: int): int
    requires b > 0
  {
    if n >= 0 then n / b else -(-n / b)
  }

  /** Negation in 32 bits: the most negative number is its own. */
  function Negate(n: int): int { if n == INT_MIN then n else -n }

  /** What is left to print once a minus sign has been written. */
  function Magnitude(num: int): int { if num < 0 then Negate(num) else num }

  /** Digits the loop computes for each base: max_strlen_pc times sizeof(int). */
  function DigitCount(base: int): nat { if base == 10 then 12 else 8 }

  // ---------------------------------------------------------------- reference: numerals

  function DigitChar(d: int, upper: bool): char
    requires 0 <= d < 16
  {
    if upper then "0123456789ABCDEF"[d] else "0123456789abcdef"[d]
  }

  /** The numeral of a positive number; nothing for zero. */
  function Numeral(n: nat, base: int, upper: bool): string
    requires 2 <= base <= 16
  {
    if n == 0 then "" else Numeral(n / base, base, upper) + [DigitChar(n % base, upper)]
  }

  function Render(num: int, base: int, upper: bool): string
    requires 2 <= base <= 16
  {
    if num < 0 then "-" + Numeral(-num, base, upper)
    else if num == 0 then "0"
    else Numeral(num, base, upper)
  }

  function CharDigit(c: char): int {
    if '0' <= c <= '9' then c as int - '0' as int
    else if 'a' <= c <= 'f' then c as int - 'a' as int + 10
    else if 'A' <= c <= 'F' then c as int - 'A' as int + 10
    else 0
  }

  function ParseNat(s: string, base: int): int {
    if s == "" then 0 else base * ParseNat(s[..|s| - 1], base) + CharDigit(s[|s| - 1])
  }

  function Parse(s: string, base: int): int {
    if s != "" && s[0] == '-' then -ParseNat(s[1..], base) else ParseNat(s, base)
  }

  lemma CharDigitInverse(d: int, upper: bool)
    requires 0 <= d < 16
    ensures CharDigit(DigitChar(d, upper)) == d && DigitChar(d, upper) != '-'
    ensures IsDigit(DigitChar(d, upper), upper) && (d != 0 ==> DigitChar(d, upper) != '0')
  {}

  /** A decimal digit, or a hexadecimal one in the case asked for. */
  predicate IsDigit(c: char, upper: bool) {
    '0' <= c <= '9' || if upper then 'A' <= c <= 'F' else 'a' <= c <= 'f'
  }

  lemma DivRem(n: int, base: int)
    requires base == 10 || base == 16
    ensures base * (n / base) + n % base == n && 0 <= n % base < base
    ensures n >= 0 ==> 0 <= n / base && (n > 0 ==> n / base < n) && (n > 0 <==> n / base > 0 || n % base != 0)
  {}

  lemma ParseLast(s: string, c: char, base: int)
    ensures ParseNat(s + [c], base) == base * ParseNat(s, base) + CharDigit(c)
  {}

  lemma NumeralUnfold(n: nat, base: int, upper: bool)
    requires base == 10 || base == 16
    ensures base * (n / base) + n % base == n && 0 <= n % base < 16
    ensures Numeral(n, base, upper) ==
      if n == 0 then "" else Numeral(n / base, base, upper) + [DigitChar(n % base, upper)]
  {}

  lemma {:induction false} NumeralParses(n: nat, base: int, upper: bool)
    requires base == 10 || base == 16
    ensures ParseNat(Numeral(n, base, upper), base) == n
    ensures forall c | c in Numeral(n, base, upper) :: c != '-'
    ensures n > 0 ==> Numeral(n, base, upper) != "" && Numeral(n, base, upper)[0] != '0'
    ensures forall c | c in Numeral(n, base, upper) :: IsDigit(c, upper)
    decreases n
  {
    hide Numeral, ParseNat, CharDigit, DigitChar, IsDigit;
    NumeralUnfold(n, base, upper);
    if n > 0 {
      DivRem(n, base);
      var q, d := n / base, n % base;
      NumeralParses(q, base, upper);
      NumeralUnfold(q, base, upper);
      CharDigitInverse(d, upper);
      ParseLast(Numeral(q, base, upper), DigitChar(d, upper), base);
    } else {
      NoParse(base);
    }
  }

  /** Parsing what is printed gives the number back; it has digits of the right case only, behind a sign if
      the number is negative, and no leading zero. */
  lemma PrintParse(num: int, base: int, upper: bool)
    requires base == 10 || base == 16
    ensures Parse(Render(num, base, upper), base) == num
    ensures num == 0 ==> Render(num, base, upper) == "0"
    ensures num > 0 ==> Render(num, base, upper) != "" && Render(num, base, upper)[0] != '0'
    ensures num < 0 ==> |Render(num, base, upper)| > 1 && Render(num, base, upper)[1] != '0'
    ensures forall i | (if num < 0 then 1 else 0) <= i < |Render(num, base, upper)| ::
      IsDigit(Render(num, base, upper)[i], upper)
    ensures num < 0 ==> Render(num, base, upper)[0] == '-'
  {
    hide Numeral, ParseNat;
    var s := Numeral(if num < 0 then -num else num, base, upper);
    NumeralParses(if num < 0 then -num else num, base, upper);
    if num < 0 {
      assert ("-" + s)[1..] == s;
    } else if num > 0 {
      assert s[0] in s;
    } else {
      ParseLast("", '0', base);
      assert "" + ['0'] == "0" && ParseNat("", base) == 0 by { NoParse(base); }
    }
  }

  lemma NoParse(base: int)
    ensures ParseNat("", base) == 0
  {}

  // ---------------------------------------------------------------- the digit loop

  /** n after k rounds of num /= base. */
  function Quotient(n: int, base: int, k: nat): int
    requires base > 0
  {
    if k == 0 then n else CDiv(Quotient(n, base, k - 1), base)
  }

  function Pow(b: int, k: nat): int { if k == 0 then 1 else b * Pow(b, k - 1) }

  lemma DivLess(q: nat, base: int, p: int)
    requires (base == 10 || base == 16) && q < base * p
    ensures 0 <= q / base < p
  {}

  lemma {:induction false} QuotientBound(n: nat, base: int, k: nat, j: nat)
    requires (base == 10 || base == 16) && n < Pow(base, k + j)
    ensures 0 <= Quotient(n, base, k) < Pow(base, j)
    decreases k
  {
    if k > 0 {
      QuotientBound(n, base, k - 1, j + 1);
      DivLess(Quotient(n, base, k - 1), base, Pow(base, j));
    }
  }

  /** The loop computes enough digits: what is left of the number is zero. */
  lemma DigitsSuffice(n: nat, base: int)
    requires base == 10 || base == 16
    requires n <= INT_MAX
    ensures Quotient(n, base, DigitCount(base)) == 0
  {
    if base == 10 {
      assert Pow(10, 4) == 10000 && Pow(10, 8) == 10000 * Pow(10, 4) && Pow(10, 12) == 10000 * Pow(10, 8);
      QuotientBound(n, 10, 12, 0);
    } else {
      assert Pow(16, 4) == 65536 && Pow(16, 8) == 65536 * Pow(16, 4);
      QuotientBound(n, 16, 8, 0);
    }
  }

  lemma DivSign(q: int, base: int)
    requires base == 10 || base == 16
    ensures q >= 0 ==> CDiv(q, base) >= 0
    ensures q <= 0 ==> CDiv(q, base) <= 0
  {}

  lemma {:induction false} QuotientSign(n: int, base: int, k: nat)
    requires base == 10 || base == 16
    ensures n >= 0 ==> Quotient(n, base, k) >= 0
    ensures n <= 0 ==> Quotient(n, base, k) <= 0
  {
    if k > 0 {
      QuotientSign(n, base, k - 1);
      DivSign(Quotient(n, base, k - 1), base);
    }
  }

  /** Digit k as the loop stores it. */
  function Digit(n: int, base: int, k: nat): int
    requires base > 0
  {
    CRem(Quotient(n, base, k), base)
  }

  /** Every digit the loop stores indexes the digit string, exactly if the number is not INT_MIN, whose
      negation overflows and whose digits come out negative. */
  lemma DigitsInRangeIff(num: int, base: int)
    requires (base == 10 || base == 16) && INT_MIN <= num <= INT_MAX
    ensures (forall k | 0 <= k < DigitCount(base) ::
               0 <= Digit(Magnitude(num), base, k) < base)
      <==> num != INT_MIN
  {
    var n := Magnitude(num);
    if num != INT_MIN {
      forall k | 0 <= k < DigitCount(base) ensures 0 <= Digit(n, base, k) < base {
        QuotientSign(n, base, k);
      }
    } else if base == 10 {
      assert Digit(n, 10, 0) == -8;
    } else {
      assert Quotient(n, 16, 1) == -0x800_0000 && Quotient(n, 16, 2) == -0x80_0000 && Quotient(n, 16, 3) == -0x8_0000;
      assert Quotient(n, 16, 4) == -0x8000 && Quotient(n, 16, 5) == -0x800 && Quotient(n, 16, 6) == -0x80;
      assert Digit(n, 16, 7) == -8;
    }
  }

  /** A buffer with s in place of its characters from `at` on. */
  function Overlay(buf: seq<char>, at: nat, s: string): seq<char>
    requires at + |s| <= |buf|
  {
    buf[..at] + s + buf[at + |s|..]
  }

  lemma OverlayNext(buf: seq<char>, at: nat, s: string, c: char)
    requires at + |s| < |buf|
    ensures |Overlay(buf, at, s)| == |buf|
    ensures Overlay(buf, at, s)[at + |s| := c] == Overlay(buf, at, s + [c])
  {}

  lemma OverlayTwice(buf: seq<char>, at: nat, s: string, t: string)
    requires at + |s| + |t| <= |buf|
    ensures |Overlay(buf, at, s)| == |buf|
    ensures Overlay(Overlay(buf, at, s), at + |s|, t) == Overlay(buf, at, s + t)
  {}

  /** int2str_10l, int2str_16l and int2str_16u: writes to `dest` from `at` on; `end` is where the
      terminating NUL is. */
  method Int2Str(dest: array<char>, at: nat, num: int, base: int, upper: bool) returns (end: nat)
    requires (base == 10 || base == 16) && INT_MIN < num <= INT_MAX
    requires at + |Render(num, base, upper)| < dest.Length
    modifies dest
    ensures dest[..] == Overlay(old(dest[..]), at, Render(num, base, upper) + ['\0'])
    ensures end == at + |Render(num, base, upper)|
  {
    hide Overlay, Render;
    ghost var buf := dest[..];
    ghost var sign := if num < 0 then "-" else "";
    var n, p := num, at;
    SignFirst(num, base, upper);
    OverlayEmpty(buf, at);
    if n < 0 {
      OverlayNext(buf, at, "", '-');
      assert "" + ['-'] == sign;
      dest[p] := '-';
      p := p + 1;
      n := -n;
    }
    assert dest[..] == Overlay(buf, at, sign);
    var digits := LoopDigits(n, base);
    end := WriteDigits(dest, p, n, base, upper, digits);
    OverlayTwice(buf, at, sign, Render(n, base, upper));
    OverlayNext(buf, at, Render(num, base, upper), '\0');
    dest[end] := '\0';
  }

  lemma SignFirst(num: int, base: int, upper: bool)
    requires 2 <= base <= 16
    ensures Render(num, base, upper) ==
      (if num < 0 then "-" else "") + Render(if num < 0 then -num else num, base, upper)
  {}

  lemma OverlayEmpty(buf: seq<char>, at: nat)
    requires at <= |buf|
    ensures Overlay(buf, at, "") == buf
  {}

  /** The loop of lines 50-53. */
  method LoopDigits(num: nat, base: int) returns (digits: array<int>)
    requires (base == 10 || base == 16) && num <= INT_MAX
    ensures fresh(digits) && digits.Length == DigitCount(base)
    ensures forall k | 0 <= k < digits.Length :: digits[k] == Quotient(num, base, k) % base
    ensures forall k | 0 <= k <= digits.Length :: Quotient(num, base, k) >= 0
  {
    var n := num;
    digits := new int[DigitCount(base)];
    hide Quotient;
    assert Quotient(num, base, 0) == num by { QuotientStep(num, base, 0); }
    var i := 0;
    while i < digits.Length
      invariant 0 <= i <= digits.Length && n == Quotient(num, base, i) && n >= 0
      invariant forall k | 0 <= k < i :: digits[k] == Quotient(num, base, k) % base
      invariant forall k | 0 <= k <= i :: Quotient(num, base, k) >= 0
    {
      QuotientStep(num, base, i);
      digits[i] := CRem(n, base);
      n := CDiv(n, base);
      i := i + 1;
    }
  }

  lemma QuotientStep(n: int, base: int, k: nat)
    requires base > 0
    ensures Quotient(n, base, 0) == n && Quotient(n, base, k + 1) == CDiv(Quotient(n, base, k), base)
  {}

  /** The loop of lines 54-67: digits from the highest, without leading zeros, "0" for zero. */
  method WriteDigits(dest: array<char>, at: nat, ghost num: nat, base: int, upper: bool, digits: array<int>)
    returns (end: nat)
    requires (base == 10 || base == 16) && num <= INT_MAX && digits.Length == DigitCount(base)
    requires forall k | 0 <= k < digits.Length :: digits[k] == Quotient(num, base, k) % base
    requires forall k | 0 <= k <= digits.Length :: Quotient(num, base, k) >= 0
    requires at + |Render(num, base, upper)| <= dest.Length
    modifies dest
    ensures end == at + |Render(num, base, upper)|
    ensures dest[..] == Overlay(old(dest[..]), at, Render(num, base, upper))
  {
    hide Overlay, Numeral, Quotient, DigitChar;
    ghost var buf := dest[..];
    DigitsSuffice(num, base);
    end := at;
    var printFlag := false;
    var i := digits.Length;
    NoNumeral(base, upper);
    OverlayEmpty(buf, at);
    while i > 0
      invariant 0 <= i <= digits.Length
      invariant end == at + |Numeral(Quotient(num, base, i), base, upper)| <= dest.Length
      invariant dest[..] == Overlay(buf, at, Numeral(Quotient(num, base, i), base, upper))
      invariant printFlag <==> Quotient(num, base, i) > 0
    {
      i := i - 1;
      NumeralStep(num, base, upper, i);
      NumeralFits(num, base, upper, i);
      if digits[i] != 0 { printFlag := true; }
      if printFlag {
        OverlayNext(buf, at, Numeral(Quotient(num, base, i + 1), base, upper), DigitChar(digits[i], upper));
        dest[end] := DigitChar(digits[i], upper);
        end := end + 1;
      }
    }
    QuotientStep(num, base, 0);
    if !printFlag {
      OverlayNext(buf, at, "", '0');
      assert "" + ['0'] == "0";
      dest[end] := '0';
      end := end + 1;
    }
  }

  lemma NoNumeral(base: int, upper: bool)
    requires base == 10 || base == 16
    ensures Numeral(0, base, upper) == ""
  {}

  lemma NumeralStep(num: nat, base: int, upper: bool, i: nat)
    requires (base == 10 || base == 16) && Quotient(num, base, i) >= 0 && Quotient(num, base, i + 1) >= 0
    ensures var q := Quotient(num, base, i);
      && Quotient(num, base, i + 1) == q / base
      && (q > 0 <==> q / base > 0 || q % base != 0)
      && 0 <= q % base < 16
      && Numeral(q, base, upper) == if q == 0 then "" else Numeral(q / base, base, upper) + [DigitChar(q % base, upper)]
  {}

  /** A shorter prefix of the digits has a numeral no longer than the whole. */
  lemma {:induction false} NumeralFits(num: nat, base: int, upper: bool, i: nat)
    requires (base == 10 || base == 16) && forall k | 0 <= k <= i :: Quotient(num, base, k) >= 0
    ensures Quotient(num, base, i) >= 0 && |Numeral(Quotient(num, base, i), base, upper)| <= |Render(num, base, upper)|
    ensures Quotient(num, base, i) == 0 ==> |Render(num, base, upper)| >= 1
  {
    if i > 0 {
      NumeralFits(num, base, upper, i - 1);
      NumeralStep(num, base, upper, i - 1);
    }
  }
}
