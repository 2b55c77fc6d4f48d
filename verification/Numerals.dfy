/** Positional numerals over ASCII bytes: the common ground of the integer
    printer and the integer parsers of the ethnum crate. */
module Numerals {
  import opened Machine
  import opened Arithmetic

  // ----- powers -----

  function Pow(b: nat, e: nat): nat
  {
    if e == 0 then 1 else Pow(b, e - 1) * b
  }

  lemma {:induction false} PowPositive(b: nat, e: nat)
    requires b > 0
    ensures Pow(b, e) > 0
  {
    if e > 0 { PowPositive(b, e - 1); }
  }

  lemma {:induction false} PowMonotone(b: nat, c: nat, d: nat, e: nat)
    requires 0 < b <= c && d <= e
    ensures Pow(b, d) <= Pow(c, e)
    decreases e
  {
    if e > 0 {
      if d == e {
        PowMonotone(b, c, d - 1, e - 1);
        MulMono(Pow(b, d - 1), Pow(c, e - 1), b, c);
      } else {
        PowMonotone(b, c, d, e - 1);
        PowPositive(c, e - 1);
        MulMono(Pow(c, e - 1), Pow(c, e - 1), 1, c);
      }
    }
  }

  lemma {:induction false} PowAdd(b: nat, d: nat, e: nat)
    ensures Pow(b, d + e) == Pow(b, d) * Pow(b, e)
  {
    if e > 0 {
      PowAdd(b, d, e - 1);
      assert Pow(b, d + e) == Pow(b, d + (e - 1)) * b && Pow(b, e) == Pow(b, e - 1) * b;
      hide Pow;
      MulAssociative(Pow(b, d), Pow(b, e - 1), b);
    }
  }

  /** The buffer sizes of the printers: 78 decimal digits, 256 binary digits,
      and the 63/64 hexadecimal digits that are certain not to overflow. */
  lemma PowersOf256Bits()
    ensures Pow(10, 78) >= TWO256
    ensures Pow(2, 256) == TWO256
    ensures Pow(16, 64) == TWO256
    ensures Pow(16, 63) <= TWO255
  {
    PowersOfTen();
    PowersOfTwo();
    PowersOfSixteen();
  }

  lemma PowDouble(b: nat, e: nat, v: nat)
    requires Pow(b, e) == v
    ensures Pow(b, 2 * e) == v * v
  {
    PowAdd(b, e, e);
  }

  lemma PowersOfTen()
    ensures Pow(10, 78) >= TWO256
  {
    assert Pow(10, 3) == 1_000 && Pow(10, 1) == 10;
    hide Pow;
    PowDouble(10, 3, 1_000);
    PowDouble(10, 6, 1_000_000);
    PowAdd(10, 12, 1);
    PowDouble(10, 13, 10_000_000_000_000);
    PowDouble(10, 26, 100_000_000_000_000_000_000_000_000);
    PowAdd(10, 52, 26);
  }

  lemma PowersOfTwo()
    ensures Pow(2, 128) == TWO128 && Pow(2, 256) == TWO256
  {
    assert Pow(2, 4) == 0x10;
    hide Pow;
    PowDouble(2, 4, 0x10);
    PowDouble(2, 8, 0x100);
    PowDouble(2, 16, 0x1_0000);
    PowDouble(2, 32, 0x1_0000_0000);
    PowDouble(2, 64, TWO64);
    PowDouble(2, 128, TWO128);
  }

  lemma PowersOfSixteen()
    ensures Pow(16, 64) == TWO256 && Pow(16, 63) == TWO256 / 16
  {
    assert Pow(16, 2) == 0x100 && Pow(16, 1) == 16;
    hide Pow;
    PowDouble(16, 2, 0x100);
    PowDouble(16, 4, 0x1_0000);
    PowDouble(16, 8, 0x1_0000_0000);
    PowDouble(16, 16, TWO64);
    PowDouble(16, 32, TWO128);
    PowAdd(16, 63, 1);
  }

  // ----- digits -----

  /** `char::to_digit` on a byte read as a character. */
  function ToDigit(c: byte, radix: int): (d: Option<nat>)
    requires 2 <= radix <= 36
    ensures d.Some? ==> d.value < radix
  {
    var v :=
      if 48 <= c <= 57 then c - 48
      else if 97 <= c <= 122 then c - 97 + 10
      else if 65 <= c <= 90 then c - 65 + 10
      else 36;
    if v < radix then Some(v) else None
  }

  ghost predicate AllDigits(s: seq<byte>, radix: int)
    requires 2 <= radix <= 36
  {
    forall i :: 0 <= i < |s| ==> ToDigit(s[i], radix).Some?
  }

  /** The number a digit string denotes, most significant digit first. */
  ghost function Value(s: seq<byte>, radix: int): nat
    requires 2 <= radix <= 36
    decreases |s|
  {
    if s == [] then 0 else Value(s[..|s| - 1], radix) * radix + ToDigit(s[|s| - 1], radix).GetOr(0)
  }

  lemma ValueStep(s: seq<byte>, i: nat, radix: int)
    requires 2 <= radix <= 36 && i < |s|
    ensures Value(s[..i + 1], radix) == Value(s[..i], radix) * radix + ToDigit(s[i], radix).GetOr(0)
  {
    assert s[..i + 1][..i] == s[..i];
  }

  lemma {:induction false} ValueMonotone(s: seq<byte>, i: nat, j: nat, radix: int)
    requires 2 <= radix <= 36 && i <= j <= |s|
    ensures Value(s[..i], radix) <= Value(s[..j], radix)
    decreases j - i
  {
    if i < j {
      ValueMonotone(s, i, j - 1, radix);
      ValueStep(s, j - 1, radix);
      var v := Value(s[..j - 1], radix);
      MulMono(v, v, 1, radix);
    }
  }

  lemma {:induction false} ValueBound(s: seq<byte>, radix: int)
    requires 2 <= radix <= 36
    ensures Value(s, radix) < Pow(radix, |s|)
    decreases |s|
  {
    if s != [] {
      var init := s[..|s| - 1];
      ValueBound(init, radix);
      BoundStep(Value(init, radix), Pow(radix, |init|), radix, ToDigit(s[|s| - 1], radix).GetOr(0));
    }
  }

  lemma BoundStep(v: nat, p: nat, radix: nat, d: nat)
    requires v < p && d < radix
    ensures v * radix + d < p * radix
  {
    MulMono(v + 1, p, radix, radix);
    Distribute(radix, v, 1);
  }

  // ----- printing -----

  function DigitChar(d: nat, upper: bool): (c: byte)
    requires d < 36
  {
    if d < 10 then 48 + d else if upper then 65 + (d - 10) else 97 + (d - 10)
  }

  const LOWER_DIGITS: string := "0123456789abcdefghijklmnopqrstuvwxyz"
  const UPPER_DIGITS: string := "0123456789ABCDEFGHIJKLMNOPQRSTUVWXYZ"

  /** Digits are written with the letters of one case and read in either case. */
  lemma DigitsAreWritten(d: nat, c: byte, radix: int)
    requires d < 36 && 2 <= radix <= 36
    ensures DigitChar(d, false) == LOWER_DIGITS[d] as int && DigitChar(d, true) == UPPER_DIGITS[d] as int
    ensures ToDigit(c, radix) == Some(d)
       <==> d < radix && (c == LOWER_DIGITS[d] as int || c == UPPER_DIGITS[d] as int)
  {
    assert LOWER_DIGITS[d] as int == if d < 10 then 48 + d else 87 + d by { TableOfDigits(d); }
    assert UPPER_DIGITS[d] as int == if d < 10 then 48 + d else 55 + d by { TableOfDigits(d); }
  }

  lemma TableOfDigits(d: nat)
    requires d < 36
    ensures LOWER_DIGITS[d] as int == if d < 10 then 48 + d else 87 + d
    ensures UPPER_DIGITS[d] as int == if d < 10 then 48 + d else 55 + d
  {}

  /** The canonical numeral of `n`: what every printer must produce. */
  ghost function Numeral(n: nat, base: int, upper: bool): (s: seq<byte>)
    requires 2 <= base <= 36
    ensures s != []
  {
    if n < base then [DigitChar(n, upper)]
    else
      QuotientSmaller(n, base);
      Numeral(n / base, base, upper) + [DigitChar(n % base, upper)]
  }

  lemma {:induction false} NumeralValue(n: nat, base: int, upper: bool)
    requires 2 <= base <= 36
    ensures AllDigits(Numeral(n, base, upper), base)
    ensures Value(Numeral(n, base, upper), base) == n
  {
    NumeralUnfold(n, base, upper);
    hide Numeral, Value, AllDigits;
    if n >= base {
      QuotientSmaller(n, base);
      var q, d := n / base, n % base;
      assert n == q * base + d by { DivFloor(n, base); }
      NumeralValue(q, base, upper);
      NumeralSnoc(Numeral(n, base, upper), Numeral(q, base, upper), d, base, upper);
    } else {
      EmptyNumeral(base);
      NumeralSnoc(Numeral(n, base, upper), [], n, base, upper);
    }
  }

  lemma NumeralUnfold(n: nat, base: int, upper: bool)
    requires 2 <= base <= 36
    ensures n < base ==> Numeral(n, base, upper) == [] + [DigitChar(n, upper)]
    ensures n >= base ==> Numeral(n, base, upper) == Numeral(n / base, base, upper) + [DigitChar(n % base, upper)]
  {}

  lemma EmptyNumeral(base: int)
    requires 2 <= base <= 36
    ensures AllDigits([], base) && Value([], base) == 0
  {}

  lemma NumeralSnoc(s: seq<byte>, init: seq<byte>, d: nat, base: int, upper: bool)
    requires 2 <= base <= 36 && d < base && AllDigits(init, base)
    requires s == init + [DigitChar(d, upper)]
    ensures AllDigits(s, base) && Value(s, base) == Value(init, base) * base + d
  {
    assert s[..|s| - 1] == init;
    assert ToDigit(DigitChar(d, upper), base) == Some(d);
  }

  lemma {:induction false} NumeralNoLeadingZero(n: nat, base: int, upper: bool)
    requires 2 <= base <= 36 && n > 0
    ensures Numeral(n, base, upper)[0] != 48
  {
    if n >= base {
      QuotientSmaller(n, base);
      NumeralNoLeadingZero(n / base, base, upper);
    }
  }

  lemma {:induction false} NumeralLength(n: nat, base: int, upper: bool, k: nat)
    requires 2 <= base <= 36 && k >= 1 && n < Pow(base, k)
    ensures |Numeral(n, base, upper)| <= k
    decreases k
  {
    if n >= base {
      var q := n / base;
      assert Pow(base, 0) == 1;
      if k > 1 {
        assert Pow(base, k) == Pow(base, k - 1) * base;
        QuotientBelow(n, base, Pow(base, k - 1));
        NumeralLength(q, base, upper, k - 1);
      }
    }
  }

  /** The canonical numeral is the only digit string for its number that has
      no leading zero, up to the case of letters. */
  lemma {:induction false} NumeralUnique(s: seq<byte>, base: int, upper: bool)
    requires 2 <= base <= 36 && s != [] && AllDigits(s, base)
    requires forall i :: 0 <= i < |s| ==> exists d: nat :: d < base && s[i] == DigitChar(d, upper)
    requires |s| > 1 ==> s[0] != 48
    ensures s == Numeral(Value(s, base), base, upper)
    decreases |s|
  {
    var k := |s| - 1;
    var d: nat :| d < base && s[k] == DigitChar(d, upper);
    var init := s[..k];
    assert s == init + [s[k]];
    NumeralSnoc(s, init, d, base, upper);
    var v := Value(init, base);
    EmptyNumeral(base);
    hide Value;
    if k > 0 {
      NumeralUnique(init, base, upper);
      NumeralUnfold(0, base, upper);
      assert v > 0;
    } else {
      assert v == 0;
    }
    NumeralOfStep(v, d, base, upper);
  }

  lemma NumeralOfStep(v: nat, d: nat, base: int, upper: bool)
    requires 2 <= base <= 36 && d < base
    ensures Numeral(v * base + d, base, upper)
         == (if v == 0 then [] else Numeral(v, base, upper)) + [DigitChar(d, upper)]
  {
    DivModOfStep(v, base, d);
    NumeralUnfold(v * base + d, base, upper);
    hide Numeral;
    if v > 0 { MulMono(1, v, base, base); }
  }

  lemma DivModOfStep(v: int, base: int, d: int)
    requires base > 0 && 0 <= d < base
    ensures (v * base + d) / base == v && (v * base + d) % base == d
  {
    QuotientUnique(v * base + d, base, v, d);
  }

}
