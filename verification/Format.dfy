/** Integer to string formatting of the ethnum crate (ethnum-patched/src/fmt.rs). */
module Format {
  import opened Machine
  import opened Numerals
  import opened Parse

  // ----- the lookup table of two-digit groups -----

  /** One row of the table: the ten groups with tens digit `t`. */
  function Row(t: nat): seq<byte>
    requires t < 10
  {
    var c := 48 + t;
    [c, 48, c, 49, c, 50, c, 51, c, 52, c, 53, c, 54, c, 55, c, 56, c, 57]
  }

  /** `DEC_DIGITS_LUT`: the ASCII bytes of "00", "01", ..., "99". */
  const DEC_DIGITS_LUT: seq<byte> :=
    Row(0) + Row(1) + Row(2) + Row(3) + Row(4) + Row(5) + Row(6) + Row(7) + Row(8) + Row(9)

  /** Character j of the row with tens digit t. */
  function RowChar(t: nat, j: nat): int { if j % 2 == 0 then 48 + t else 48 + j / 2 }

  lemma RowAt(t: nat, j: nat)
    requires t < 10 && j < 20
    ensures |Row(t)| == 20 && Row(t)[j] == RowChar(t, j)
  {}

  lemma LutAt(i: nat)
    requires i < 200
    ensures |DEC_DIGITS_LUT| == 200 && DEC_DIGITS_LUT[i] == RowChar(i / 20, i % 20)
  {
    hide Row, RowChar;
    var j := i % 20;
    RowAt(0, j); RowAt(1, j); RowAt(2, j); RowAt(3, j); RowAt(4, j);
    RowAt(5, j); RowAt(6, j); RowAt(7, j); RowAt(8, j); RowAt(9, j);
  }

  lemma LutPair(d: nat)
    requires d < 100
    ensures |DEC_DIGITS_LUT| == 200
    ensures DEC_DIGITS_LUT[2 * d] == 48 + d / 10 && DEC_DIGITS_LUT[2 * d + 1] == 48 + d % 10
  {
    hide DEC_DIGITS_LUT;
    LutAt(2 * d);
    LutAt(2 * d + 1);
    assert 2 * d / 20 == d / 10 && (2 * d + 1) / 20 == d / 10;
    assert 2 * d % 20 == 2 * (d % 10) && (2 * d + 1) % 20 == 2 * (d % 10) + 1;
  }

  // ----- decimal -----

  /** The decimal numeral the printer must produce. */
  ghost function Decimal(n: nat): (s: seq<byte>)
    ensures s != []
  {
    Numeral(n, 10, false)
  }

  lemma DecimalPair(q: nat, r: nat)
    requires q > 0 && r < 100
    ensures Decimal(q * 100 + r) == Decimal(q) + [48 + r / 10, 48 + r % 10]
  {
    DecimalDigit(q, r / 10);
    DecimalDigit(q * 10 + r / 10, r % 10);
    assert q * 100 + r == (q * 10 + r / 10) * 10 + r % 10;
  }

  lemma DecimalDigit(q: nat, d: nat)
    requires q > 0 && d < 10
    ensures Decimal(q * 10 + d) == Decimal(q) + [48 + d]
  {
    assert (q * 10 + d) / 10 == q && (q * 10 + d) % 10 == d;
  }

  lemma DecimalLength(n: u256)
    ensures |Decimal(n)| <= 78
  {
    PowersOfTen();
    NumeralLength(n, 10, false, 78);
  }

  /** The two characters of `d` in the table, copied to `buf[at..at + 2]`. */
  method CopyPair(buf: array<byte>, at: int, d: nat)
    requires 0 <= at && at + 2 <= buf.Length && d < 100
    modifies buf
    ensures buf[..at] == old(buf[..at])
    ensures buf[at..] == [48 + d / 10, 48 + d % 10] + old(buf[at + 2..])
  {
    hide DEC_DIGITS_LUT;
    LutPair(d);
    var lo, hi := DEC_DIGITS_LUT[2 * d], DEC_DIGITS_LUT[2 * d + 1];
    buf[at] := lo;
    buf[at + 1] := hi;
  }

  ghost function Pair(d: nat): seq<byte>
    requires d < 100
  {
    [48 + d / 10, 48 + d % 10]
  }

  lemma JoinSlices(s: seq<byte>, at: nat, head: seq<byte>, x: seq<byte>, y: seq<byte>, rest: seq<byte>)
    requires at <= |head| <= |s| && s[..|head|] == head && s[|head|..] == y + rest
    requires head[at..] == x
    ensures s[at..] == x + y + rest
  {
    assert s == head + (y + rest);
  }

  /** The four digits of `rem`, copied to `buf[at..at + 4]`. */
  method CopyQuad(buf: array<byte>, at: int, rem: nat)
    requires 0 <= at && at + 4 <= buf.Length && rem < 10000
    modifies buf
    ensures buf[at..] == Pair(rem / 100) + Pair(rem % 100) + old(buf[at + 4..])
  {
    ghost var tail := buf[at + 4..];
    var d1, d2 := rem / 100, rem % 100;
    CopyPair(buf, at, d1);
    ghost var mid := buf[..];
    assert mid[at..] == Pair(d1) + old(buf[at + 2..]);
    assert mid[at + 4..] == mid[at..][4..] == tail;
    assert mid[..at + 2][at..] == Pair(d1);
    CopyPair(buf, at + 2, d2);
    JoinSlices(buf[..], at, mid[..at + 2], Pair(d1), Pair(d2), tail);
  }

  lemma DecimalQuad(q: nat, rem: nat)
    requires q > 0 && rem < 10000
    ensures Decimal(q * 10000 + rem) == Decimal(q) + (Pair(rem / 100) + Pair(rem % 100))
  {
    hide Decimal;
    var n := q * 100 + rem / 100;
    DecimalPair(q, rem / 100);
    DecimalPair(n, rem % 100);
    assert q * 10000 + rem == n * 100 + rem % 100;
  }

  lemma SplitTail(whole: seq<byte>, head: seq<byte>, digits: seq<byte>, tail: seq<byte>, rest: seq<byte>)
    requires whole == (head + digits) + tail && rest == digits + tail
    ensures whole == head + rest && |whole| == |head| + |rest|
  {}

  /** `fmt_u256`: fills the 79-byte buffer from its end, four digits at a time.
      Every index used is inside the buffer, and at least one byte stays free. */
  method FormatDecimal(n0: u256) returns (s: seq<byte>)
    ensures s == Decimal(n0) && |s| <= 78
  {
    hide Decimal, Numeral;
    DecimalLength(n0);
    var buf := new byte[79];
    var curr: int := buf.Length;
    var n := n0;
    assert Decimal(n0) == Decimal(n) + buf[curr..];
    while n >= 10000
      invariant 0 <= n && 0 <= curr <= 79
      invariant Decimal(n0) == Decimal(n) + buf[curr..]
      decreases n
    {
      var q, rem := n / 10000, n % 10000;
      DecimalQuad(q, rem);
      ghost var tail := buf[curr..];
      n := q;
      curr := curr - 4;
      CopyQuad(buf, curr, rem);
      SplitTail(Decimal(n0), Decimal(n),
                Pair(rem / 100) + Pair(rem % 100), tail, buf[curr..]);
    }
    curr := LastDigits(buf, curr, n);
    s := buf[curr..];
  }

  /** The digits that remain below 10000: two more if there are more than two,
      then the last one or two. */
  method LastDigits(buf: array<byte>, start: int, n0: nat) returns (curr: int)
    requires n0 < 10000 && |Decimal(n0)| <= start <= buf.Length
    modifies buf
    ensures 0 <= curr <= start && buf[curr..] == Decimal(n0) + old(buf[start..])
  {
    hide Decimal;
    ghost var tail := buf[start..];
    var n := n0;
    curr := start;
    if n >= 100 {
      var d1 := n % 100;
      DecimalPair(n / 100, d1);
      n := n / 100;
      curr := curr - 2;
      CopyPair(buf, curr, d1);
    }
    ghost var more := buf[curr..];
    assert Decimal(n0) + tail == Decimal(n) + more;
    DecimalSmall(n);
    if n < 10 {
      curr := curr - 1;
      buf[curr] := 48 + n;
      assert buf[curr..] == [48 + n] + more;
    } else {
      curr := curr - 2;
      CopyPair(buf, curr, n);
    }
  }

  lemma DecimalSmall(n: nat)
    requires n < 100
    ensures Decimal(n) == if n < 10 then [48 + n] else [48 + n / 10, 48 + n % 10]
  {
    if n >= 10 { DecimalDigit(n / 10, n % 10); }
  }

  // ----- bases 2, 8 and 16 -----

  datatype GenericRadix = Binary | Octal | LowerHex | UpperHex {
    function Base(): int {
      match this case Binary => 2 case Octal => 8 case LowerHex => 16 case UpperHex => 16
    }

    function Prefix(): seq<byte> {
      match this case Binary => BIN_PREFIX case Octal => OCT_PREFIX case LowerHex => HEX_PREFIX case UpperHex => HEX_PREFIX
    }

    /** `digit`: panics on `x >= Base()`. */
    function Digit(x: nat): byte
      requires x < Base()
    {
      DigitChar(x, UpperHex?)
    }

    ghost function NumeralOf(n: nat): (s: seq<byte>)
      ensures s != []
    {
      Numeral(n, Base(), UpperHex?)
    }
  }

  /** The characters each radix prints: lower-case letters for `{:x}`, capitals for `{:X}`. */
  function Alphabet(g: GenericRadix): string
  {
    match g
    case Binary => "01"
    case Octal => "01234567"
    case LowerHex => "0123456789abcdef"
    case UpperHex => "0123456789ABCDEF"
  }

  /** The last character is the digit of that value in the alphabet of the radix, and
      the others are the numeral of the rest. */
  lemma RadixCharacters(g: GenericRadix, n: nat)
    ensures |Alphabet(g)| == g.Base() && n % |Alphabet(g)| >= 0
    ensures var (s, b) := (g.NumeralOf(n), |Alphabet(g)|);
      && s[|s| - 1] == Alphabet(g)[n % b] as int
      && s[..|s| - 1] == if n < b then [] else g.NumeralOf(n / b)
  {
    NumeralUnfold(n, g.Base(), g.UpperHex?);
    hide Numeral, DigitChar;
    DigitsAreWritten(n % g.Base(), 0, 36);
    AlphabetPrefix(g, n % g.Base());
  }

  lemma AlphabetPrefix(g: GenericRadix, d: nat)
    requires d < g.Base()
    ensures |Alphabet(g)| == g.Base()
    ensures Alphabet(g)[d] == (if g.UpperHex? then UPPER_DIGITS else LOWER_DIGITS)[d]
  {}

  /** The prefixes are 0b, 0o and 0x. */
  lemma PrefixesWritten(g: GenericRadix)
    ensures |g.Prefix()| == 2 && g.Prefix()[0] == '0' as int
    ensures g.Prefix()[1] == (match g case Binary => 'b' case Octal => 'o' case LowerHex => 'x' case UpperHex => 'x') as int
  {}

  lemma RadixLength(g: GenericRadix, n: u256)
    ensures |g.NumeralOf(n)| <= 256
  {
    PowersOfTwo();
    PowMonotone(2, g.Base(), 256, 256);
    NumeralLength(n, g.Base(), g.UpperHex?, 256);
  }

  lemma RadixStep(g: GenericRadix, x: nat)
    ensures g.NumeralOf(x)
         == (if x / g.Base() == 0 then [] else g.NumeralOf(x / g.Base())) + [g.Digit(x % g.Base())]
  {}

  /** `GenericRadix::fmt_u256`: one digit at a time from the end of a 256-byte buffer. */
  method FormatRadix(g: GenericRadix, x0: u256) returns (s: seq<byte>)
    ensures s == g.NumeralOf(x0) && |s| <= 256
  {
    hide GenericRadix.NumeralOf, GenericRadix.Digit;
    RadixLength(g, x0);
    var buf := new byte[256];
    var curr: nat := buf.Length;
    var x: nat := x0;
    ghost var pending := g.NumeralOf(x);
    assert g.NumeralOf(x0) == pending + buf[curr..];
    while curr > 0
      invariant curr <= 256
      invariant g.NumeralOf(x0) == pending + buf[curr..] && pending == g.NumeralOf(x)
      decreases curr
    {
      RadixStep(g, x);
      var n := x % g.Base();
      x := x / g.Base();
      ghost var tail := buf[curr..];
      buf[curr - 1] := g.Digit(n);
      curr := curr - 1;
      assert buf[curr..] == [g.Digit(n)] + tail;
      if x == 0 {
        assert g.NumeralOf(x0) == buf[curr..];
        break;
      }
      pending := g.NumeralOf(x);
      SplitTail(g.NumeralOf(x0), pending, [g.Digit(n)], tail, buf[curr..]);
      assert curr > 0;
    }
    s := buf[curr..];
  }

  // ----- what is printed is read back -----

  /** The text of `{}`: a minus sign for a negative number, then the digits of
      its magnitude. */
  ghost function DisplayText(x: int): seq<byte>
  {
    if x >= 0 then Decimal(x) else [MINUS] + Decimal(0 - x)
  }

  /** `Display::fmt`: the magnitude of a negative number is its two's complement
      negation, complement plus one. */
  method Display(ty: IntType, x: int) returns (s: seq<byte>)
    requires ty.Fits(x)
    ensures s == DisplayText(x)
  {
    var word := x % TWO256;
    var isNonNegative := x >= 0;
    var n: u256 := if isNonNegative then word else ((TWO256 - 1 - word) + 1) % TWO256;
    assert isNonNegative ==> n == x;
    assert !isNonNegative ==> n == -x;
    var digits := FormatDecimal(n);
    s := if isNonNegative then digits else [MINUS] + digits;
  }

  lemma NumeralIsPlain(n: nat, base: int, upper: bool)
    requires 2 <= base <= 36
    ensures var s := Numeral(n, base, upper);
      && FirstInvalid(s, base) == |s| && s[..|s|] == s
      && Value(s, base) == n && s[0] != PLUS && s[0] != MINUS
  {
    NumeralValue(n, base, upper);
    var s := Numeral(n, base, upper);
    AllDigitsNoInvalid(s, base);
    assert ToDigit(s[0], base).Some?;
  }

  /** Printing and parsing back: every value of either type, the most negative one included. */
  lemma DisplayRoundTrip(ty: IntType, x: int)
    requires ty.Fits(x)
    ensures ParseResult(ty, DisplayText(x), 10, None) == Ok(x)
  {
    hide Value, FirstInvalid, Numeral;
    var m: nat := if x >= 0 then x else 0 - x;
    NumeralIsPlain(m, 10, false);
    var digits := Decimal(m);
    var src := DisplayText(x);
    if x < 0 { assert src[1..] == digits && src[0] == MINUS; }
    assert SplitSign(ty, src) == (x >= 0, digits);
    assert digits[0..] == digits;
  }

  /** The same for bases 2, 8 and 16, with and without the base's prefix. */
  lemma RadixRoundTrip(g: GenericRadix, x: u256)
    ensures ParseResult(U256, g.NumeralOf(x), g.Base(), None) == Ok(x)
    ensures ParseResult(U256, g.Prefix() + g.NumeralOf(x), g.Base(), Some(g.Prefix())) == Ok(x)
  {
    hide Value, FirstInvalid, Numeral;
    NumeralIsPlain(x, g.Base(), g.UpperHex?);
    var digits := g.NumeralOf(x);
    assert digits[0..] == digits;
    var src := g.Prefix() + digits;
    assert src[|g.Prefix()|..] == digits && g.Prefix() <= src && src[0] == 48;
  }

  /** What `from_str_prefixed` makes of a printed number: one of its attempts reads a
      prefixed one in the base of its prefix, and a decimal one of either type. */
  lemma PrefixedTextRoundTrip(g: GenericRadix, x: u256, ty: IntType, y: int)
    requires ty.Fits(y)
    ensures exists k: nat :: k < 4 && AttemptResult(U256, g.Prefix() + g.NumeralOf(x), k) == Ok(x)
    ensures exists k: nat :: k < 4 && AttemptResult(ty, DisplayText(y), k) == Ok(y)
  {
    RadixRoundTrip(g, x);
    DisplayRoundTrip(ty, y);
    hide ParseResult;
    var k := match g case Binary => 0 case Octal => 1 case LowerHex => 2 case UpperHex => 2;
    assert Attempt(k) == (g.Base(), Some(g.Prefix())) && Attempt(3) == (10, None);
    assert AttemptResult(U256, g.Prefix() + g.NumeralOf(x), k) == Ok(x) && AttemptResult(ty, DisplayText(y), 3) == Ok(y);
  }

  /** The decimal text has no leading zero, and determines the number. */
  lemma DecimalCanonical(x: nat, y: nat)
    ensures x > 0 ==> Decimal(x)[0] != 48
    ensures Decimal(x) == Decimal(y) ==> x == y
  {
    NumeralValue(x, 10, false);
    NumeralValue(y, 10, false);
    if x > 0 { NumeralNoLeadingZero(x, 10, false); }
  }
}
