/** Signed 256-bit Euclidean division (ethnum-patched/src/int.rs). */
module Int256 {
  import opened Machine
  import opened Arithmetic
  import opened Casts
  import opened NativeDivMod

  // ----- Euclidean division -----

  /** Euclid's division: the remainder is non-negative and below the divisor's magnitude. */
  ghost predicate IsEuclidean(x: int, y: int, q: int, r: int)
  {
    x == q * y + r && 0 <= r < (if y >= 0 then y else -y)
  }

  /** Quotient and remainder are determined, and are those of Dafny's `/` and `%`. */
  lemma EuclideanUnique(x: int, y: int, q: int, r: int)
    requires y != 0 && IsEuclidean(x, y, q, r)
    ensures q == x / y && r == x % y
  {
    var k := x / y - q;
    assert k * y == r - x % y by { assert (x / y) * y == q * y + k * y; }
    BelowMagnitude(k, y, r - x % y);
  }

  lemma BelowMagnitude(k: int, y: int, e: int)
    requires y != 0 && k * y == e && -(if y >= 0 then y else -y) < e < (if y >= 0 then y else -y)
    ensures k == 0
  {
    var m := if y >= 0 then y else -y;
    var j := if y >= 0 then k else -k;
    assert j * m == e;
    FactorSign(j, m);
  }

  /** `wrapping_div_rem_euclid`: division of magnitudes, then sign fixes in two's
      complement. The subtraction giving the remainder wraps when `rhs` is MIN.
      The result is exact for every pair but (MIN, -1), whose quotient wraps. */
  method WrappingDivRemEuclid(x: i256, rhs: i256) returns (quotient: i256, remainder: i256)
    requires rhs != 0
    ensures if x == MIN256 && rhs == -1 then quotient == MIN256 && remainder == 0
            else quotient == x / rhs && remainder == x % rhs
  {
    hide AsU256, AsI256, Wrap, Not, UnsignedAbs, IsNegative, HighWord;
    CastFacts(x);
    CastFacts(rhs);
    var dividendSign := IsNegative(x);
    var quotientSign := dividendSign != IsNegative(rhs);
    var absDividend := UnsignedAbs(x);
    var absDivisor := UnsignedAbs(rhs);
    MagnitudeDivision(absDividend, absDivisor);
    if !(x == MIN256 && rhs == -1) { OnlyMinOverflows(x, rhs); }
    var words := UDivMod4(absDividend, absDivisor);
    var (q, r) := words.value;
    quotient := AsI256(q);
    remainder := AsI256(r);
    WordFacts(q); WordFacts(r); WordFacts(absDivisor);
    var adjustRemainder := dividendSign && remainder != 0;
    if adjustRemainder {
      WrapFacts(AsI256(absDivisor) - remainder);
      remainder := Wrap(AsI256(absDivisor) - remainder);
    }
    assert remainder == if dividendSign && r != 0 then absDivisor - r else r;
    CastFacts(remainder);
    assert remainder >= 0 && UnsignedAbs(remainder) < absDivisor;
    if adjustRemainder {
      if quotientSign {
        CastFacts(quotient);
        quotient := Not(quotient);
      } else {
        WrapFacts(quotient + 1);
        quotient := Wrap(quotient + 1);
      }
    } else if quotientSign {
      CastFacts(quotient);
      quotient := Wrap(0 - quotient);
    }
    if x == MIN256 && rhs == -1 {
      assert q == TWO255;
    } else {
      assert quotient == SignFix(dividendSign, quotientSign, q, r);
      SignFixIsEuclidean(x, rhs);
    }
  }

  lemma MagnitudeDivision(m: nat, d: nat)
    requires d > 0 && m <= TWO255
    ensures 0 <= m % d < d && 0 <= m / d <= TWO255 && (d >= 2 ==> m / d <= TWO255 / 2)
  {
    assert m == (m / d) * d + m % d;
    if m / d >= 1 {
      FactorSign(m / d, d);
      if d >= 2 { AtLeastDouble(m / d, d); }
    }
  }

  lemma AtLeastDouble(q: nat, d: nat)
    requires d >= 2
    ensures q * d >= 2 * q
  {}

  /** Only MIN / -1 has a quotient of magnitude 2^255 and positive sign. */
  lemma OnlyMinOverflows(x: i256, rhs: i256)
    requires rhs != 0 && !(x == MIN256 && rhs == -1)
    ensures Magnitude(x) / Magnitude(rhs) == TWO255 ==> x < 0 && rhs == 1
  {
    MagnitudeDivision(Magnitude(x), Magnitude(rhs));
  }

  /** The quotient of the magnitudes, with the sign and the remainder adjustment. */
  ghost function SignFix(dividendNegative: bool, quotientNegative: bool, q: nat, r: nat): int
  {
    if dividendNegative && r != 0 then (if quotientNegative then 0 - q - 1 else q + 1)
    else if quotientNegative then 0 - q else q
  }

  lemma SignFixIsEuclidean(x: int, y: int)
    requires y != 0
    ensures x / y == SignFix(x < 0, (x < 0) != (y < 0), Magnitude(x) / Magnitude(y), Magnitude(x) % Magnitude(y))
    ensures x % y == if x < 0 && Magnitude(x) % Magnitude(y) != 0 then Magnitude(y) - Magnitude(x) % Magnitude(y) else Magnitude(x) % Magnitude(y)
  {
    var m, d := Magnitude(x), Magnitude(y);
    var q, r := m / d, m % d;
    assert m == q * d + r;
    SignedDivision(x, y, m, d, q, r);
    EuclideanUnique(x, y, SignFix(x < 0, (x < 0) != (y < 0), q, r), if x < 0 && r != 0 then d - r else r);
  }

  /** The four sign cases. */
  lemma SignedDivision(x: int, y: int, m: int, d: int, q: int, r: int)
    requires d > 0 && m == q * d + r && 0 <= r < d
    requires x == m || x == -m
    requires y == d || y == -d
    ensures x == m && y == d ==> IsEuclidean(x, y, q, r)
    ensures x == m && y == -d ==> IsEuclidean(x, y, -q, r)
    ensures x == -m && y == d ==> if r == 0 then IsEuclidean(x, y, -q, 0) else IsEuclidean(x, y, -q - 1, d - r)
    ensures x == -m && y == -d ==> if r == 0 then IsEuclidean(x, y, q, 0) else IsEuclidean(x, y, q + 1, d - r)
  {
    assert (-q) * d == -(q * d) && (-q) * (-d) == q * d && q * (-d) == -(q * d);
    assert (-q - 1) * d == -(q * d) - d && (q + 1) * (-d) == -(q * d) - d;
  }

  method CheckedDivRemEuclid(x: i256, rhs: i256) returns (r: Option<(i256, i256)>)
    ensures r.Some? <==> rhs != 0 && !(x == MIN256 && rhs == -1)
    ensures r.Some? ==> IsEuclidean(x, rhs, r.value.0, r.value.1)
  {
    if rhs == 0 || (x == MIN256 && rhs == -1) {
      return None;
    }
    var q, m := WrappingDivRemEuclid(x, rhs);
    r := Some((q, m));
  }

  method OverflowingDivRemEuclid(x: i256, rhs: i256) returns (q: i256, r: i256, overflow: bool)
    requires rhs != 0
    ensures overflow <==> !(MIN256 <= x / rhs <= MAX256)
    ensures q == Wrap(x / rhs) && r == x % rhs
  {
    if x == MIN256 && rhs == -1 {
      return x, 0, true;
    }
    q, r := WrappingDivRemEuclid(x, rhs);
    overflow := false;
  }

  /** `saturating_div_rem_euclid`: the exact quotient, clamped to the type. */
  method SaturatingDivRemEuclid(x: i256, rhs: i256) returns (q: i256, r: i256)
    requires rhs != 0
    ensures q == Max(MIN256, Min(MAX256, x / rhs)) && r == x % rhs
  {
    var overflow;
    q, r, overflow := OverflowingDivRemEuclid(x, rhs);
    if overflow {
      QuotientMagnitude(x, rhs);
      q := MAX256;
    }
  }

  lemma QuotientMagnitude(x: i256, rhs: i256)
    requires rhs != 0
    ensures x / rhs > MAX256 || MIN256 <= x / rhs
  {
    var q := x / rhs;
    assert x == q * rhs + x % rhs;
    if q < 0 {
      if rhs > 0 { FactorSign(q, rhs); } else { FactorSign(q, -rhs); assert q * (-rhs) == -(q * rhs); }
    }
  }
}
