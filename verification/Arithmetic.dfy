/** Facts about products and quotients that the verifier needs spelled out. */
module Arithmetic {
  import opened Machine

  lemma MulLe(x: int, y: int, k: int)
    requires x <= y && k >= 0
    ensures x * k <= y * k && k * x <= k * y
  {}

  lemma MulLt(x: int, y: int, k: int)
    requires x < y && k > 0
    ensures x * k < y * k && k * x < k * y
  {}

  lemma MulMono(x: nat, y: nat, m: nat, n: nat)
    requires x <= y && m <= n
    ensures x * m <= y * n
  {
    assert x * m <= y * m <= y * n;
  }

  lemma Distribute(x: int, y: int, z: int)
    ensures x * (y + z) == x * y + x * z
  {}

  lemma MulAssociative(x: int, y: int, z: int)
    ensures (x * y) * z == x * (y * z)
  {}

  lemma CancelFactor(n: int, x: int, y: int)
    requires n > 0 && n * x <= n * y
    ensures x <= y
  {}

  /** A nonzero integer factor leaves at least the other factor's magnitude. */
  lemma FactorSign(k: int, m: int)
    requires m > 0
    ensures k >= 1 ==> k * m >= m && k * m >= k
    ensures k <= -1 ==> k * m <= -m && k * m <= k
  {}

  lemma DivFloor(x: int, n: int)
    requires n > 0
    ensures n * (x / n) <= x < n * (x / n) + n
    ensures x == (x / n) * n + x % n
  {}

  lemma QuotientUnique(x: int, n: int, q: int, r: int)
    requires n > 0 && x == q * n + r && 0 <= r < n
    ensures x / n == q && x % n == r
  {
    var k := x / n - q;
    assert k * n == r - x % n;
    FactorSign(k, n);
  }

  lemma QuotientAtMost(x: nat, n: nat)
    requires n > 0
    ensures 0 <= x / n <= x
  {
    DivFloor(x, n);
    if x / n >= 1 { FactorSign(x / n, n); }
  }

  lemma QuotientBelow(x: nat, n: nat, bound: nat)
    requires n > 0 && x < bound * n
    ensures 0 <= x / n < bound
  {
    DivFloor(x, n);
    if x / n >= bound { MulLe(bound, x / n, n); }
  }

  lemma QuotientSmaller(x: nat, n: nat)
    requires 2 <= n <= x
    ensures 0 < x / n < x
  {
    DivFloor(x, n);
    var q := x / n;
    assert n * q >= 2 * q;
  }

  /** A 64-bit left shift in 128 bits keeps the low half; the rest goes out on top. */
  lemma ShiftLeft64(x: nat)
    ensures (x * TWO64) % TWO128 == (x % TWO64) * TWO64
    ensures x * TWO64 == (x % TWO64) * TWO64 + (x / TWO64) * TWO128
  {
    var (l, h) := (x % TWO64, x / TWO64);
    assert x * TWO64 == l * TWO64 + h * TWO128;
    assert 0 <= l * TWO64 < TWO128;
  }

  // ----- products of 64-bit halves -----

  lemma HalfProduct(x: int, y: int)
    requires 0 <= x < TWO64 && 0 <= y < TWO64
    ensures 0 <= x * y <= (TWO64 - 1) * (TWO64 - 1)
  {
    SquareBound(x, y, TWO64 - 1);
  }

  lemma SquareBound(x: nat, y: nat, m: nat)
    requires x <= m && y <= m
    ensures 0 <= x * y <= m * m
  {
    MulLe(0, x, y);
    MulMono(x, m, y, m);
  }

  lemma Schoolbook(aLo: int, aHi: int, bLo: int, bHi: int)
    ensures (aLo + aHi * TWO64) * (bLo + bHi * TWO64)
         == aLo * bLo + (aLo * bHi + aHi * bLo) * TWO64 + (aHi * bHi) * TWO128
  {
    var t := TWO64;
    assert t * t == TWO128;
    assert (aLo + aHi * t) * (bLo + bHi * t) == aLo * bLo + (aLo * bHi + aHi * bLo) * t + (aHi * bHi) * (t * t);
  }
}
