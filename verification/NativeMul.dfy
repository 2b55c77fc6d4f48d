/** Word-by-word 256-bit multiplication (ethnum-patched/src/intrinsics/native/mul.rs).
    `/ TWO64` and `* TWO64` are the 64-bit shifts, `% TWO64` the lower mask;
    every intermediate is a `u128`, so its bounds are proved, not assumed. */
module NativeMul {
  import opened Machine
  import opened Arithmetic
  import opened Casts

  // ----- 128 by 128 bits -----

  /** `umulddi3`: the full product of two words, high word first. The running
      values `low`, `t` and `high` never leave 128 bits. */
  method UMulDDi3(a: u128, b: u128) returns (high: u128, low: u128)
    ensures high * TWO128 + low == a * b
  {
    var a0, a1, b0, b1 := a % TWO64, a / TWO64, b % TWO64, b / TWO64;
    HalfProduct(a0, b0); HalfProduct(a1, b0); HalfProduct(a0, b1); HalfProduct(a1, b1);
    Schoolbook(a0, a1, b0, b1);
    ghost var p00, p10, p01, p11 := a0 * b0, a1 * b0, b1 * a0, a1 * b1;
    low := a0 * b0;
    var t: u128 := low / TWO64;
    low := low % TWO64;
    t := t + a1 * b0;
    low := low + (t % TWO64) * TWO64;
    high := t / TWO64;
    assert high * TWO128 + low == p00 + p10 * TWO64;
    t := low / TWO64;
    low := low % TWO64;
    t := t + b1 * a0;
    low := low + (t % TWO64) * TWO64;
    high := high + t / TWO64;
    assert high * TWO128 + low == p00 + p10 * TWO64 + p01 * TWO64;
    HighWordFits(high, low, a, b, p11);
    high := high + a1 * b1;
  }

  lemma HighWordFits(high: nat, low: nat, a: u128, b: u128, p: nat)
    requires high * TWO128 + low + p * TWO128 == a * b
    ensures high + p < TWO128
  {
    MulMono(a, TWO128 - 1, b, TWO128 - 1);
  }

  // ----- 256 by 256 bits -----

  lemma SplitProduct(ah: nat, al: nat, bh: nat, bl: nat)
    ensures (ah * TWO128 + al) * (bh * TWO128 + bl)
         == (ah * bh) * TWO256 + (ah * bl + al * bh) * TWO128 + al * bl
  {
    Distribute(ah * TWO128 + al, bh * TWO128, bl);
  }

  /** The word an exact result wraps to. */
  function Wrapped(exact: nat): u128 { exact % TWO128 }

  /** The carry flags of `umulc` against the exact product: `x` and `y` are the
      cross products, `z` the product of the high words, `high` and `low` the
      words of the product of the low words. */
  lemma FlagsExact(x: nat, y: nat, z: nat, high: u128, low: u128)
    ensures var hi := Wrapped(x) + Wrapped(y);
      var top := high + Wrapped(hi);
      var p := z * TWO256 + (x + y) * TWO128 + high * TWO128 + low;
      && Wrapped(top) * TWO128 + low == p % TWO256
      && (x >= TWO128 || y >= TWO128 || hi >= TWO128 || top >= TWO128 || z > 0 <==> p >= TWO256)
  {
    var (kx, x0, ky, y0) := (x / TWO128, x % TWO128, y / TWO128, y % TWO128);
    var (k1, hi) := ((x0 + y0) / TWO128, (x0 + y0) % TWO128);
    var (k2, top) := ((high + hi) / TWO128, (high + hi) % TWO128);
    CarriesAddUp(x, y, kx, x0, ky, y0, z, high, low, k1, hi, k2, top);
  }

  lemma CarriesAddUp(x: nat, y: nat, kx: nat, x0: nat, ky: nat, y0: nat, z: nat, high: nat, low: nat,
                     k1: nat, hi: nat, k2: nat, top: nat)
    requires x == kx * TWO128 + x0 && y == ky * TWO128 + y0 && x0 < TWO128 && y0 < TWO128
    requires x0 + y0 == k1 * TWO128 + hi && high + hi == k2 * TWO128 + top
    requires hi < TWO128 && top < TWO128 && low < TWO128
    ensures var p := z * TWO256 + (x + y) * TWO128 + high * TWO128 + low;
      && p % TWO256 == top * TWO128 + low
      && (x >= TWO128 || y >= TWO128 || x0 + y0 >= TWO128 || high + hi >= TWO128 || z > 0 <==> p >= TWO256)
  {
    var k := z + kx + ky + k1 + k2;
    var rest := top * TWO128 + low;
    QuotientUnique(k * TWO256 + rest, TWO256, k, rest);
  }

  lemma CrossTerms(ah: nat, al: nat, bh: nat, bl: nat)
    ensures ah * bh > 0 <==> ah != 0 && bh != 0
    ensures ah * bl >= 0 && al * bh >= 0 && ah * bh >= 0
  {
    if ah != 0 && bh != 0 { FactorSign(ah, bh); }
  }

  /** `umulc`: the product modulo 2^256, flagged exactly when it does not fit. */
  method UMulC(a: u256, b: u256) returns (r: u256, overflow: bool)
    ensures r == a * b % TWO256
    ensures overflow <==> a * b >= TWO256
  {
    var ah, al, bh, bl := a / TWO128, a % TWO128, b / TWO128, b % TWO128;
    assert a == ah * TWO128 + al && b == bh * TWO128 + bl;
    var high, low := UMulDDi3(al, bl);
    CrossTerms(ah, al, bh, bl);
    SplitProduct(ah, al, bh, bl);
    r, overflow := AddCrossProducts(ah * bl, al * bh, high, low, ah != 0 && bh != 0, ah * bh);
  }

  /** The additions of `umulc` with their flags; `z` is the product of the high words. */
  method AddCrossProducts(x: nat, y: nat, high: u128, low: u128, overflowHiHi: bool, ghost z: nat)
    returns (r: u256, overflow: bool)
    requires overflowHiHi <==> z > 0
    ensures var p := z * TWO256 + (x + y) * TWO128 + high * TWO128 + low;
      r == p % TWO256 && (overflow <==> p >= TWO256)
  {
    FlagsExact(x, y, z, high, low);
    hide Wrapped;
    var hiLo, overflowHiLo := Wrapped(x), x >= TWO128;
    var loHi, overflowLoHi := Wrapped(y), y >= TWO128;
    var hi, overflowHi := Wrapped(hiLo + loHi), hiLo + loHi >= TWO128;
    var top, overflowHigh := Wrapped(high + hi), high + hi >= TWO128;
    r := top * TWO128 + low;
    overflow := overflowHiLo || overflowLoHi || overflowHi || overflowHigh || overflowHiHi;
  }

  /** `mul3`: the same words without the flags. */
  method Mul3(a: u256, b: u256) returns (r: u256)
    ensures r == a * b % TWO256
  {
    var ah, al, bh, bl := a / TWO128, a % TWO128, b / TWO128, b % TWO128;
    assert a == ah * TWO128 + al && b == bh * TWO128 + bl;
    var high, low := UMulDDi3(al, bl);
    CrossTerms(ah, al, bh, bl);
    SplitProduct(ah, al, bh, bl);
    r := AddCrossWords(ah * bl, al * bh, high, low, ah * bh);
  }

  method AddCrossWords(x: nat, y: nat, high: u128, low: u128, ghost z: nat) returns (r: u256)
    ensures r == (z * TWO256 + (x + y) * TWO128 + high * TWO128 + low) % TWO256
  {
    FlagsExact(x, y, z, high, low);
    hide Wrapped;
    var hi := Wrapped(Wrapped(x) + Wrapped(y));
    r := Wrapped(high + hi) * TWO128 + low;
  }

  // ----- signed multiplication -----

  /** Reading the operands as words changes the product by a multiple of 2^256. */
  lemma ProductOfWords(a: i256, b: i256)
    ensures AsI256(AsU256(a) * AsU256(b) % TWO256) == Wrap(a * b)
  {
    var (w, x) := (AsU256(a) * AsU256(b), a * b);
    var k := if a >= 0 then (if b >= 0 then 0 else a) else if b >= 0 then b else a + b + TWO256;
    assert w == x + k * TWO256 by {
      if a < 0 { assert (a + TWO256) * b == x + b * TWO256; }
    }
    SameResidue(w, x, k);
  }

  lemma SameResidue(w: nat, x: int, k: int)
    requires w == x + k * TWO256
    ensures w % TWO256 == x % TWO256
  {
    DivFloor(x, TWO256);
    QuotientUnique(w, TWO256, x / TWO256 + k, x % TWO256);
  }

  /** Comparing with a truncated quotient is comparing the product. */
  lemma QuotientComparison(x: nat, y: nat, bound: nat)
    requires y > 0
    ensures x > bound / y <==> x * y > bound
  {
    DivFloor(bound, y);
    if x > bound / y {
      MulLe(bound / y + 1, x, y);
    } else {
      MulLe(x, bound / y, y);
    }
  }

  lemma MagnitudeOfProduct(a: int, b: int)
    ensures Magnitude(a * b) == Magnitude(a) * Magnitude(b)
    ensures a * b < 0 ==> (a < 0) != (b < 0)
    ensures a * b > 0 ==> (a < 0) == (b < 0)
  {
    assert (-a) * b == -(a * b) && a * (-b) == -(a * b) && (-a) * (-b) == a * b;
    MulLe(0, Magnitude(a), Magnitude(b));
  }

  /** The range test on a product, from its magnitude. */
  lemma FitsByMagnitude(a: i256, b: i256)
    requires a != MIN256 && b != MIN256
    ensures var m := Magnitude(a) * Magnitude(b);
      MIN256 <= a * b <= MAX256 <==> m <= if (a < 0) == (b < 0) then MAX256 else TWO255
    ensures Magnitude(a) < 2 || Magnitude(b) < 2 ==> Magnitude(a) * Magnitude(b) <= MAX256
  {
    MagnitudeOfProduct(a, b);
    if Magnitude(a) < 2 { MulMono(Magnitude(a), 1, Magnitude(b), MAX256); }
    if Magnitude(b) < 2 { MulMono(Magnitude(a), MAX256, Magnitude(b), 1); }
  }

  lemma MinimumTimes(b: i256)
    ensures MIN256 <= MIN256 * b <= MAX256 <==> b == 0 || b == 1
  {}

  /** `imulc`: the wrapped product, flagged exactly when it does not fit; the flag
      is found by dividing the limit by one operand's magnitude. */
  method IMulC(a: i256, b: i256) returns (r: i256, overflow: bool)
    ensures r == Wrap(a * b)
    ensures overflow <==> !(MIN256 <= a * b <= MAX256)
  {
    ProductOfWords(a, b);
    hide Wrap, AsU256;
    var word := Mul3(AsU256(a), AsU256(b));
    r := AsI256(word);
    overflow := SignedOverflow(a, b);
  }

  /** The flag of `imulc`. */
  method SignedOverflow(a: i256, b: i256) returns (overflow: bool)
    ensures overflow <==> !(MIN256 <= a * b <= MAX256)
  {
    MinimumTimes(a);
    MinimumTimes(b);
    if a == MIN256 {
      return b != 0 && b != 1;
    }
    if b == MIN256 {
      return a != 0 && a != 1;
    }
    var absA, absB := if a < 0 then -a else a, if b < 0 then -b else b;
    FitsByMagnitude(a, b);
    if absA < 2 || absB < 2 {
      return false;
    }
    QuotientComparison(absA, absB, MAX256);
    QuotientComparison(absA, absB, TWO255);
    if (a < 0) == (b < 0) {
      overflow := absA > TruncDiv(MAX256, absB);
    } else {
      EuclideanNegative(TWO255, absB);
      overflow := absA > TruncDiv(MIN256, -absB);
    }
  }

  lemma EuclideanNegative(m: nat, d: nat)
    requires d > 0
    ensures m / (0 - d) == 0 - m / d
  {}
}
