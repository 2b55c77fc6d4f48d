/** Word-by-word 256-bit division (ethnum-patched/src/intrinsics/native/divmod.rs):
    256 by 128 bits in two 64-bit digits, and Knuth's algorithm D for divisors
    above 128 bits. A left shift by `s` is `* 2^s` cut to the word, a right shift
    is `/ 2^s`, and `|` of disjoint bits is `+`. Every result typed `u128` is
    proved to fit; where the code wraps, `% TWO128` says so. */
module NativeDivMod {
  import opened Machine
  import opened Arithmetic
  import opened Numerals
  import opened NativeMul
  import opened Casts

  // ----- shifts -----

  function Shl(x: u128, s: nat): u128 { x * Pow(2, s) % TWO128 }

  function Shr(x: u128, s: nat): u128
  {
    PowPositive(2, s);
    QuotientAtMost(x, Pow(2, s));
    x / Pow(2, s)
  }

  /** `leading_zeros` of a nonzero word. */
  function LeadingZeros(v: u128): (s: nat)
    requires v > 0
    ensures s < 128 && TWO127 <= v * Pow(2, s) < TWO128
    decreases TWO128 - v
  {
    if v >= TWO127 then 0
    else
      var s := 1 + LeadingZeros(2 * v);
      assert v * Pow(2, s) == 2 * v * Pow(2, s - 1);
      ShiftBelowWord(v, s);
      s
  }

  lemma ShiftBelowWord(v: u128, s: nat)
    requires v > 0 && v * Pow(2, s) < TWO128
    ensures s < 128
  {
    if s >= 128 {
      ComplementaryPowers(128);
      PowMonotone(2, 2, 128, s);
      FactorSign(v, Pow(2, s));
    }
  }

  lemma ComplementaryPowers(s: nat)
    requires s <= 128
    ensures Pow(2, s) > 0 && Pow(2, 128 - s) > 0
    ensures Pow(2, s) * Pow(2, 128 - s) == TWO128
    ensures s < 128 ==> Pow(2, s) <= TWO127
  {
    PowersOfTwo();
    PowPositive(2, s);
    PowPositive(2, 128 - s);
    PowAdd(2, s, 128 - s);
    if s < 128 {
      PowMonotone(2, 2, s, 127);
      assert Pow(2, 128) == 2 * Pow(2, 127);
    }
  }

  /** What a left shift pushes out of a word of `p * c` values. */
  lemma ShiftSplit(x: nat, p: nat, c: nat)
    requires p > 0 && c > 0
    ensures p * c > 0
    ensures (x * p) / (p * c) == x / c && (x * p) % (p * c) == (x % c) * p
    ensures x * p == (x / c) * (p * c) + (x % c) * p
  {
    var (k, m) := (x / c, x % c);
    FactorSign(p, c);
    assert x * p == k * (p * c) + m * p by { assert x == k * c + m; }
    MulLt(m, c, p);
    QuotientUnique(x * p, p * c, k, m * p);
  }

  /** Dividing the shifted operands gives the quotient, and the remainder shifted. */
  lemma Denormalise(n: nat, p: nat, q: nat, v: nat, rest: nat)
    requires p > 0 && n * p == q * (v * p) + rest && rest < v * p
    ensures n == q * v + rest / p && rest / p < v
  {
    var m := n - q * v;
    assert rest == m * p;
    QuotientUnique(rest, p, m, 0);
    if m >= v { MulLe(v, m, p); }
  }

  // ----- quotient digits in any base -----

  /** `q` is at least the quotient digit of `un * b + d` over `v`, and `rhat` is
      what it leaves of `un` over the leading digit `v1`. */
  ghost predicate Estimate(b: nat, un: nat, d: nat, v1: nat, v: nat, q: nat, rhat: nat)
  {
    un == q * v1 + rhat && un * b + d < (q + 1) * v
  }

  /** The test that makes both divisions correct their estimate. */
  predicate Overestimates(b: nat, q: nat, v0: nat, rhat: nat, d: nat)
  {
    q >= b || q * v0 > b * rhat + d
  }

  lemma FirstEstimate(b: nat, un: nat, d: nat, v1: nat, v0: nat, v: nat, q: nat, rhat: nat)
    requires v == v1 * b + v0 && d < b && un == q * v1 + rhat && rhat < v1
    ensures Estimate(b, un, d, v1, v, q, rhat)
  {
    MulLe(un + 1, (q + 1) * v1, b);
    assert (q + 1) * (v1 * b + v0) == ((q + 1) * v1) * b + (q + 1) * v0;
    MulLe(0, v0, q + 1);
  }

  /** A correction is due only when the estimate is above the digit, so the
      corrected one is not below it. */
  lemma Correction(b: nat, un: nat, d: nat, v1: nat, v0: nat, v: nat, q: nat, rhat: nat)
    requires v == v1 * b + v0 && d < b && un < v
    requires Estimate(b, un, d, v1, v, q, rhat) && Overestimates(b, q, v0, rhat, d)
    ensures q > 0 && Estimate(b, un, d, v1, v, q - 1, rhat + v1)
  {
    if q >= b {
      AboveBase(b, un, d, v, q);
    } else {
      Split(b, v1, v0, q, rhat);
    }
    assert (q - 1) * v1 + (rhat + v1) == q * v1 + rhat by { Distribute(v1, q - 1, 1); }
  }

  lemma AboveBase(b: nat, un: nat, d: nat, v: nat, q: nat)
    requires d < b <= q && un < v
    ensures un * b + d < q * v
  {
    MulLe(un + 1, v, b);
    MulLe(b, q, v);
  }

  lemma Split(b: nat, v1: nat, v0: nat, q: nat, rhat: nat)
    ensures q * (v1 * b + v0) == (q * v1) * b + q * v0
    ensures (q * v1 + rhat) * b == (q * v1) * b + b * rhat
  {}

  /** Once no correction is due, or the running remainder has left the word, the
      estimate is the digit. */
  lemma EstimateIsDigit(b: nat, un: nat, d: nat, v1: nat, v0: nat, v: nat, q: nat, rhat: nat)
    requires v == v1 * b + v0 && v0 < b && d < b && un < v
    requires Estimate(b, un, d, v1, v, q, rhat)
    requires if rhat < b then !Overestimates(b, q, v0, rhat, d) else q <= b
    ensures 0 <= un * b + d - q * v < v && q < b
  {
    if rhat >= b { MulMono(q, b, v0, b); MulLe(b, rhat, b); }
    Split(b, v1, v0, q, rhat);
    Distribute(v, q, 1);
    if q >= b { AboveBase(b, un, d, v, q); }
  }

  // ----- 256 by 128 bits -----

  /** The two sides of the 64-bit test fit in 128 bits whenever they are evaluated. */
  ghost predicate TestFits(q: nat, v0: nat, rhat: nat, d: nat)
  {
    q < TWO64 ==> FitsU128(q * v0) && FitsU128(TWO64 * rhat + d)
  }

  lemma TestAlwaysFits(q: nat, v0: nat, rhat: nat, d: nat)
    requires v0 < TWO64 && rhat < TWO64 && d < TWO64
    ensures TestFits(q, v0, rhat, d)
  {
    if q < TWO64 { HalfProduct(q, v0); }
  }

  lemma HighHalfQuotient(un: u128, v1: nat, v0: nat)
    requires v0 < TWO64 <= 2 * v1 && un < v1 * TWO64 + v0
    ensures un == (un / v1) * v1 + un % v1 && 0 <= un / v1 <= TWO64 + 1
  {
    var q := un / v1;
    DivFloor(un, v1);
    if q >= TWO64 + 2 { MulLe(TWO64 + 2, q, v1); }
  }

  /** One digit: estimate by the high half of the divisor, correct at most twice. */
  method DigitEstimate(un: u128, d: nat, v1: nat, v0: nat, ghost v: u128) returns (q: u128)
    requires v0 < TWO64 <= 2 * v1 && d < TWO64 && v == v1 * TWO64 + v0 && un < v
    ensures q < TWO64 && 0 <= un * TWO64 + d - q * v < v
  {
    hide Overestimates, Estimate, TestFits;
    HighHalfQuotient(un, v1, v0);
    q := un / v1;
    var rhat := un - q * v1;
    FirstEstimate(TWO64, un, d, v1, v0, v, q, rhat);
    ghost var rounds := 0;
    TestAlwaysFits(q, v0, rhat, d);
    while Overestimates(TWO64, q, v0, rhat, d)
      invariant 0 <= rhat < TWO64 && Estimate(TWO64, un, d, v1, v, q, rhat)
      invariant TestFits(q, v0, rhat, d)
      invariant rounds <= 1 && q <= TWO64 + 1 - rounds && (rounds == 1 ==> rhat >= v1)
      decreases q
    {
      Correction(TWO64, un, d, v1, v0, v, q, rhat);
      q := q - 1;
      rhat := rhat + v1;
      rounds := rounds + 1;
      if rhat >= TWO64 {
        break;
      }
      TestAlwaysFits(q, v0, rhat, d);
    }
    assert rounds <= 2;
    EstimateIsDigit(TWO64, un, d, v1, v0, v, q, rhat);
  }

  /** The next partial remainder, computed modulo 2^128. */
  function NextRemainder(un: u128, d: nat, product: nat): u128
  {
    ((un * TWO64 % TWO128 + d) % TWO128 - product % TWO128) % TWO128
  }

  /** It survives the wrapping of its parts. */
  lemma NextRemainderExact(un: u128, d: nat, product: nat)
    requires 0 <= un * TWO64 + d - product < TWO128
    ensures NextRemainder(un, d, product) == un * TWO64 + d - product
  {
    var x := un * TWO64;
    var y := x % TWO128 + d;
    var k := product / TWO128 - x / TWO128 - y / TWO128;
    QuotientUnique(y % TWO128 - product % TWO128, TWO128, k, x + d - product);
  }

  /** A digit and the remainder it leaves. */
  method QuotientDigit(un: u128, d: nat, v: u128) returns (q: u128, rest: u128)
    requires TWO127 <= v && un < v && d < TWO64
    ensures un * TWO64 + d == q * v + rest && rest < v && q < TWO64
  {
    hide NextRemainder;
    var v1, v0 := v / TWO64, v % TWO64;
    assert v == v1 * TWO64 + v0 && TWO64 <= 2 * v1;
    q := DigitEstimate(un, d, v1, v0, v);
    var product := q * v;
    NextRemainderExact(un, d, product);
    rest := NextRemainder(un, d, product);
  }

  /** The operands shifted so that the divisor's top bit is set: nothing is lost. */
  lemma Normalised(u1: u128, u0: u128, v: u128, s: nat)
    requires u1 < v && s < 128 && v * Pow(2, s) < TWO128
    ensures Shl(v, s) == v * Pow(2, s)
    ensures var (un128, un10) := (Shl(u1, s) + Shr(u0, 128 - s), Shl(u0, s));
      un128 < Shl(v, s) && un128 * TWO128 + un10 == (u1 * TWO128 + u0) * Pow(2, s)
  {
    ComplementaryPowers(s);
    NormalisedBy(u1, u0, v, Pow(2, s), Pow(2, 128 - s));
  }

  lemma NormalisedBy(u1: u128, u0: u128, v: u128, p: nat, c: nat)
    requires u1 < v && p > 0 && c > 0 && p * c == TWO128 && v * p < TWO128
    ensures u1 * p % TWO128 == u1 * p && v * p % TWO128 == v * p
    ensures u1 * p + u0 / c < v * p
    ensures (u1 * p + u0 / c) * TWO128 + u0 * p % TWO128 == (u1 * TWO128 + u0) * p
  {
    ShiftSplit(u0, p, c);
    ShiftedInBound(u0, p, c);
    RoomForBits(u1, v, p);
    SmallModulo(u1 * p, v * p);
    assert (u1 * TWO128) * p == (u1 * p) * TWO128;
    Distribute(p, u1 * TWO128, u0);
  }

  lemma ShiftedInBound(u0: u128, p: nat, c: nat)
    requires p > 0 && c > 0 && p * c == TWO128
    ensures 0 <= u0 / c < p
  {
    DivFloor(u0, c);
    if u0 / c >= p { MulLe(p, u0 / c, c); }
  }

  lemma RoomForBits(u1: nat, v: nat, p: nat)
    requires u1 < v
    ensures 0 <= u1 * p && u1 * p + p <= v * p
  {
    MulLe(u1 + 1, v, p);
    Distribute(p, u1, 1);
    MulLe(0, u1, p);
  }

  lemma SmallModulo(x: int, y: int)
    requires 0 <= x <= y < TWO128
    ensures x % TWO128 == x && y % TWO128 == y
  {}

  lemma TwoDigits(un: nat, d1: nat, d0: nat, v: nat, q1: nat, r1: nat, q0: nat, r0: nat)
    requires un * TWO64 + d1 == q1 * v + r1 && r1 * TWO64 + d0 == q0 * v + r0
    ensures un * TWO128 + d1 * TWO64 + d0 == (q1 * TWO64 + q0) * v + r0
  {
    assert (q1 * v) * TWO64 == (q1 * TWO64) * v;
  }

  /** The normalising shift, skipped when the divisor needs none. */
  method Normalise(u1: u128, u0: u128, v: u128, s: nat) returns (un128: u128, un10: u128, vn: u128)
    requires u1 < v && s < 128 && v * Pow(2, s) < TWO128
    ensures vn == v * Pow(2, s) && un128 < vn
    ensures un128 * TWO128 + un10 == (u1 * TWO128 + u0) * Pow(2, s)
  {
    if s > 0 {
      Normalised(u1, u0, v, s);
      vn := Shl(v, s);
      un128 := Shl(u1, s) + Shr(u0, 128 - s);
      un10 := Shl(u0, s);
    } else {
      assert Pow(2, s) == 1;
      hide Pow;
      vn, un128, un10 := v, u1, u0;
    }
  }

  /** `udiv256_by_128_to_128`: quotient and remainder of two words by one, for a
      divisor above the high word. */
  method UDiv256By128To128(u1: u128, u0: u128, v: u128) returns (q: u128, r: u128)
    requires u1 < v
    ensures u1 * TWO128 + u0 == q * v + r && r < v
  {
    hide Pow, Shr;
    var s := LeadingZeros(v);
    var un128, un10, vn := Normalise(u1, u0, v, s);
    var q1, un21 := QuotientDigit(un128, un10 / TWO64, vn);
    var q0, rest := QuotientDigit(un21, un10 % TWO64, vn);
    TwoDigits(un128, un10 / TWO64, un10 % TWO64, vn, q1, un21, q0, rest);
    q := q1 * TWO64 + q0;
    ComplementaryPowers(s);
    Denormalise(u1 * TWO128 + u0, Pow(2, s), q, v, rest);
    ShrIsDivision(rest, s);
    r := Shr(rest, s);
  }

  lemma ShrIsDivision(x: u128, s: nat)
    ensures Pow(2, s) > 0 && Shr(x, s) == x / Pow(2, s)
  {
    PowPositive(2, s);
  }

  // ----- 256 by more than 128 bits: algorithm D -----

  function Bit(c: bool): nat { if c then 1 else 0 }

  ghost function Words3(x2: nat, x1: nat, x0: nat): nat { (x2 * TWO128 + x1) * TWO128 + x0 }

  /** `add_carry`: the sum and its carry out. */
  function AddCarry(a: u128, b: u128, c: bool): (r: (u128, bool))
    ensures r.0 + Bit(r.1) * TWO128 == a + b + Bit(c)
  {
    var (res1, overflow1) := ((b + Bit(c)) % TWO128, b + Bit(c) >= TWO128);
    ((a + res1) % TWO128, overflow1 || a + res1 >= TWO128)
  }

  /** `sub_carry`: the difference and its borrow. */
  function SubCarry(a: u128, b: u128, c: bool): (r: (u128, bool))
    ensures r.0 - Bit(r.1) * TWO128 == a - b - Bit(c)
  {
    var (res1, overflow1) := ((b + Bit(c)) % TWO128, b + Bit(c) >= TWO128);
    ((a - res1) % TWO128, overflow1 || a < res1)
  }

  /** `fullmul_u128`: both words of a product, the low one first. */
  method FullMul(a: u128, b: u128) returns (lo: u128, hi: u128)
    ensures hi * TWO128 + lo == a * b
  {
    var a0, a1, b0, b1 := a % TWO64, a / TWO64, b % TWO64, b / TWO64;
    HalfProduct(a0, b0); HalfProduct(a1, b0); HalfProduct(a0, b1); HalfProduct(a1, b1);
    Schoolbook(a0, a1, b0, b1);
    ghost var p00, p10, p01, p11 := a0 * b0, a1 * b0, b1 * a0, a1 * b1;
    var t: u128 := a0 * b0;
    var w3, k := t % TWO64, t / TWO64;
    t := a1 * b0 + k;
    var w1, w2 := t % TWO64, t / TWO64;
    t := a0 * b1 + w1;
    k := t / TWO64;
    ShiftLeft64(t);
    assert (w2 + k) * TWO128 + t % TWO64 * TWO64 + w3 == p00 + p10 * TWO64 + p01 * TWO64;
    HighWordFits(w2 + k, t % TWO64 * TWO64 + w3, a, b, p11);
    hi := a1 * b1 + w2 + k;
    lo := t * TWO64 % TWO128 + w3;
  }

  lemma SplitByWord(vh: nat, vl: nat, q: nat)
    ensures (vh * TWO128 + vl) * q == (vh * q) * TWO128 + vl * q
  {}

  lemma TopProductWord(vh: u128, q: u128, hi: nat, lo: nat)
    requires hi * TWO128 + lo == vh * q
    ensures hi < TWO128 - 1
  {
    MulMono(vh, TWO128 - 1, q, TWO128 - 1);
  }

  /** `fullmul_u256_u128`: three words, high first. */
  method FullMul256By128(vh: u128, vl: u128, q: u128) returns (p2: u128, p1: u128, p0: u128)
    ensures Words3(p2, p1, p0) == (vh * TWO128 + vl) * q
  {
    p2, p1, p0 := 0, 0, 0;
    if q != 0 {
      var lo, carry := FullMul(vl, q);
      p0, p1 := lo, carry;
      lo, carry := FullMul(vh, q);
      TopProductWord(vh, q, carry, lo);
      SplitByWord(vh, vl, q);
      var c := p1 + lo >= TWO128;
      p1 := if c then p1 + lo - TWO128 else p1 + lo;
      p2 := carry + Bit(c);
    }
  }

  lemma LexicographicLess(hi: u128, lo: u128, rhat: u128, u0: u128)
    ensures hi > rhat || (hi == rhat && lo > u0) <==> hi * TWO128 + lo > rhat * TWO128 + u0
  {}

  /** The quotient word guessed from the top three words, corrected at most twice;
      all ones when the top words are equal. */
  method WordEstimate(u2: u128, u1: u128, u0: u128, vh: u128, vl: u128) returns (q: u128)
    requires TWO127 <= vh && u2 * TWO128 + u1 < vh * TWO128 + vl
    ensures var (n, v) := (Words3(u2, u1, u0), vh * TWO128 + vl); q * v <= n + v && n < (q + 1) * v
    ensures u2 < vh ==> q * (vh * TWO128 + vl) <= Words3(u2, u1, u0)
  {
    ghost var un, v := u2 * TWO128 + u1, vh * TWO128 + vl;
    if u2 < vh {
      var rhat: nat;
      q, rhat := UDiv256By128To128(u2, u1, vh);
      FirstEstimate(TWO128, un, u0, vh, vl, v, q, rhat);
      hide Estimate, Overestimates;
      ghost var rounds := 0;
      while true
        invariant rhat < TWO128 && Estimate(TWO128, un, u0, vh, v, q, rhat)
        invariant rounds <= 1 && (rounds == 1 ==> rhat >= vh)
        decreases q
      {
        var lo, hi := FullMul(q, vl);
        var anotherIteration := hi > rhat || (hi == rhat && lo > u0);
        LexicographicLess(hi, lo, rhat, u0);
        GuardIsOverestimate(q, vl, rhat, u0);
        if !anotherIteration {
          EstimateIsDigit(TWO128, un, u0, vh, vl, v, q, rhat);
          break;
        }
        Correction(TWO128, un, u0, vh, vl, v, q, rhat);
        q := q - 1;
        rounds := rounds + 1;
        if rhat + vh >= TWO128 {
          EstimateIsDigit(TWO128, un, u0, vh, vl, v, q, rhat + vh);
          break;
        }
        rhat := rhat + vh;
      }
      assert rounds <= 2;
    } else {
      q := TWO128 - 1;
      AllOnesEstimate(u2, u1, u0, vh, vl);
    }
  }

  lemma GuardIsOverestimate(q: u128, vl: nat, rhat: nat, u0: nat)
    ensures Overestimates(TWO128, q, vl, rhat, u0) <==> q * vl > rhat * TWO128 + u0
  {}

  /** With equal top words the quotient is at least the largest word less one. */
  lemma AllOnesEstimate(u2: u128, u1: u128, u0: u128, vh: u128, vl: u128)
    requires TWO127 <= vh && vh <= u2 && u2 * TWO128 + u1 < vh * TWO128 + vl
    ensures var (n, v) := (Words3(u2, u1, u0), vh * TWO128 + vl);
      (TWO128 - 1) * v <= n + v && n < TWO128 * v
  {}

  /** Three-word subtraction with its final borrow. */
  method Subtract(u2: u128, u1: u128, u0: u128, p2: u128, p1: u128, p0: u128)
    returns (d2: u128, d1: u128, d0: u128, borrow: bool)
    ensures borrow <==> Words3(u2, u1, u0) < Words3(p2, p1, p0)
    ensures Words3(d2, d1, d0)
         == Words3(u2, u1, u0) - Words3(p2, p1, p0) + (if borrow then TWO256 * TWO128 else 0)
  {
    var (r0, b0) := SubCarry(u0, p0, false);
    var (r1, b1) := SubCarry(u1, p1, b0);
    var (r2, b2) := SubCarry(u2, p2, b1);
    hide SubCarry;
    d2, d1, d0, borrow := r2, r1, r0, b2;
  }

  /** Two words added to three, wrapping past the top word. */
  method AddBack(x2: u128, x1: u128, x0: u128, vh: u128, vl: u128) returns (s2: u128, s1: u128, s0: u128)
    requires Words3(x2, x1, x0) + (vh * TWO128 + vl) >= TWO256 * TWO128
    ensures Words3(s2, s1, s0) == Words3(x2, x1, x0) + (vh * TWO128 + vl) - TWO256 * TWO128
  {
    var (r0, c0) := AddCarry(x0, vl, false);
    var (r1, c1) := AddCarry(x1, vh, c0);
    hide AddCarry;
    s2, s1, s0 := (x2 + Bit(c1)) % TWO128, r1, r0;
  }

  /** Steps D3 to D6: guess the quotient word, subtract its multiple of the divisor,
      and add the divisor back if the guess was one too large. */
  method KnuthStep(u2: u128, u1: u128, u0: u128, vh: u128, vl: u128)
    returns (q: u128, x2: u128, x1: u128, x0: u128)
    requires TWO127 <= vh && u2 * TWO128 + u1 < vh * TWO128 + vl
    ensures var v := vh * TWO128 + vl;
      Words3(u2, u1, u0) == q * v + Words3(x2, x1, x0) && Words3(x2, x1, x0) < v
  {
    q := WordEstimate(u2, u1, u0, vh, vl);
    var p2, p1, p0 := FullMul256By128(vh, vl, q);
    var borrow;
    x2, x1, x0, borrow := Subtract(u2, u1, u0, p2, p1, p0);
    ghost var n, v := Words3(u2, u1, u0), vh * TWO128 + vl;
    OneTooLarge(n, q, v);
    hide Words3;
    if borrow {
      q := q - 1;
      x2, x1, x0 := AddBack(x2, x1, x0, vh, vl);
    }
  }

  lemma OneTooLarge(n: nat, q: nat, v: nat)
    requires q * v <= n + v && n < (q + 1) * v
    ensures n < q * v + v && v * q == q * v
    ensures n < q * v ==> q > 0 && n >= (q - 1) * v && (q - 1) * v == q * v - v
  {
    Distribute(v, q, 1);
    Distribute(v, q - 1, 1);
  }

  // ----- the whole division -----

  /** Nothing of a dividend shifted into three words is lost, and the top two are
      below any divisor with its top bit set. */
  lemma ShiftedOutWord(hi: u128, lo: u128, p: nat, c: nat)
    requires 0 < p <= TWO127 && c > 0 && p * c == TWO128
    ensures var a := hi * TWO128 + lo;
      && 0 <= a / c < TWO127 * TWO128 && (a / c) / TWO128 < p
      && (a / c) * TWO128 + lo * p % TWO128 == a * p
  {
    var a := hi * TWO128 + lo;
    ShiftSplit(a, p, c);
    ShiftSplit(lo, p, c);
    SameLowBits(hi, lo, p, c);
    var k := a / c;
    DivFloor(a, c);
    assert (p * TWO128) * c == TWO256;
    QuotientBelow(a, c, p * TWO128);
    MulLe(p, TWO127, TWO128);
    DivFloor(k, TWO128);
    QuotientBelow(k, TWO128, p);
  }

  lemma SameLowBits(hi: nat, lo: nat, p: nat, c: nat)
    requires p > 0 && c > 0 && p * c == TWO128
    ensures (hi * TWO128 + lo) % c == lo % c
  {
    DivFloor(lo, c);
    var m := hi * p;
    assert hi * TWO128 == m * c;
    assert m * c + (lo / c) * c == (m + lo / c) * c;
    QuotientUnique(hi * TWO128 + lo, c, m + lo / c, lo % c);
  }

  /** Shifting right, the bits that leave the middle word enter the low one. */
  lemma ShiftedInWord(x1: u128, x0: u128, p: nat, c: nat)
    requires p > 0 && c > 0 && p * c == TWO128
    ensures 0 <= x0 / p + x1 * c % TWO128 < TWO128
    ensures (x1 / p) * TWO128 + (x0 / p + x1 * c % TWO128) == (x1 * TWO128 + x0) / p
  {
    assert c * p == TWO128;
    UpperBits(x1, p, c);
    ShiftedInBound(x0, c, p);
    WholeShift(x1, x0, p, c);
  }

  lemma UpperBits(x: u128, p: nat, c: nat)
    requires p > 0 && c > 0 && c * p == TWO128
    ensures x * c == (x / p) * TWO128 + x * c % TWO128 && 0 <= x * c % TWO128 <= TWO128 - c
  {
    ShiftSplit(x, c, p);
    RoomForBits(x % p, p, c);
  }

  lemma WholeShift(x1: nat, x0: nat, p: nat, c: nat)
    requires p > 0 && p * c == TWO128
    ensures (x1 * TWO128 + x0) / p == x1 * c + x0 / p
  {
    DivFloor(x0, p);
    ShiftTogether(x1, x0 / p, p, c, x1 * c);
    QuotientUnique(x1 * TWO128 + x0, p, x1 * c + x0 / p, x0 % p);
  }

  lemma ShiftTogether(x: nat, k: nat, p: nat, c: nat, y: nat)
    requires p * c == TWO128 && y == x * c
    ensures x * TWO128 + k * p == (y + k) * p
  {
    MulAssociative(x, c, p);
  }

  /** The divisor shifted within its two words. */
  lemma ShiftedDivisor(vh: u128, vl: u128, p: nat, c: nat)
    requires p > 0 && c > 0 && p * c == TWO128 && TWO127 <= vh * p < TWO128
    ensures TWO127 * TWO128 <= (vh * TWO128 + vl) * p < TWO256
  {
    if vh >= c { MulLe(c, vh, p); }
    RoomForBits(vh, c, p);
    RoomForBits(vl, TWO128, p);
    assert (vh * TWO128 + vl) * p == (vh * p) * TWO128 + vl * p;
  }

  /** `full_shl`: the shifted dividend in three words. The top word is below any
      normalised divisor word, so the all-ones guess is never made from here. */
  method FullShl(a: u256, s: nat) returns (u2: u128, u1: u128, u0: u128)
    requires s < 128
    ensures Words3(u2, u1, u0) == a * Pow(2, s)
    ensures u2 < TWO127 && u2 * TWO128 + u1 < TWO127 * TWO128
  {
    ComplementaryPowers(s);
    ShiftedOutWord(a / TWO128, a % TWO128, Pow(2, s), Pow(2, 128 - s));
    u0 := Shl(a % TWO128, s);
    var high := a / Pow(2, 128 - s);
    hide Pow, Shl;
    u2, u1 := high / TWO128, high % TWO128;
  }

  /** `full_shr`: three words, the top one zero, shifted back. */
  method FullShr(x2: u128, x1: u128, x0: u128, s: nat) returns (r: u256)
    requires s < 128 && x2 == 0
    ensures Pow(2, s) > 0 && r == Words3(x2, x1, x0) / Pow(2, s)
  {
    ComplementaryPowers(s);
    ghost var p, c := Pow(2, s), Pow(2, 128 - s);
    ShiftedInWord(x1, x0, p, c);
    assert s == 0 ==> p == 1;
    assert Shl(x2, 128 - s) == 0 && Shl(x1, 128 - s) == x1 * c % TWO128;
    assert Shr(x0, s) == x0 / p && Shr(x1, s) == x1 / p;
    hide *;
    var lo, hi := Shr(x0, s), Shr(x1, s);
    if s > 0 {
      lo := lo + Shl(x1, 128 - s);
      hi := hi + Shl(x2, 128 - s);
    }
    r := hi * TWO128 + lo;
  }

  /** `div_mod_knuth`: both operands shifted until the divisor's top bit is set,
      one quotient word, the remainder shifted back. */
  method DivModKnuth(u: u256, v: u256) returns (q: u256, r: u256)
    requires u >= TWO128 && v >= TWO128
    ensures u == q * v + r && r < v
  {
    var s := LeadingZeros(v / TWO128);
    ComplementaryPowers(s);
    ShiftedDivisor(v / TWO128, v % TWO128, Pow(2, s), Pow(2, 128 - s));
    var w: u256 := v * Pow(2, s) % TWO256;
    var u2, u1, u0 := FullShl(u, s);
    var q0, x2, x1, x0 := KnuthStep(u2, u1, u0, w / TWO128, w % TWO128);
    Denormalise(u, Pow(2, s), q0, v, Words3(x2, x1, x0));
    q := q0;
    r := FullShr(x2, x1, x0, s);
  }

  /** Long division by one word: the high word first, its remainder carried down. */
  lemma HighWordFirst(ah: u128, al: u128, b: u128, q: nat, r: nat)
    requires b > 0 && (ah % b) * TWO128 + al == q * b + r && r < b
    ensures (ah * TWO128 + al) / b == ah / b * TWO128 + q && (ah * TWO128 + al) % b == r
  {
    DivFloor(ah, b);
    var k := ah / b;
    assert (k * b) * TWO128 == (k * TWO128) * b;
    assert (k * TWO128 + q) * b == (k * TWO128) * b + q * b;
    QuotientUnique(ah * TWO128 + al, b, k * TWO128 + q, r);
  }

  /** The path of `udivmod4` for a divisor of one word; the division of the high
      word panics on zero. */
  method DivideByWord(ah: u128, al: u128, b: u128) returns (r: Option<(u256, u256)>)
    ensures r == if b == 0 then None else Some(((ah * TWO128 + al) / b, (ah * TWO128 + al) % b))
  {
    if ah < b {
      var q, rem := UDiv256By128To128(ah, al, b);
      QuotientUnique(ah * TWO128 + al, b, q, rem);
      return Some((q, rem));
    }
    if b == 0 {
      return None;
    }
    QuotientAtMost(ah, b);
    var q1 := ah / b;
    var q0, rem := UDiv256By128To128(ah % b, al, b);
    HighWordFirst(ah, al, b, q0, rem);
    r := Some((q1 * TWO128 + q0, rem));
  }

  /** `udivmod4`: quotient and remainder of any two 256-bit numbers; a zero divisor
      panics (`None`). */
  method UDivMod4(a: u256, b: u256) returns (r: Option<(u256, u256)>)
    ensures r == if b == 0 then None else Some((a / b, a % b))
  {
    var ah, al, bh, bl := a / TWO128, a % TWO128, b / TWO128, b % TWO128;
    assert a == ah * TWO128 + al && b == bh * TWO128 + bl;
    if ah == 0 && bh == 0 {
      if bl == 0 {
        return None;
      }
      QuotientAtMost(al, bl);
      return Some((al / bl, al % bl));
    }
    if b > a {
      QuotientUnique(a, b, 0, a);
      return Some((0, a));
    }
    if bh == 0 {
      r := DivideByWord(ah, al, bl);
    } else {
      var q, rem := DivModKnuth(a, b);
      QuotientUnique(a, b, q, rem);
      r := Some((q, rem));
    }
  }

  // ----- signed division -----

  /** `x >> 255`: all ones for a negative number, else zero. */
  function SignMask(x: i256): i256 { if x < 0 then -1 else 0 }

  /** `(x ^ mask).wrapping_sub(mask)`. */
  function NegateIf(x: i256, mask: i256): i256
  {
    Wrap((if mask == -1 then Not(x) else x) - mask)
  }

  lemma NegateIfMeaning(x: i256, negative: bool)
    ensures NegateIf(x, if negative then -1 else 0) == Wrap(if negative then 0 - x else x)
    ensures AsU256(NegateIf(x, SignMask(x))) == UnsignedAbs(x)
  {
    CastFacts(x);
  }

  /** `idivmod4`: magnitudes are divided and the signs put back: truncation toward
      zero, the remainder with the dividend's sign. MIN / -1 wraps to MIN. */
  method IDivMod4(a: i256, b: i256) returns (r: Option<(i256, i256)>)
    ensures b == 0 ==> r == None
    ensures b != 0 ==> r == Some((Wrap(TruncDiv(a, b)), Wrap(a - b * TruncDiv(a, b))))
    ensures b != 0 && !(a == MIN256 && b == -1) ==>
      -TWO255 <= TruncDiv(a, b) < TWO255 && -TWO255 <= a - b * TruncDiv(a, b) < TWO255
  {
    hide Wrap, AsU256, Not, NegateIf;
    var sA, sB := SignMask(a), SignMask(b);
    NegateIfMeaning(a, a < 0);
    NegateIfMeaning(b, b < 0);
    var absA, absB := AsU256(NegateIf(a, sA)), AsU256(NegateIf(b, sB));
    CastFacts(a);
    CastFacts(b);
    var sQ := if sB == sA then 0 else -1;
    var words := UDivMod4(absA, absB);
    if words.None? {
      return None;
    }
    var (q, rem) := words.value;
    NegateIfMeaning(AsI256(q), sQ == -1);
    NegateIfMeaning(AsI256(rem), sA == -1);
    SignsPutBack(a, b, q, rem);
    r := Some((NegateIf(AsI256(q), sQ), NegateIf(AsI256(rem), sA)));
  }

  /** Truncating division is division of magnitudes with the signs put back. */
  lemma TruncationOfMagnitudes(a: int, b: int)
    requires b != 0
    ensures var (q, r) := (Magnitude(a) / Magnitude(b), Magnitude(a) % Magnitude(b));
      && TruncDiv(a, b) == (if (a < 0) != (b < 0) then 0 - q else q)
      && a - b * TruncDiv(a, b) == if a < 0 then 0 - r else r
  {
    var m: int, d: int := Magnitude(a), Magnitude(b);
    EuclideanNegative(m, d);
    DivFloor(m, d);
    var t := TruncDiv(a, b);
    assert t == if (a < 0) != (b < 0) then 0 - m / d else m / d;
    hide TruncDiv;
    RestOfMagnitudes(a, b, m, d, m / d, m % d, t);
  }

  lemma RestOfMagnitudes(a: int, b: int, m: int, d: int, q: int, r: int, t: int)
    requires m == Magnitude(a) && d == Magnitude(b) && m == q * d + r
    requires t == if (a < 0) != (b < 0) then 0 - q else q
    ensures a - b * t == if a < 0 then 0 - r else r
  {
    assert (0 - d) * q == 0 - q * d && (0 - d) * (0 - q) == q * d && d * (0 - q) == 0 - q * d;
  }

  lemma QuotientRange(m: nat, d: nat)
    requires 0 < d && m <= TWO255
    ensures 0 <= m % d <= m / d * d + m % d <= TWO255 && m % d < d && 0 <= m / d <= m
    ensures d >= 2 ==> m / d < TWO255
  {
    DivFloor(m, d);
    QuotientAtMost(m, d);
    MulLe(0, m / d, d);
    if d >= 2 && m >= d { QuotientSmaller(m, d); }
  }

  lemma ReadAsSigned(w: nat, negative: bool)
    requires w <= TWO255
    ensures Wrap(if negative then 0 - AsI256(w) else AsI256(w)) == Wrap(if negative then 0 - w else w)
  {}

  lemma SignsPutBack(a: i256, b: i256, q: u256, r: u256)
    requires b != 0 && q == Magnitude(a) / Magnitude(b) && r == Magnitude(a) % Magnitude(b)
    ensures Wrap(if (a < 0) != (b < 0) then 0 - AsI256(q) else AsI256(q)) == Wrap(TruncDiv(a, b))
    ensures Wrap(if a < 0 then 0 - AsI256(r) else AsI256(r)) == Wrap(a - b * TruncDiv(a, b))
    ensures -TWO255 < a - b * TruncDiv(a, b) < TWO255
    ensures !(a == MIN256 && b == -1) ==> -TWO255 <= TruncDiv(a, b) < TWO255
  {
    var (m, d) := (Magnitude(a), Magnitude(b));
    TruncationOfMagnitudes(a, b);
    QuotientRange(m, d);
    ReadAsSigned(q, (a < 0) != (b < 0));
    ReadAsSigned(r, a < 0);
    SignedRange(a, b, q, r);
  }

  lemma SignedRange(a: i256, b: i256, q: nat, r: nat)
    requires b != 0 && q <= TWO255 && q <= Magnitude(a) && r < Magnitude(b) && (Magnitude(b) >= 2 ==> q < TWO255)
    ensures r < TWO255
    ensures !(a == MIN256 && b == -1) ==> -TWO255 <= (if (a < 0) != (b < 0) then 0 - q else q) < TWO255
  {}
}
