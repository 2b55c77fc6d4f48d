/** The compile-time parser of 256-bit literals: `const_from_str_prefixed`
    (ethnum-patched/src/parse.rs and int/parse.rs). A panic is `None`. */
module ConstParse {
  import opened Machine
  import opened Arithmetic
  import opened Casts
  import opened Numerals
  import opened Parse
  import opened Format

  // ----- word-level arithmetic -----

  /** `add`: a digit into the low word, its carry into the high one. */
  function AddDigit(a: u256, b: byte): Option<u256>
  {
    var (hi, lo) := (a / TWO128, a % TWO128);
    var (lo1, carry) := ((lo + b) % TWO128, (lo + b) / TWO128);
    if hi + carry >= TWO128 then None else Some((hi + carry) * TWO128 + lo1)
  }

  lemma AddDigitExact(a: u256, b: byte)
    ensures AddDigit(a, b) == if a + b < TWO256 then Some(a + b) else None
  {
    var (hi, lo) := (a / TWO128, a % TWO128);
    assert a == hi * TWO128 + lo;
  }

  /** `mul`: the low word is multiplied by halves of 64 bits; any carry out of
      either word panics. */
  function MulRadix(a: u256, r: nat): Option<u256>
    requires r <= 16
  {
    var (hi, lo) := (a / TWO128, a % TWO128);
    MulWords(hi, (lo / TWO64) * r, (lo % TWO64) * r, r)
  }

  function MulWords(hi: nat, lh: nat, ll: nat, r: nat): Option<u256>
  {
    if hi * r >= TWO128 then None
    else if ll + (lh * TWO64) % TWO128 >= TWO128 then None
    else if hi * r + lh / TWO64 >= TWO128 then None
    else Some((hi * r + lh / TWO64) * TWO128 + (ll + (lh * TWO64) % TWO128))
  }

  /** The low word of the product carries: `ll * r` does not fit beside the low
      half of `lh * r`. The code treats this carry as an overflow of the type. */
  predicate LowWordCarries(a: int, r: int)
  {
    (a % TWO64) * r + ((a / TWO64 % TWO64) * r % TWO64) * TWO64 >= TWO128
  }

  lemma ScaleWords(hi: nat, lh: nat, ll: nat, r: nat)
    ensures (hi * TWO128 + lh * TWO64 + ll) * r == (hi * r) * TWO128 + (lh * r) * TWO64 + ll * r
  {}

  lemma MulRadixExact(a: u256, r: nat)
    requires 2 <= r <= 16
    ensures MulRadix(a, r) == if a * r < TWO256 && !LowWordCarries(a, r) then Some(a * r) else None
  {
    var (hi, lo) := (a / TWO128, a % TWO128);
    var (lh, ll) := (lo / TWO64, lo % TWO64);
    SplitWords(a);
    ScaleWords(hi, lh, ll, r);
    MulMono(0, ll, 0, r); MulMono(0, lh, 0, r); MulMono(0, hi, 0, r);
    MulWordsExact(hi, lh * r, ll * r, r);
  }

  lemma SplitWords(a: nat)
    ensures a == (a / TWO128) * TWO128 + (a % TWO128 / TWO64) * TWO64 + a % TWO128 % TWO64
    ensures a % TWO64 == a % TWO128 % TWO64 && a / TWO64 % TWO64 == a % TWO128 / TWO64
  {}

  lemma MulWordsExact(hi: nat, lh: nat, ll: nat, r: nat)
    requires hi * r >= 0
    ensures var p := (hi * r) * TWO128 + lh * TWO64 + ll;
      MulWords(hi, lh, ll, r) == if p < TWO256 && ll + (lh % TWO64) * TWO64 < TWO128 then Some(p) else None
  {
    ShiftLeft64(lh);
    MulWordsValue(hi * r, lh, ll);
  }

  lemma MulWordsValue(h: nat, lh: nat, ll: nat)
    ensures var x := ll + (lh % TWO64) * TWO64;
      && (h + lh / TWO64) * TWO128 + x == h * TWO128 + lh * TWO64 + ll
      && (x < TWO128 ==> (h + lh / TWO64 < TWO128 <==> h * TWO128 + lh * TWO64 + ll < TWO256))
    ensures h >= TWO128 ==> h * TWO128 + lh * TWO64 + ll >= TWO256
  {
    ShiftLeft64(lh);
  }

  /** Multiplying by a power of two only shifts: the bits that leave the low
      half land in the places the shifted high half has freed. */
  lemma PowersOfTwoNeverCarry(a: nat, r: int)
    requires r == 2 || r == 8 || r == 16
    ensures !LowWordCarries(a, r)
  {
    var (ll, lh) := (a % TWO64, a / TWO64 % TWO64);
    ShiftedOut(lh, r);
    NoCarry(ll, (lh * r) % TWO64, r);
  }

  /** The low half of a number times r is a multiple of r below 2^64. */
  lemma ShiftedOut(x: nat, r: int)
    requires r == 2 || r == 8 || r == 16
    ensures (x * r) % TWO64 <= TWO64 - r
  {
    var k := TWO64 / r;
    var q, m := x / k, x % k;
    assert k * r == TWO64;
    assert x * r == q * TWO64 + m * r by {
      assert x == q * k + m;
      if r == 2 {} else if r == 8 {} else {}
    }
    assert 0 <= m * r <= TWO64 - r by {
      if r == 2 {} else if r == 8 {} else {}
    }
    QuotientUnique(x * r, TWO64, q, m * r);
  }

  lemma NoCarry(ll: nat, m: nat, r: nat)
    requires ll < TWO64 && m <= TWO64 - r && 1 <= r <= 16
    ensures ll * r + m * TWO64 < TWO128
  {
    MulMono(ll, TWO64 - 1, r, r);
  }

  // ----- the digit loop -----

  predicate IsSkipped(c: byte)
  {
    c == 95 || c == 32 || c == 9 || c == 10 || c == 12 || c == 13
  }

  /** The match on (byte, radix); `None` is the "invalid digit" panic. */
  function ConstDigit(c: byte, radix: int): Option<byte>
  {
    if 48 <= c <= 49 && radix in {2, 8, 10, 16} then Some(c - 48)
    else if 50 <= c <= 55 && radix in {8, 10, 16} then Some(c - 48)
    else if 56 <= c <= 57 && radix in {10, 16} then Some(c - 48)
    else if 97 <= c <= 102 && radix == 16 then Some(c - 97 + 10)
    else if 65 <= c <= 70 && radix == 16 then Some(c - 65 + 10)
    else None
  }

  lemma ConstDigitIsToDigit(c: byte, radix: int)
    requires radix in {2, 8, 10, 16}
    ensures ConstDigit(c, radix) == ToDigit(c, radix)
  {}

  /** The bytes the loop does not skip. */
  ghost function Clean(s: seq<byte>): seq<byte>
  {
    if s == [] then []
    else Clean(s[..|s| - 1]) + (if IsSkipped(s[|s| - 1]) then [] else [s[|s| - 1]])
  }

  /** Underscores and white space between digits, and nothing else, are skipped. */
  lemma {:induction false} SeparatorsSkipped(x: seq<byte>, c: byte, y: seq<byte>)
    ensures Clean(x + [c] + y) == if c in {'_' as int, ' ' as int, '\t' as int, '\n' as int, 12, '\r' as int}
                                  then Clean(x + y) else Clean(x) + [c] + Clean(y)
    decreases |y|
  {
    hide Clean;
    CleanEmpty();
    if y == [] {
      assert x + [c] + y == x + [c] && x + y == x;
      CleanAppend(x, c);
    } else {
      var k := |y| - 1;
      var (init, last) := (y[..k], y[k]);
      assert y == init + [last];
      assert x + [c] + y == (x + [c] + init) + [last] && x + y == (x + init) + [last];
      CleanAppend(x + [c] + init, last);
      CleanAppend(x + init, last);
      CleanAppend(init, last);
      SeparatorsSkipped(x, c, init);
    }
  }

  lemma CleanAppend(x: seq<byte>, c: byte)
    ensures Clean(x + [c]) == if IsSkipped(c) then Clean(x) else Clean(x) + [c]
  {
    assert (x + [c])[..|x|] == x;
  }

  lemma CleanEmpty()
    ensures Clean([]) == []
  {}

  ghost function Step(value: Option<u256>, c: byte, radix: int): Option<u256>
    requires 0 <= radix <= 16
  {
    match (value, ConstDigit(c, radix))
    case (Some(v), Some(d)) => (match MulRadix(v, radix) case Some(m) => AddDigit(m, d) case None => None)
    case _ => None
  }

  ghost function Accumulate(ds: seq<byte>, radix: int): Option<u256>
    requires 0 <= radix <= 16
  {
    if ds == [] then Some(0) else Step(Accumulate(ds[..|ds| - 1], radix), ds[|ds| - 1], radix)
  }

  /** The radix and the offset of the digits. */
  function Header(bytes: seq<byte>, start: nat): (int, nat)
    requires start < |bytes|
  {
    if |bytes| - start > 2 then
      match (bytes[start], bytes[start + 1])
      case (48, 98) => (2, start + 2)
      case (48, 111) => (8, start + 2)
      case (48, 120) => (16, start + 2)
      case _ => (10, start)
    else (10, start)
  }

  method ConstFromStrPrefixed(bytes: seq<byte>, start: nat) returns (r: Option<u256>)
    ensures start >= |bytes| ==> r == None
    ensures start < |bytes| ==> var (radix, from) := Header(bytes, start); r == Accumulate(Clean(bytes[from..]), radix)
  {
    if start >= |bytes| {
      return None;
    }
    hide Clean, Accumulate, MulRadix, AddDigit, ConstDigit, IsSkipped;
    var (radix, from) := Header(bytes, start);
    var i := from;
    var value: u256 := 0;
    ghost var body, read: nat := bytes[from..], 0;
    hide Header;
    AccumulateStart(body, radix);
    while i < |bytes|
      invariant from <= i <= |bytes| && read == i - from
      invariant Accumulate(Clean(body[..read]), radix) == Some(value)
    {
      var c := bytes[i];
      assert body[read] == c;
      AccumulateStep(body, read, radix);
      read := read + 1;
      i := i + 1;
      if IsSkipped(c) {
        continue;
      }
      var digit := ConstDigit(c, radix);
      var product := MulRadix(value, radix);
      var sum := if digit.None? || product.None? then None else AddDigit(product.value, digit.value);
      if sum.None? {
        PanicPersists(body, read, radix);
        return None;
      }
      value := sum.value;
    }
    assert body[..|body|] == body;
    r := Some(value);
  }

  lemma AccumulateStart(body: seq<byte>, radix: int)
    requires 0 <= radix <= 16
    ensures Accumulate(Clean(body[..0]), radix) == Some(0)
  {}

  lemma AccumulateStep(body: seq<byte>, k: nat, radix: int)
    requires 0 <= radix <= 16 && k < |body|
    ensures var before := Accumulate(Clean(body[..k]), radix);
      Accumulate(Clean(body[..k + 1]), radix) == if IsSkipped(body[k]) then before else Step(before, body[k], radix)
  {
    hide MulRadix, AddDigit, ConstDigit, IsSkipped;
    var next := body[..k + 1];
    assert next[..k] == body[..k];
    var ds := Clean(body[..k]);
    if !IsSkipped(body[k]) {
      assert Clean(next) == ds + [body[k]];
      assert (ds + [body[k]])[..|ds|] == ds;
    } else {
      assert Clean(next) == ds;
    }
  }

  lemma {:induction false} PanicPersists(body: seq<byte>, k: nat, radix: int)
    requires 0 <= radix <= 16 && k <= |body| && Accumulate(Clean(body[..k]), radix) == None
    ensures Accumulate(Clean(body), radix) == None
    decreases |body| - k
  {
    if k == |body| {
      assert body[..k] == body;
    } else {
      AccumulateStep(body, k, radix);
      PanicPersists(body, k + 1, radix);
    }
  }

  // ----- what is accepted -----

  ghost predicate NoStepCarries(ds: seq<byte>, radix: int)
    requires 2 <= radix <= 16
  {
    forall i :: 0 <= i < |ds| ==> !LowWordCarries(Value(ds[..i], radix), radix)
  }

  /** The literal is accepted, with its exact value, if and only if all its
      bytes are digits, the value is below 2^256 and no multiplication step
      carries out of the low word. */
  lemma {:induction false} AccumulateExactIff(ds: seq<byte>, radix: int)
    requires radix in {2, 8, 10, 16}
    ensures Accumulate(ds, radix)
         == if AllDigits(ds, radix) && Value(ds, radix) < TWO256 && NoStepCarries(ds, radix)
            then Some(Value(ds, radix)) else None
  {
    if ds != [] {
      var k := |ds| - 1;
      var init := ds[..k];
      AllButLast(ds, radix);
      assert Accumulate(ds, radix) == Step(Accumulate(init, radix), ds[k], radix);
      hide AllDigits, NoStepCarries, Value, LowWordCarries, Accumulate, Step;
      AccumulateExactIff(init, radix);
      StepExact(Accumulate(init, radix), Value(init, radix), ds[k], radix);
    }
  }

  lemma AllButLast(ds: seq<byte>, radix: int)
    requires radix in {2, 8, 10, 16} && ds != []
    ensures var k := |ds| - 1;
      && (AllDigits(ds, radix) <==> AllDigits(ds[..k], radix) && ToDigit(ds[k], radix).Some?)
      && (NoStepCarries(ds, radix) <==>
            NoStepCarries(ds[..k], radix) && !LowWordCarries(Value(ds[..k], radix), radix))
      && Value(ds, radix) == Value(ds[..k], radix) * radix + ToDigit(ds[k], radix).GetOr(0)
      && Value(ds, radix) >= Value(ds[..k], radix)
  {
    var k := |ds| - 1;
    DigitsSplit(ds, radix);
    CarriesSplit(ds, radix);
    hide *;
    MulMono(Value(ds[..k], radix), Value(ds[..k], radix), 1, radix);
  }

  lemma DigitsSplit(ds: seq<byte>, radix: int)
    requires radix in {2, 8, 10, 16} && ds != []
    ensures var k := |ds| - 1;
      && (AllDigits(ds, radix) <==> AllDigits(ds[..k], radix) && ToDigit(ds[k], radix).Some?)
      && Value(ds, radix) == Value(ds[..k], radix) * radix + ToDigit(ds[k], radix).GetOr(0)
  {
    hide ToDigit, Value;
    var init := ds[..|ds| - 1];
    ValueOfLast(ds, radix);
    if AllDigits(ds, radix) {
      forall i | 0 <= i < |init| ensures ToDigit(init[i], radix).Some? { assert init[i] == ds[i]; }
    }
    if AllDigits(init, radix) && ToDigit(ds[|ds| - 1], radix).Some? {
      forall i | 0 <= i < |ds| ensures ToDigit(ds[i], radix).Some? {
        if i < |init| { assert ds[i] == init[i]; }
      }
    }
  }

  lemma ValueOfLast(ds: seq<byte>, radix: int)
    requires 2 <= radix <= 36 && ds != []
    ensures var k := |ds| - 1; Value(ds, radix) == Value(ds[..k], radix) * radix + ToDigit(ds[k], radix).GetOr(0)
  {
    hide ToDigit;
  }

  lemma CarriesSplit(ds: seq<byte>, radix: int)
    requires radix in {2, 8, 10, 16} && ds != []
    ensures var k := |ds| - 1;
      NoStepCarries(ds, radix) <==> NoStepCarries(ds[..k], radix) && !LowWordCarries(Value(ds[..k], radix), radix)
  {
    hide LowWordCarries, Value;
    var k := |ds| - 1;
    assert forall i :: 0 <= i < k ==> ds[..k][..i] == ds[..i];
  }

  lemma StepExact(before: Option<u256>, v: nat, c: byte, radix: int)
    requires radix in {2, 8, 10, 16}
    requires before.Some? ==> before == Some(v)
    ensures Step(before, c, radix)
         == if before.Some? && ToDigit(c, radix).Some? && !LowWordCarries(v, radix)
               && v * radix + ToDigit(c, radix).value < TWO256
            then Some(v * radix + ToDigit(c, radix).value) else None
  {
    hide MulRadix, AddDigit, LowWordCarries;
    ConstDigitIsToDigit(c, radix);
    if before.Some? && ToDigit(c, radix).Some? {
      MulRadixExact(v, radix);
      if v * radix < TWO256 { AddDigitExact(v * radix, ToDigit(c, radix).value); }
    }
  }

  /** For radix 2, 8 and 16 the carry condition is void. */
  lemma PowerOfTwoRadixExactIff(ds: seq<byte>, radix: int)
    requires radix in {2, 8, 16}
    ensures Accumulate(ds, radix)
         == if AllDigits(ds, radix) && Value(ds, radix) < TWO256 then Some(Value(ds, radix)) else None
  {
    AccumulateExactIff(ds, radix);
    forall i | 0 <= i < |ds| ensures !LowWordCarries(Value(ds[..i], radix), radix) {
      PowersOfTwoNeverCarry(Value(ds[..i], radix), radix);
    }
  }

  // ----- literals printed by the crate -----

  lemma {:induction false} CleanDigits(s: seq<byte>, radix: int)
    requires radix in {2, 8, 10, 16} && AllDigits(s, radix)
    ensures Clean(s) == s
  {
    if s != [] {
      assert ToDigit(s[|s| - 1], radix).Some?;
      CleanDigits(s[..|s| - 1], radix);
    }
  }

  /** A number printed in base 2, 8 or 16 with its prefix is always read back. */
  lemma PrefixedLiteralRoundTrip(g: GenericRadix, x: u256)
    ensures var bytes := g.Prefix() + g.NumeralOf(x);
      var (radix, from) := Header(bytes, 0);
      Accumulate(Clean(bytes[from..]), radix) == Some(x)
  {
    var digits := g.NumeralOf(x);
    var bytes := g.Prefix() + digits;
    assert bytes[2..] == digits && Header(bytes, 0) == (g.Base(), 2);
    NumeralValue(x, g.Base(), g.UpperHex?);
    CleanDigits(digits, g.Base());
    PowerOfTwoRadixExactIff(digits, g.Base());
  }

  /** A decimal literal is read back if and only if no step carries; below
      2^128 none does. */
  lemma DecimalLiteralRoundTripIff(x: u256)
    ensures var bytes := Decimal(x);
      && Header(bytes, 0) == (10, 0)
      && Accumulate(Clean(bytes[0..]), 10) == (if NoStepCarries(bytes, 10) then Some(x) else None)
    ensures x < TWO128 ==> NoStepCarries(Decimal(x), 10)
  {
    var bytes := Decimal(x);
    NumeralValue(x, 10, false);
    assert ToDigit(bytes[0], 10).Some? && (|bytes| > 1 ==> ToDigit(bytes[1], 10).Some?);
    assert bytes[0..] == bytes;
    CleanDigits(bytes, 10);
    AccumulateExactIff(bytes, 10);
    if x < TWO128 {
      forall i | 0 <= i < |bytes| ensures !LowWordCarries(Value(bytes[..i], 10), 10) {
        ValueStep(bytes, i, 10);
        ValueMonotone(bytes, i + 1, |bytes|, 10);
        assert bytes[..|bytes|] == bytes;
        SmallProductsDoNotCarry(Value(bytes[..i], 10));
      }
    }
  }

  lemma SmallProductsDoNotCarry(v: nat)
    requires v * 10 < TWO128
    ensures !LowWordCarries(v, 10)
  {
    assert v == (v / TWO64) * TWO64 + v % TWO64;
    assert (v / TWO64) * 10 < TWO64;
  }

  /** The decimal literal of 2^128 + 4 is rejected as overflowing although it
      fits: its last step multiplies a number whose low word carries. */
  lemma DecimalLiteralRejected()
    ensures var bytes := Decimal(TWO128 + 4); Accumulate(Clean(bytes[0..]), 10) == None
  {
    var x := TWO128 + 4;
    var bytes := Decimal(x);
    assert bytes[..|bytes| - 1] == Decimal(x / 10);
    assert LowWordCarries(x / 10, 10);
    hide LowWordCarries, Value, Decimal, Numeral, Accumulate, Clean;
    NumeralValue(x / 10, 10, false);
    DecimalLiteralRoundTripIff(x);
  }

  /** `1_000` is a thousand. */
  lemma SeparatedLiteral()
    ensures Accumulate(Clean([49, 95, 48, 48, 48]), 10) == Some(1_000)
  {
    assert [49] + [95] + [48, 48, 48] == [49, 95, 48, 48, 48] && [49] + [48, 48, 48] == [49, 48, 48, 48];
    SeparatorsSkipped([49], 95, [48, 48, 48]);
    DecimalPair(10, 0);
    DecimalSmall(10);
    hide Decimal, Accumulate, Clean;
    assert Decimal(1_000) == [49, 48, 48, 48] && Decimal(1_000)[0..] == Decimal(1_000);
    DecimalLiteralRoundTripIff(1_000);
  }

  /** A prefix without digits is no number: it is read in radix 10 and panics. */
  lemma PrefixAloneRejected(g: GenericRadix)
    ensures var bytes := g.Prefix();
      var (radix, from) := Header(bytes, 0);
      from <= |bytes| && 2 <= radix <= 16 && Accumulate(Clean(bytes[from..]), radix) == None
  {
    var bytes := g.Prefix();
    assert bytes[0..] == bytes && Header(bytes, 0) == (10, 0);
    var c := bytes[1];
    assert bytes == [48] + [c] + [];
    SeparatorsSkipped([48], c, []);
    hide Accumulate, Clean;
    CleanDigits([48], 10);
    assert [48] + [c] + [] == [48, c];
    CleanEmpty();
    AccumulateExactIff([48, c], 10);
    assert ToDigit([48, c][1], 10).None?;
  }

  // ----- signed literals -----

  /** The I256 form: an optional sign, the unsigned parser, then two's complement
      negation by words and a sign check. */
  method ConstFromStrPrefixedSigned(bytes: seq<byte>) returns (r: Option<i256>)
    ensures bytes == [] ==> r == None
    ensures bytes != [] ==> var (negate, start) := if bytes[0] == PLUS then (false, 1) else if bytes[0] == MINUS then (true, 1) else (false, 0);
      r == if start >= |bytes| then None
           else
             var (radix, from) := Header(bytes, start);
             match Accumulate(Clean(bytes[from..]), radix)
             case None => None
             case Some(u) => if I256.Fits(Signed(!negate, u)) then Some(Signed(!negate, u)) else None
  {
    if bytes == [] {
      return None;
    }
    hide Clean, Accumulate, IntType.Fits;
    var negate, start := bytes[0] == MINUS, if bytes[0] == PLUS || bytes[0] == MINUS then 1 else 0;
    var u := ConstFromStrPrefixed(bytes, start);
    if u.None? {
      return None;
    }
    SignFix(u.value, negate);
    var hi, lo := u.value / TWO128, u.value % TWO128;
    if negate {
      hi, lo := NegateWords(hi, lo).0, NegateWords(hi, lo).1;
    }
    var int256 := Reinterpret(hi, lo);
    if (!negate && int256 < 0) || (negate && int256 > 0) {
      return None;
    }
    r := Some(int256);
  }

  /** Two's complement negation by words: complement, then add one with its carry. */
  function NegateWords(hi: u128, lo: u128): (u128, u128)
  {
    var carry := (TWO128 - 1 - lo + 1) / TWO128;
    ((TWO128 - 1 - hi + carry) % TWO128, (TWO128 - 1 - lo + 1) % TWO128)
  }

  function Reinterpret(hi: u128, lo: u128): i256
  {
    AsI256(hi * TWO128 + lo)
  }

  /** The words, negated if asked, read as a signed number, show the wrong sign
      exactly when the magnitude does not fit. */
  lemma SignFix(u: u256, negate: bool)
    ensures var (hi, lo) := (u / TWO128, u % TWO128);
      var x := if negate then Reinterpret(NegateWords(hi, lo).0, NegateWords(hi, lo).1) else Reinterpret(hi, lo);
      var v := Signed(!negate, u);
      && (I256.Fits(v) <==> !(!negate && x < 0) && !(negate && x > 0))
      && (I256.Fits(v) ==> x == v)
  {
    var (hi, lo) := (u / TWO128, u % TWO128);
    assert u == hi * TWO128 + lo;
    if negate {
      var (h, l) := NegateWords(hi, lo);
      assert h * TWO128 + l == if u == 0 then 0 else TWO256 - u;
    }
  }
}
