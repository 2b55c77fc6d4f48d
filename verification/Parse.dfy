/** String to integer parsing of the ethnum crate (ethnum-patched/src/parse.rs). */
module Parse {
  import opened Machine
  import opened Numerals

  datatype ParseError = Empty | InvalidDigit | PosOverflow | NegOverflow

  /** The two instances of the parsing trait. */
  datatype IntType = U256 | I256 {
    function Lowest(): int { if U256? then 0 else -TWO255 }

    function Highest(): int { if U256? then TWO256 - 1 else TWO255 - 1 }

    predicate Fits(x: int) { Lowest() <= x <= Highest() }

    /** Two's-complement reduction: the result of an unchecked operation. */
    function Wrap(x: int): int {
      if U256? then x % TWO256 else (x + TWO255) % TWO256 - TWO255
    }

    predicate IsSigned() { 0 > Lowest() }
  }

  const PLUS: byte := 43
  const MINUS: byte := 45

  /** `can_not_overflow`: twice the type's 32 bytes is its number of hexadecimal digits. */
  predicate CanNotOverflow(ty: IntType, radix: int, digits: seq<byte>)
  {
    radix <= 16 && |digits| <= 32 * 2 - (if ty.IsSigned() then 1 else 0)
  }

  // ----- specification -----

  ghost function FirstInvalid(s: seq<byte>, radix: int): (k: nat)
    requires 2 <= radix <= 36
    ensures k <= |s| && AllDigits(s[..k], radix)
    ensures k < |s| ==> ToDigit(s[k], radix).None?
    decreases |s|
  {
    if s == [] then 0
    else
      var k := FirstInvalid(s[..|s| - 1], radix);
      if k < |s| - 1 then assert s[..|s| - 1][..k] == s[..k]; k
      else if ToDigit(s[k], radix).Some? then k + 1 else assert s[..|s| - 1][..k] == s[..k]; k
  }

  ghost function Signed(isPositive: bool, v: nat): int { if isPositive then v else 0 - v }

  function OverflowError(isPositive: bool): ParseError { if isPositive then PosOverflow else NegOverflow }

  /** The outcome for the digits after sign and prefix: the valid leading digits
      must already be out of range for an overflow to be reported before an
      invalid digit. */
  ghost function DigitsResult(ty: IntType, isPositive: bool, digits: seq<byte>, radix: int): Result<int, ParseError>
    requires 2 <= radix <= 36
  {
    var k := FirstInvalid(digits, radix);
    var v := Signed(isPositive, Value(digits[..k], radix));
    if !ty.Fits(v) then Err(OverflowError(isPositive))
    else if k < |digits| then Err(InvalidDigit)
    else Ok(v)
  }

  /** The sign convention: `+` always, `-` for the signed type only. */
  function SplitSign(ty: IntType, src: seq<byte>): (bool, seq<byte>)
    requires src != []
  {
    if src[0] == PLUS then (true, src[1..])
    else if src[0] == MINUS && ty.IsSigned() then (false, src[1..])
    else (true, src)
  }

  /** Sign and prefix removed; `None` when nothing is left or the prefix is missing. */
  function Decompose(ty: IntType, src: seq<byte>, prefix: Option<seq<byte>>): Option<(bool, seq<byte>)>
    requires src != []
  {
    var (isPositive, rest) := SplitSign(ty, src);
    var p := prefix.GetOr([]);
    if |src| == 1 && (src[0] == PLUS || src[0] == MINUS) then None
    else if p <= rest && |p| < |rest| then Some((isPositive, rest[|p|..]))
    else None
  }

  ghost function ParseResult(ty: IntType, src: seq<byte>, radix: int, prefix: Option<seq<byte>>)
    : Result<int, ParseError>
    requires 2 <= radix <= 36
  {
    if src == [] then Err(Empty)
    else match Decompose(ty, src, prefix)
      case None => Err(InvalidDigit)
      case Some((isPositive, digits)) => DigitsResult(ty, isPositive, digits, radix)
  }

  /** A well-formed numeral: an allowed sign, the prefix, then one or more digits. */
  ghost predicate Denotes(ty: IntType, src: seq<byte>, radix: int, prefix: Option<seq<byte>>,
                          sign: seq<byte>, digits: seq<byte>, v: int)
    requires 2 <= radix <= 36
  {
    && (sign == [] || sign == [PLUS] || (ty.IsSigned() && sign == [MINUS]))
    && src == sign + prefix.GetOr([]) + digits
    && digits != [] && AllDigits(digits, radix)
    && v == Signed(sign != [MINUS], Value(digits, radix))
  }

  /** The parser accepts exactly the well-formed numerals whose value the type
      can hold, and returns that value. */
  lemma ParseOkIff(ty: IntType, src: seq<byte>, radix: int, prefix: Option<seq<byte>>, v: int)
    requires 2 <= radix <= 36
    requires prefix.Some? && prefix.value != [] ==> prefix.value[0] != PLUS && prefix.value[0] != MINUS
    ensures ParseResult(ty, src, radix, prefix) == Ok(v)
       <==> ty.Fits(v) && exists sign, digits :: Denotes(ty, src, radix, prefix, sign, digits, v)
  {
    if ParseResult(ty, src, radix, prefix) == Ok(v) {
      var sign, digits := AcceptedIsWellFormed(ty, src, radix, prefix, v);
    }
    if ty.Fits(v) && exists sign, digits :: Denotes(ty, src, radix, prefix, sign, digits, v) {
      var sign, digits :| Denotes(ty, src, radix, prefix, sign, digits, v);
      WellFormedIsAccepted(ty, src, radix, prefix, sign, digits, v);
    }
  }

  lemma AcceptedIsWellFormed(ty: IntType, src: seq<byte>, radix: int, prefix: Option<seq<byte>>, v: int)
    returns (sign: seq<byte>, digits: seq<byte>)
    requires 2 <= radix <= 36
    requires ParseResult(ty, src, radix, prefix) == Ok(v)
    ensures ty.Fits(v) && Denotes(ty, src, radix, prefix, sign, digits, v)
  {
    hide Value, FirstInvalid;
    var Some((isPositive, ds)) := Decompose(ty, src, prefix);
    digits := ds;
    sign := DecomposeSound(ty, src, prefix, isPositive, digits);
    assert digits[..|digits|] == digits;
  }

  lemma DecomposeSound(ty: IntType, src: seq<byte>, prefix: Option<seq<byte>>, isPositive: bool, digits: seq<byte>)
    returns (sign: seq<byte>)
    requires src != [] && Decompose(ty, src, prefix) == Some((isPositive, digits))
    ensures sign == [] || sign == [PLUS] || (ty.IsSigned() && sign == [MINUS])
    ensures isPositive <==> sign != [MINUS]
    ensures src == sign + prefix.GetOr([]) + digits && digits != []
  {
    var (_, rest) := SplitSign(ty, src);
    sign := SplitSignSound(ty, src);
    assert rest == prefix.GetOr([]) + digits;
    hide *;
    Associate(sign, prefix.GetOr([]), digits);
  }

  lemma Associate(x: seq<byte>, y: seq<byte>, z: seq<byte>)
    ensures x + (y + z) == x + y + z
  {}

  lemma SplitSignSound(ty: IntType, src: seq<byte>) returns (sign: seq<byte>)
    requires src != []
    ensures sign == [] || sign == [PLUS] || (ty.IsSigned() && sign == [MINUS])
    ensures src == sign + SplitSign(ty, src).1 && (SplitSign(ty, src).0 <==> sign != [MINUS])
  {
    sign := if |SplitSign(ty, src).1| == |src| then [] else [src[0]];
  }

  lemma DecomposeComplete(ty: IntType, src: seq<byte>, prefix: Option<seq<byte>>, sign: seq<byte>, digits: seq<byte>)
    requires sign == [] || sign == [PLUS] || (ty.IsSigned() && sign == [MINUS])
    requires src == sign + prefix.GetOr([]) + digits && digits != []
    requires var body := prefix.GetOr([]) + digits; body[0] != PLUS && body[0] != MINUS
    ensures Decompose(ty, src, prefix) == Some((sign != [MINUS], digits))
  {
    var p := prefix.GetOr([]);
    var rest := p + digits;
    SplitSignComplete(ty, src, sign, rest);
    assert |src| == 1 ==> sign == [] && src == rest;
    assert rest[..|p|] == p && rest[|p|..] == digits;
    hide SplitSign, IntType.IsSigned;
  }

  lemma SplitSignComplete(ty: IntType, src: seq<byte>, sign: seq<byte>, rest: seq<byte>)
    requires sign == [] || sign == [PLUS] || (ty.IsSigned() && sign == [MINUS])
    requires rest != [] && rest[0] != PLUS && rest[0] != MINUS
    requires src == sign + rest
    ensures SplitSign(ty, src) == (sign != [MINUS], rest)
  {
    if sign == [] {
      assert src == rest;
    } else {
      assert src[0] == sign[0] && src[1..] == rest;
    }
  }

  lemma WellFormedIsAccepted(ty: IntType, src: seq<byte>, radix: int, prefix: Option<seq<byte>>,
                             sign: seq<byte>, digits: seq<byte>, v: int)
    requires 2 <= radix <= 36
    requires prefix.Some? && prefix.value != [] ==> prefix.value[0] != PLUS && prefix.value[0] != MINUS
    requires Denotes(ty, src, radix, prefix, sign, digits, v) && ty.Fits(v)
    ensures ParseResult(ty, src, radix, prefix) == Ok(v)
  {
    hide Value, Decompose, FirstInvalid;
    var p := prefix.GetOr([]);
    assert ToDigit(digits[0], radix).Some?;
    assert (p + digits)[0] == if p == [] then digits[0] else p[0];
    DecomposeComplete(ty, src, prefix, sign, digits);
    AllDigitsNoInvalid(digits, radix);
  }

  lemma AllDigitsNoInvalid(s: seq<byte>, radix: int)
    requires 2 <= radix <= 36 && AllDigits(s, radix)
    ensures FirstInvalid(s, radix) == |s| && s[..|s|] == s
  {}

  // ----- which error is reported -----

  /** A text split at its allowed sign and its prefix, with something left that does not
      start with a sign. */
  ghost predicate SplitAs(ty: IntType, src: seq<byte>, prefix: Option<seq<byte>>, sign: seq<byte>, digits: seq<byte>)
  {
    && (sign == [] || sign == [PLUS] || (ty.I256? && sign == [MINUS]))
    && src == sign + prefix.GetOr([]) + digits && digits != []
    && var body := prefix.GetOr([]) + digits; body[0] != PLUS && body[0] != MINUS
  }

  /** The digits up to the first invalid one decide: an overflow upwards without and
      downwards with a minus sign, reported before an invalid digit behind them. */
  lemma ParseErrorMeaning(ty: IntType, src: seq<byte>, radix: int, prefix: Option<seq<byte>>,
                          sign: seq<byte>, digits: seq<byte>, k: nat)
    requires 2 <= radix <= 36 && SplitAs(ty, src, prefix, sign, digits)
    requires k <= |digits| && AllDigits(digits[..k], radix) && (k < |digits| ==> ToDigit(digits[k], radix).None?)
    ensures var (m, r) := (Value(digits[..k], radix), ParseResult(ty, src, radix, prefix));
      && (r == Err(PosOverflow) <==> sign != [MINUS] && m >= (if ty.U256? then TWO256 else TWO255))
      && (r == Err(NegOverflow) <==> sign == [MINUS] && m > TWO255)
      && (r.Err? && !r.error.PosOverflow? && !r.error.NegOverflow? ==> r == Err(InvalidDigit) && k < |digits|)
      && (r.Ok? ==> k == |digits| && r.value == if sign == [MINUS] then 0 - m else m)
  {
    DecomposeComplete(ty, src, prefix, sign, digits);
    FirstInvalidIs(digits, k, radix);
    hide Value, Decompose, FirstInvalid;
  }

  lemma FirstInvalidIs(digits: seq<byte>, k: nat, radix: int)
    requires 2 <= radix <= 36
    requires k <= |digits| && AllDigits(digits[..k], radix) && (k < |digits| ==> ToDigit(digits[k], radix).None?)
    ensures FirstInvalid(digits, radix) == k
  {
    var j := FirstInvalid(digits, radix);
    hide FirstInvalid, ToDigit;
    assert forall i :: 0 <= i < k ==> digits[..k][i] == digits[i];
    assert forall i :: 0 <= i < j ==> digits[..j][i] == digits[i];
  }

  /** No text at all is reported as empty; any other text that cannot be split so is an
      invalid digit. */
  lemma MalformedRejected(ty: IntType, src: seq<byte>, radix: int, prefix: Option<seq<byte>>)
    requires 2 <= radix <= 36
    requires prefix.Some? && prefix.value != [] ==> prefix.value[0] != PLUS && prefix.value[0] != MINUS
    ensures ParseResult(ty, src, radix, prefix) == Err(Empty) <==> src == []
    ensures src != [] && (forall sign, digits :: !SplitAs(ty, src, prefix, sign, digits)) ==>
      ParseResult(ty, src, radix, prefix) == Err(InvalidDigit)
  {
    hide Decompose, FirstInvalid, SplitAs, DigitsResult;
    if src != [] && Decompose(ty, src, prefix).Some? {
      var Some((isPositive, digits)) := Decompose(ty, src, prefix);
      var sign := DecomposeSound(ty, src, prefix, isPositive, digits);
      if !SplitAs(ty, src, prefix, sign, digits) {
        SecondSignRejected(ty, src, radix, prefix, sign, isPositive, digits);
      }
    }
    NeverEmpty(ty, src, radix, prefix);
  }

  lemma NeverEmpty(ty: IntType, src: seq<byte>, radix: int, prefix: Option<seq<byte>>)
    requires 2 <= radix <= 36
    ensures ParseResult(ty, src, radix, prefix) == Err(Empty) <==> src == []
  {
    hide Decompose, FirstInvalid, Value;
  }

  lemma SecondSignRejected(ty: IntType, src: seq<byte>, radix: int, prefix: Option<seq<byte>>,
                           sign: seq<byte>, isPositive: bool, digits: seq<byte>)
    requires 2 <= radix <= 36 && digits != []
    requires prefix.Some? && prefix.value != [] ==> prefix.value[0] != PLUS && prefix.value[0] != MINUS
    requires sign == [] || sign == [PLUS] || (ty.IsSigned() && sign == [MINUS])
    requires src == sign + prefix.GetOr([]) + digits && !SplitAs(ty, src, prefix, sign, digits)
    ensures DigitsResult(ty, isPositive, digits, radix) == Err(InvalidDigit)
  {
    var body := prefix.GetOr([]) + digits;
    assert prefix.GetOr([]) == [] && body == digits;
    FirstInvalidIs(digits, 0, radix);
    EmptyValue(isPositive, digits, radix);
    hide FirstInvalid, Value;
  }

  // ----- the code -----

  lemma CanNotOverflowBound(ty: IntType, radix: int, digits: seq<byte>, i: nat)
    requires 2 <= radix && CanNotOverflow(ty, radix, digits) && i <= |digits|
    ensures Value(digits[..i], radix) <= ty.Highest()
  {
    ValueBound(digits[..i], radix);
    PowMonotone(radix, 16, i, if ty.IsSigned() then 63 else 64);
    PowersOf256Bits();
  }

  /** Every intermediate of the unchecked loop fits the type, so wrapping never
      happens: the product before the digit is added is at most the value after. */
  lemma UncheckedStepFits(ty: IntType, isPositive: bool, radix: int, digits: seq<byte>, i: nat)
    requires 2 <= radix && CanNotOverflow(ty, radix, digits) && i < |digits|
    requires isPositive || ty.IsSigned()
    ensures var before, after := Signed(isPositive, Value(digits[..i], radix)), Signed(isPositive, Value(digits[..i + 1], radix));
      ty.Fits(before * radix) && ty.Fits(after)
  {
    ValueStep(digits, i, radix);
    CanNotOverflowBound(ty, radix, digits, i + 1);
    hide Value;
    SignedStep(isPositive, Value(digits[..i], radix), radix, ToDigit(digits[i], radix).GetOr(0));
    ProductNonNegative(Value(digits[..i], radix), radix);
  }

  /** What one step of either loop computes. */
  lemma SignedValueStep(isPositive: bool, radix: int, digits: seq<byte>, i: nat)
    requires 2 <= radix <= 36 && i < |digits|
    ensures Signed(isPositive, Value(digits[..i + 1], radix))
         == Signed(isPositive, Value(digits[..i], radix)) * radix
            + Signed(isPositive, ToDigit(digits[i], radix).GetOr(0))
  {
    ValueStep(digits, i, radix);
    hide Value;
    SignedStep(isPositive, Value(digits[..i], radix), radix, ToDigit(digits[i], radix).GetOr(0));
  }

  lemma ProductNonNegative(v: nat, radix: nat)
    ensures v * radix >= 0
  {}

  lemma WrapIsIdentity(ty: IntType, x: int)
    requires ty.Fits(x)
    ensures ty.Wrap(x) == x
  {}

  method UncheckedLoop(ty: IntType, isPositive: bool, digits: seq<byte>, radix: int)
    returns (r: Result<int, ParseError>)
    requires 2 <= radix <= 36 && (isPositive || ty.IsSigned())
    requires CanNotOverflow(ty, radix, digits)
    ensures r == DigitsResult(ty, isPositive, digits, radix)
  {
    hide Value, CanNotOverflow, IntType.Wrap;
    ghost var k := FirstInvalid(digits, radix);
    EmptyValue(isPositive, digits, radix);
    var result := 0;
    var i := 0;
    while i < |digits|
      invariant 0 <= i <= k
      invariant result == Signed(isPositive, Value(digits[..i], radix)) && ty.Fits(result)
    {
      UncheckedStepFits(ty, isPositive, radix, digits, i);
      SignedValueStep(isPositive, radix, digits, i);
      WrapIsIdentity(ty, result * radix);
      result := ty.Wrap(result * radix);
      var x := ToDigit(digits[i], radix);
      if x.None? {
        assert i == k;
        return Err(InvalidDigit);
      }
      WrapIsIdentity(ty, if isPositive then result + x.value else result - x.value);
      result := ty.Wrap(if isPositive then result + x.value else result - x.value);
      assert i < k;
      i := i + 1;
    }
    assert digits[..k] == digits;
    r := Ok(result);
  }

  /** Once a prefix of valid digits is out of range, the whole run of valid digits is. */
  lemma OverflowPersists(ty: IntType, isPositive: bool, digits: seq<byte>, radix: int, i: nat)
    requires 2 <= radix <= 36 && (isPositive || ty.IsSigned())
    requires i <= FirstInvalid(digits, radix)
    requires !ty.Fits(Signed(isPositive, Value(digits[..i], radix)))
    ensures DigitsResult(ty, isPositive, digits, radix) == Err(OverflowError(isPositive))
  {
    ValueMonotone(digits, i, FirstInvalid(digits, radix), radix);
  }

  method CheckedLoop(ty: IntType, isPositive: bool, digits: seq<byte>, radix: int)
    returns (r: Result<int, ParseError>)
    requires 2 <= radix <= 36 && (isPositive || ty.IsSigned())
    ensures r == DigitsResult(ty, isPositive, digits, radix)
  {
    hide Value, DigitsResult;
    ghost var k := FirstInvalid(digits, radix);
    EmptyValue(isPositive, digits, radix);
    var result := 0;
    var i := 0;
    while i < |digits|
      invariant 0 <= i <= k
      invariant result == Signed(isPositive, Value(digits[..i], radix)) && ty.Fits(result)
    {
      var mul := if ty.Fits(result * radix) then Some(result * radix) else None;
      var x := ToDigit(digits[i], radix);
      if x.None? {
        InvalidInRange(ty, isPositive, digits, radix);
        return Err(InvalidDigit);
      }
      ValueStep(digits, i, radix);
      SignedStep(isPositive, Value(digits[..i], radix), radix, x.value);
      var next := if isPositive then result * radix + x.value else result * radix - x.value;
      if mul.None? {
        ProductOutOfRange(ty, isPositive, result * radix, next);
        OverflowPersists(ty, isPositive, digits, radix, i + 1);
        return Err(OverflowError(isPositive));
      }
      if !ty.Fits(next) {
        OverflowPersists(ty, isPositive, digits, radix, i + 1);
        return Err(OverflowError(isPositive));
      }
      result := next;
      i := i + 1;
    }
    assert digits[..k] == digits;
    ValidInRange(ty, isPositive, digits, radix);
    r := Ok(result);
  }

  /** Adding a digit moves away from zero, so an overflowing product stays out of range. */
  lemma ProductOutOfRange(ty: IntType, isPositive: bool, product: int, next: int)
    requires !ty.Fits(product)
    requires if isPositive then 0 <= product <= next else next <= product <= 0
    ensures !ty.Fits(next)
  {}

  lemma InvalidInRange(ty: IntType, isPositive: bool, digits: seq<byte>, radix: int)
    requires 2 <= radix <= 36 && FirstInvalid(digits, radix) < |digits|
    requires ty.Fits(Signed(isPositive, Value(digits[..FirstInvalid(digits, radix)], radix)))
    ensures DigitsResult(ty, isPositive, digits, radix) == Err(InvalidDigit)
  {}

  lemma ValidInRange(ty: IntType, isPositive: bool, digits: seq<byte>, radix: int)
    requires 2 <= radix <= 36 && FirstInvalid(digits, radix) == |digits|
    requires ty.Fits(Signed(isPositive, Value(digits, radix)))
    ensures DigitsResult(ty, isPositive, digits, radix) == Ok(Signed(isPositive, Value(digits, radix)))
  {
    assert digits[..|digits|] == digits;
  }

  lemma EmptyValue(isPositive: bool, digits: seq<byte>, radix: int)
    requires 2 <= radix <= 36
    ensures Signed(isPositive, Value(digits[..0], radix)) == 0
  {}

  lemma SignedStep(isPositive: bool, v: nat, radix: int, x: nat)
    requires radix >= 0
    ensures Signed(isPositive, v * radix + x) == Signed(isPositive, v) * radix + Signed(isPositive, x)
    ensures if isPositive then Signed(isPositive, v) * radix >= 0 else Signed(isPositive, v) * radix <= 0
  {}

  /** `from_str_radix` */
  method FromStrRadix(ty: IntType, src: seq<byte>, radix: int, prefix: Option<seq<byte>>)
    returns (r: Result<int, ParseError>)
    requires 2 <= radix <= 36
    ensures r == ParseResult(ty, src, radix, prefix)
  {
    if |src| == 0 {
      return Err(Empty);
    }
    var isPositive, prefixedDigits;
    if (src[0] == PLUS || src[0] == MINUS) && src[1..] == [] {
      return Err(InvalidDigit);
    } else if src[0] == PLUS {
      isPositive, prefixedDigits := true, src[1..];
    } else if src[0] == MINUS && ty.IsSigned() {
      isPositive, prefixedDigits := false, src[1..];
    } else {
      isPositive, prefixedDigits := true, src;
    }
    var digits;
    match prefix {
      case Some(p) =>
        if !(p <= prefixedDigits) {
          return Err(InvalidDigit);
        }
        digits := prefixedDigits[|p|..];
      case None =>
        digits := prefixedDigits;
    }
    if digits == [] {
      return Err(InvalidDigit);
    }
    if CanNotOverflow(ty, radix, digits) {
      r := UncheckedLoop(ty, isPositive, digits, radix);
    } else {
      r := CheckedLoop(ty, isPositive, digits, radix);
    }
  }

  // ----- from_str_prefixed -----

  const BIN_PREFIX: seq<byte> := [48, 98]
  const OCT_PREFIX: seq<byte> := [48, 111]
  const HEX_PREFIX: seq<byte> := [48, 120]

  /** The four attempts of `from_str_prefixed`, in order. */
  function Attempt(k: nat): (int, Option<seq<byte>>)
    requires k < 4
  {
    [(2, Some(BIN_PREFIX)), (8, Some(OCT_PREFIX)), (16, Some(HEX_PREFIX)), (10, None)][k]
  }

  ghost function AttemptResult(ty: IntType, src: seq<byte>, k: nat): Result<int, ParseError>
    requires k < 4
  {
    ParseResult(ty, src, Attempt(k).0, Attempt(k).1)
  }

  method FromStrPrefixed(ty: IntType, src: seq<byte>) returns (r: Result<int, ParseError>)
    ensures r.Ok? <==> exists k: nat :: k < 4 && AttemptResult(ty, src, k).Ok?
    ensures forall k: nat :: k < 4 && AttemptResult(ty, src, k).Ok? ==> r == AttemptResult(ty, src, k)
    ensures r.Err? ==> r == AttemptResult(ty, src, 3)
    ensures r.Err? && src != [] && HasRadixPrefix(ty, src) ==> r == Err(InvalidDigit)
    ensures r.Err? && src != [] ==>
      (r == AttemptResult(ty, src, MatchingAttempt(ty, src))
       <==> !HasRadixPrefix(ty, src) || AttemptResult(ty, src, MatchingAttempt(ty, src)) == Err(InvalidDigit))
  {
    hide ParseResult;
    if src != [] { AttemptsExclusive(ty, src); } else { EmptyRejected(ty); }
    r := FromStrRadix(ty, src, 2, Some(BIN_PREFIX));
    assert r == AttemptResult(ty, src, 0);
    if r.Err? {
      r := FromStrRadix(ty, src, 8, Some(OCT_PREFIX));
      assert r == AttemptResult(ty, src, 1);
    }
    if r.Err? {
      r := FromStrRadix(ty, src, 16, Some(HEX_PREFIX));
      assert r == AttemptResult(ty, src, 2);
    }
    if r.Err? {
      r := FromStrRadix(ty, src, 10, None);
      assert r == AttemptResult(ty, src, 3);
    }
  }

  lemma EmptyRejected(ty: IntType)
    ensures forall k: nat :: k < 4 ==> AttemptResult(ty, [], k) == Err(Empty)
  {}

  predicate HasRadixPrefix(ty: IntType, src: seq<byte>)
    requires src != []
  {
    var rest := SplitSign(ty, src).1;
    BIN_PREFIX <= rest || OCT_PREFIX <= rest || HEX_PREFIX <= rest
  }

  /** The attempt a string is meant for, by its prefix. */
  function MatchingAttempt(ty: IntType, src: seq<byte>): nat
    requires src != []
    ensures MatchingAttempt(ty, src) < 4 && (HasRadixPrefix(ty, src) <==> MatchingAttempt(ty, src) < 3)
  {
    var rest := SplitSign(ty, src).1;
    if BIN_PREFIX <= rest then 0 else if OCT_PREFIX <= rest then 1 else if HEX_PREFIX <= rest then 2 else 3
  }

  /** At most one attempt accepts a string, so the order of the attempts does
      not matter to the value. A prefixed string that its own radix rejects is
      always reported as an invalid (decimal) digit, out-of-range values included. */
  lemma AttemptsExclusive(ty: IntType, src: seq<byte>)
    requires src != []
    ensures forall j: nat, k: nat :: j < k < 4 ==> AttemptResult(ty, src, j).Err? || AttemptResult(ty, src, k).Err?
    ensures HasRadixPrefix(ty, src) ==> AttemptResult(ty, src, 3) == Err(InvalidDigit)
  {
    var rest := SplitSign(ty, src).1;
    forall j: nat, k: nat | j < k < 4
      ensures AttemptResult(ty, src, j).Err? || AttemptResult(ty, src, k).Err?
    {
      if AttemptResult(ty, src, j).Ok? {
        AttemptNeedsPrefix(ty, src, j);
        if k == 3 {
          PrefixIsNotDecimal(ty, src);
        } else if AttemptResult(ty, src, k).Ok? {
          AttemptNeedsPrefix(ty, src, k);
        }
      }
    }
    if HasRadixPrefix(ty, src) { PrefixIsNotDecimal(ty, src); }
  }

  lemma AttemptNeedsPrefix(ty: IntType, src: seq<byte>, k: nat)
    requires src != [] && k < 3 && AttemptResult(ty, src, k).Ok?
    ensures var rest := SplitSign(ty, src).1;
      Attempt(k).1.value <= rest && |rest| >= 2 && rest[1] == [98, 111, 120][k] && HasRadixPrefix(ty, src)
  {
    hide DigitsResult;
  }

  lemma PrefixIsNotDecimal(ty: IntType, src: seq<byte>)
    requires src != [] && HasRadixPrefix(ty, src)
    ensures ParseResult(ty, src, 10, None) == Err(InvalidDigit)
  {
    var (isPositive, rest) := SplitSign(ty, src);
    assert rest[0] == 48 && ToDigit(rest[1], 10).None?;
    assert rest[0..] == rest;
    FirstInvalidAt(rest, 10, 1);
    assert rest[..1] == [48] && rest[..1][..0] == [];
    assert Value(rest[..1], 10) == 0;
  }

  // ----- a number out of range behind its prefix -----

  ghost function OneAndZeros(n: nat): seq<byte>
  {
    if n == 0 then [49] else OneAndZeros(n - 1) + [48]
  }

  lemma {:induction false} OneAndZerosValue(n: nat)
    ensures |OneAndZeros(n)| == n + 1 && AllDigits(OneAndZeros(n), 16) && Value(OneAndZeros(n), 16) == Pow(16, n)
  {
    var s := OneAndZeros(n);
    if n == 0 {
      assert s[..0] == [];
    } else {
      OneAndZerosValue(n - 1);
      assert s[..|s| - 1] == OneAndZeros(n - 1);
    }
  }

  /** "0x1" and 64 zeros, the hexadecimal text of 2^256: the attempt in base 16
      reports the overflow, but the attempt in base 10 has the last word. */
  lemma PrefixedOverflowReportedAsInvalid()
    ensures var src := HEX_PREFIX + OneAndZeros(64);
      && AttemptResult(U256, src, 2) == Err(PosOverflow)
      && AttemptResult(U256, src, 3) == Err(InvalidDigit)
      && forall k: nat :: k < 4 ==> AttemptResult(U256, src, k).Err?
  {
    hide Value, AllDigits, FirstInvalid, DigitsResult, Decompose, OneAndZeros, HasRadixPrefix;
    var digits := OneAndZeros(64);
    var src := HEX_PREFIX + digits;
    OneAndZerosValue(64);
    HexDecomposed(digits);
    TooLarge(digits);
    PrefixIsNotDecimal(U256, src);
    assert Attempt(0) == (2, Some(BIN_PREFIX)) && Attempt(1) == (8, Some(OCT_PREFIX));
    assert Attempt(2) == (16, Some(HEX_PREFIX)) && Attempt(3) == (10, None);
    hide Attempt;
  }

  lemma HexDecomposed(digits: seq<byte>)
    requires digits != []
    ensures var src := HEX_PREFIX + digits;
      && HasRadixPrefix(U256, src)
      && Decompose(U256, src, Some(HEX_PREFIX)) == Some((true, digits))
      && Decompose(U256, src, Some(BIN_PREFIX)) == None && Decompose(U256, src, Some(OCT_PREFIX)) == None
  {
    var src := HEX_PREFIX + digits;
    assert src[0] == 48 && src[1] == 120 && src[2..] == digits;
    assert SplitSign(U256, src) == (true, src);
    assert BIN_PREFIX[1] == 98 && OCT_PREFIX[1] == 111;
  }

  lemma TooLarge(digits: seq<byte>)
    requires AllDigits(digits, 16) && Value(digits, 16) == Pow(16, 64)
    ensures DigitsResult(U256, true, digits, 16) == Err(PosOverflow)
  {
    PowersOf256Bits();
    AllDigitsNoInvalid(digits, 16);
    hide Value, AllDigits, FirstInvalid, Pow;
  }

  lemma FirstInvalidAt(s: seq<byte>, radix: int, k: nat)
    requires 2 <= radix <= 36 && k < |s|
    requires AllDigits(s[..k], radix) && ToDigit(s[k], radix).None?
    ensures FirstInvalid(s, radix) == k
  {}
}
