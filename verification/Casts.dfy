/** Casts and two's complement of the 256-bit types (ethnum-patched/src/int.rs,
    int/convert and the wrapping operations of int/api.rs). */
module Casts {
  import opened Machine

  const MIN256: i256 := -TWO255
  const MAX256: i256 := TWO255 - 1

  // ----- casts and words -----

  /** `as_u256` and `as_i256` reinterpret the bits. */
  function AsU256(x: i256): u256 { if x >= 0 then x else x + TWO256 }

  function AsI256(w: u256): i256 { if w < TWO255 then w else w - TWO256 }

  /** Two's-complement reduction of an exact result: the wrapping operations. */
  function Wrap(x: int): i256 { AsI256(x % TWO256) }

  function Not(x: i256): i256 { AsI256(TWO256 - 1 - AsU256(x)) }

  function UnsignedAbs(x: i256): u256 { AsU256(if x >= 0 then x else Wrap(0 - x)) }

  /** `is_negative` looks at the high word only. */
  function HighWord(x: i256): int { var h := AsU256(x) / TWO128; if h < TWO127 then h else h - TWO128 }

  predicate IsNegative(x: i256) { HighWord(x) < 0 }

  ghost function Magnitude(x: int): nat { if x >= 0 then x else 0 - x }

  /** What the reinterpreting casts mean: the value is kept modulo 2^256, the
      magnitude of MIN is representable only unsigned, and complement is
      negation less one. */
  lemma CastFacts(x: i256)
    ensures AsI256(AsU256(x)) == x && (AsU256(x) - x) % TWO256 == 0
    ensures UnsignedAbs(x) == (if x >= 0 then x else 0 - x)
    ensures Not(x) == 0 - x - 1
    ensures IsNegative(x) <==> x < 0
    ensures -TWO255 < x ==> Wrap(0 - x) == 0 - x
    ensures Wrap(TWO255) == MIN256 && Wrap(0 - MIN256) == MIN256
  {}

  lemma WordFacts(w: u256)
    ensures w < TWO255 ==> AsI256(w) == w
    ensures w == TWO255 ==> AsI256(w) == MIN256
  {}

  lemma WrapFacts(x: int)
    ensures -TWO255 <= x < TWO255 ==> Wrap(x) == x
    ensures -TWO256 < x < -TWO255 ==> Wrap(x) == x + TWO256
  {}
}
