# Verified model of the pricing, bridge and governance core

This project models the parts of the Soroban pricing contract, and of the
256-bit integer crate vendored with it (`ethnum-patched`), whose correctness
depends on arithmetic or on an invariant over whole runs, and proves what they
do. `dafny verify dfyconfig.toml` checks everything.

| file | component |
|---|---|
| `Machine`, `Arithmetic`, `MapSum` | integer ranges and outcome types; product and quotient facts; sums over maps |
| `RatioMath` | exact ratio comparison by two Euclidean chains; population variance |
| `FlashLoanGuard` | 128 by 128 bit multiplication and the constant-product guard |
| `Numerals`, `Parse`, `Format`, `ConstParse` | decimal and radix numerals; the runtime parser, the printers, the compile-time parser |
| `Casts`, `Int256` | two's complement, signed Euclidean division |
| `NativeMul`, `NativeDivMod` | word-by-word multiplication, and division up to Knuth's algorithm D (The Art of Computer Programming, volume 2, section 4.3.1) |
| `VotingDelegation` | stakes, direct weights, delegations and delegated totals |
| `RateLimit`, `TwapWindow`, `Slashing` | three logs pruned on write that must answer for the full history |
| `OracleAttestation` | two-of-three oracle agreement over the fiat escrow state machine |
| `OracleRuns`, `OracleReplacement`, `OracleLiveness` | runs up to an agreement; what replacing oracles can do to it; when it can still be reached and what it leaves to the parties |
| `EscrowLaws` | which party every change of an escrow, a registry or the attestations goes back to |
| `Governance` | counted and weighted quorum, key rotation |
| `Fees`, `Consensus` | fee shares, fair splitting with dust, weighted aggregation |

## How it is modelled

Arithmetic is on unbounded integers; every stored value and every intermediate
whose width matters has a range type (`u64`, `u128`, `i128`, `u256`, `i256`), and
checked, wrapping and saturating operations are written out as the code has
them. Code that updates storage or buffers is a class or a method with loops.
Each such method is proved to compute a specification function (`Stake`,
`Enforce`, `Record`, `ApplyPenalty`, `Consensus`, `Verdict`, `ParseResult`,
`Words3` and so on), and the properties are lemmas about these functions and
about runs of them. An entry point that returns an error leaves no trace in
storage, so a failed call changes nothing. A missing map key reads as 0 where
the code reads it so. Authorisation is a caller argument; ledger time and ledger
sequence are arguments that never decrease. Signature verification is an
arbitrary predicate, of which nothing is assumed.

The history of a log, and the number of rounds of a loop, are ghost: the code
does not have them, and the stored state is shown to agree with them.

## Where the code and its documentation differ

The model follows the code. For each point below the lemmas named give the exact
condition under which the code does as promised and an input on which it does not.

- `wide_mul` (src/flash_loan_guard.rs:211-234) is documented as the full 256-bit
  product. The carry out of the two cross products is added at bit 128 instead of
  bit 192 (`WideMulValue`, `WideMulExactIff`, `WideMulInexactAtMax`).
- `check_k_nondecreasing` (src/flash_loan_guard.rs:143-157) compares the products
  as tuples with the low word first (`KVerdictTrueIff`,
  `KVerdictWrongAcross128Bits`).
- The compile-time parser (ethnum-patched/src/parse.rs:152-168) treats a carry out
  of the low word as an overflow of the type, so some decimal literals that fit
  are rejected (`DecimalLiteralRoundTripIff`, `DecimalLiteralRejected`).
- `from_str_prefixed` (ethnum-patched/src/parse.rs:130-135) reports a prefixed number
  that is out of range as an invalid digit (`FromStrPrefixed`,
  `PrefixedOverflowReportedAsInvalid`).
- The rolling mint limit (src/bridge/rate_limit.rs:90-97) does not count entries
  stamped 0 during the first day (`RollingTotalExactIff`,
  `CapNotEnforcedAtTimeZero`).
- The realised volatility (src/twap_window.rs:280-317) is said to saturate. A scaled
  price move above 128 bits makes the report a constant, and the final cast keeps
  the low 64 bits only (`VolatilityExactIff`, `HugeMoveReportedAsCalm`,
  `LargePricesReportedAsWild`).
- Unstaking after a change of the conversion rate can erase power delegated by
  another staker (`UnstakeKeepsConsistentIff`, `UnstakeAfterRateChangeLosesPower`).
- `settle_fiat_escrow` (src/lib.rs:2706-2719) does not consult the oracles
  (`SettledWithoutConsensus`), and a lock at ledger time 0 never expires
  (`SettleOrRefund`). src/lib.rs does not declare the module `oracle_attestation`,
  nor `flash_loan_guard` and `twap_window`; they are modelled as written.
- Before the deadline the anchor may settle and the sender may refund on conflict
  (src/oracle_attestation.rs:358-403) at the same moment, for example a dispatched
  escrow nobody has attested yet (`SettleAndRefundOverlapIff`,
  `DispatchedYetRefundable`).
- Attestations cannot be renewed, so an agreement nobody acts on for five minutes
  can be lost for good (`ConsensusStillPossibleIff`, `AgreementLapses`).
- Replacing oracles can lead to agreement on two transactions for one escrow,
  exactly when the two registries hold more than three oracles between them, given
  that two transactions can be signed at all (`TwoAgreementsPossibleIff`).
- `set_signer_weight` (src/governance.rs:245-257) can lock everybody out of a rotated
  contract, exactly when the quorum was unanimous (`DroppedWeightLocksOutIff`).
  Nothing in the modelled sources calls it.
- `settle_flash_loan_fee` advances the growth counter before a later product can
  overflow (`SettleFlashLoanFee`, `GrowthAdvancesThenSplitOverflows`).

Three comments in the code are inexact although the code is right:

- In `wrapping_div_rem_euclid` (ethnum-patched/src/int.rs:540-543) the subtraction
  commented as unable to overflow wraps when the divisor is MIN; the result is
  right because it wraps (`WrappingDivRemEuclid`). It is modelled as wrapping, as
  without debug assertions.
- The buffer comments of the decimal printer (ethnum-patched/src/fmt.rs:97-117) argue
  for 39 bytes and 128 bits; for 79 bytes and 256 bits the claim holds
  (`FormatDecimal`).
- In `div_mod_knuth` the all-ones guess is never made, because the top word of the
  shifted dividend is below 2^127 (`FullShl`); the step is proved right for it
  anyway (`KnuthStep`).

## Model

| member | source | states |
|---|---|---|
| RatioMath.RatioGe | src/math.rs:150-189 | for non-negative numerators and positive denominators the answer is true exactly when a*d >= c*b over unbounded integers, although no such product is formed; the loop body is entered at most 2*L - 1 times, L the bit length of the smaller denominator |
| RatioMath.QuotientsDecide | src/math.rs:150-189 | when the integer parts differ, comparing them settles the question in either direction |
| RatioMath.ReciprocalStep | src/math.rs:150-189 | when the integer parts agree, the question about the reciprocals of the fractional parts, asked in the opposite direction, has the same answer; each of the three zero-remainder exits gives that answer |
| RatioMath.TwoRoundsHalve | src/math.rs:150-189 | two rounds of a Euclidean chain cost its denominator at least one bit, the reason for the logarithmic bound |
| RatioMath.TruncatedMeanError | src/math.rs:24-46 | n times the squared deviations from any stand-in mean m exceed n*sum(x^2) - sum(x)^2 by exactly the square of sum(x) - n*m |
| RatioMath.VarianceIsExactWithinOne | src/math.rs:55-63 | a successful result on two or more values is the exact population variance rounded down, or one more, and which of the two is decided by the remainder the truncated mean leaves |
| RatioMath.DispersionNonNegative | src/math.rs:55-63 | n*sum(x^2) is never below sum(x)^2, so the exact variance the result is compared with is a natural number |
| RatioMath.VarianceSucceedsIff | src/math.rs:55-63 | 0 for at most one value; otherwise a variance is returned exactly when every partial sum, and the sum of squared deviations from the truncated mean, fits 127 bits, and the only error is an overflow |
| RatioMath.MeanMeaning | src/math.rs:24-32 | 0 for no values; otherwise the sum over the count rounded toward zero, returned exactly when every partial sum fits 127 bits |
| FlashLoanGuard.WideMulValue | src/flash_loan_guard.rs:211-234 | for every pair of 128-bit operands: the exact product, or short of it by (2^64 - 1) * 2^128 when the two cross products together carry out of 128 bits |
| FlashLoanGuard.WideMulExactIff | src/flash_loan_guard.rs:211-234 | the documented exact 256-bit product is obtained if and only if the sum of the cross products fits 128 bits |
| FlashLoanGuard.WideMulExactBelow127Bits | src/flash_loan_guard.rs:211-234 | operands below 2^127 are always multiplied exactly |
| FlashLoanGuard.WideMulInexactAtMax | src/flash_loan_guard.rs:211-234 | the largest operand squared is a concrete input on which the product is wrong |
| FlashLoanGuard.LowWordExact | src/flash_loan_guard.rs:211-234 | the low word is right for all operands; all the loss is in the high word |
| FlashLoanGuard.KVerdictTrueIff | src/flash_loan_guard.rs:143-157 | for all snapshots, a condition on the reserves alone that holds exactly when the verdict is the true one: the high words of the true products are equal or differ as the low words do, and on equal low words the carries lost do not change their order |
| FlashLoanGuard.KVerdictTrueBelow128Bits | src/flash_loan_guard.rs:143-157 | snapshots whose products fit 128 bits are accepted exactly when the product did not decrease |
| FlashLoanGuard.KVerdictWrongAcross128Bits | src/flash_loan_guard.rs:143-157 | a pair of snapshots whose product shrinks from 2^128 to 2^128 - 1 and is nevertheless accepted |
| FlashLoanGuard.AcceptedPoolIsSound | src/flash_loan_guard.rs:101-123 | an accepted pair of snapshots within 128 bits has the minimum depth, a product no smaller than before and a scaled price between half and three halves of the old one |
| FlashLoanGuard.AcceptedIff | src/flash_loan_guard.rs:101-197 | the exact verdict for all snapshots on which the order of the products survives: accepted are positive reserves of the minimum depth whose product did not decrease and whose scaled price moved by at most half of the old one either way; which error is returned otherwise |
| Numerals.NumeralValue | ethnum-patched/src/parse.rs:26-128 | the digits of a number in a base read back as that number, and all of them are digits of the base |
| Numerals.NumeralUnique | ethnum-patched/src/fmt.rs:90-153 | a digit string without leading zero is the numeral of its own value, so a number has one canonical text |
| Numerals.DigitsAreWritten | ethnum-patched/src/fmt.rs:64-81 | digits are written as 0 to 9 and the letters of the case asked for, and read as a digit of the base in either case, nothing else |
| Parse.ParseOkIff | ethnum-patched/src/parse.rs:30-128 | a string is accepted with value v if and only if it is an allowed sign, the prefix and one or more digits whose signed value v lies in the range of the type |
| Parse.ParseErrorMeaning | ethnum-patched/src/parse.rs:30-128 | the digits up to the first invalid one decide: out of range without a minus sign is an overflow upwards, with one an overflow downwards, and otherwise an invalid digit is reported exactly when there is one |
| Parse.MalformedRejected | ethnum-patched/src/parse.rs:30-75 | no text is reported as empty; a text that cannot be split into an allowed sign, the prefix and something that does not start with a sign is an invalid digit |
| Parse.UncheckedStepFits | ethnum-patched/src/parse.rs:26-28 | under the length test every product and every sum of the unchecked loop stays in the range of the type |
| Parse.UncheckedLoop | ethnum-patched/src/parse.rs:77-99 | the unchecked fast path returns what the specification of the digit string returns, so it agrees with the checked path wherever it is chosen |
| Parse.CheckedLoop | ethnum-patched/src/parse.rs:100-126 | the checked path, for all lengths and radixes: value, overflow on either side, or invalid digit, whichever the leading valid digits decide first |
| Parse.FromStrRadix | ethnum-patched/src/parse.rs:30-128 | the whole parser, for both types and every radix from 2 to 36, returns the specified value or error |
| Parse.FromStrPrefixed | ethnum-patched/src/parse.rs:130-135 | succeeds exactly when one of the four attempts does, with that value; the error reported is that of the attempt the prefix asks for exactly when there is no radix prefix or that attempt found an invalid digit |
| Parse.AttemptsExclusive | ethnum-patched/src/parse.rs:130-135 | no string is accepted by two of the four attempts, so their order does not affect the value |
| Parse.PrefixedOverflowReportedAsInvalid | ethnum-patched/src/parse.rs:130-135 | 0x1 and 64 zeros: the attempt in base 16 reports an overflow, the result an invalid digit |
| Format.LutPair | ethnum-patched/src/fmt.rs:83-88 | the two characters of the table at 2*d are the two decimal digits of d |
| Format.CopyQuad | ethnum-patched/src/fmt.rs:104-120 | the four decimal digits of the remainder land at the four bytes before the part already written, which is kept |
| Format.FormatDecimal | ethnum-patched/src/fmt.rs:90-153 | the decimal numeral of every 256-bit number; no index leaves the 79-byte buffer, and at most 78 bytes are used |
| Format.LastDigits | ethnum-patched/src/fmt.rs:122-141 | the digits that remain below 10000 complete the numeral in the room that is left |
| Format.FormatRadix | ethnum-patched/src/fmt.rs:15-44 | the numeral in base 2, 8 or 16 of every 256-bit number; at most 256 bytes are used |
| Format.Display | ethnum-patched/src/macros/fmt.rs:30-44 | a minus sign exactly for negative values, then the decimal numeral of the magnitude, the most negative value included |
| Format.DisplayRoundTrip | ethnum-patched/src/fmt.rs:90-153 | parsing the printed text of any value of either type returns that value |
| Format.RadixRoundTrip | ethnum-patched/src/fmt.rs:15-44 | the same for bases 2, 8 and 16, with and without the base prefix |
| Format.PrefixedTextRoundTrip | ethnum-patched/src/parse.rs:130-135 | an attempt of the prefixed parser reads every prefixed number in the base of its prefix, and every decimal text of either type |
| Format.RadixCharacters | ethnum-patched/src/fmt.rs:60-81 | the characters of each radix are its own alphabet, lower-case letters for {:x} and capitals for {:X}: the last is that of the remainder, the others are the numeral of the quotient |
| Format.DecimalCanonical | ethnum-patched/src/fmt.rs:90-153 | no leading zero, and different numbers have different texts |
| ConstParse.AddDigitExact | ethnum-patched/src/parse.rs:142-150 | adding a digit by words is exact, and panics exactly when the sum leaves 256 bits |
| ConstParse.MulRadixExact | ethnum-patched/src/parse.rs:152-168 | multiplying by words is exact when it returns; it panics when the product leaves 256 bits or the low word carries |
| ConstParse.PowersOfTwoNeverCarry | ethnum-patched/src/parse.rs:152-168 | for radix 2, 8 and 16 the low word never carries |
| ConstParse.ConstFromStrPrefixed | ethnum-patched/src/parse.rs:137-205 | the loop folds the digits that are neither underscore nor white space, in the radix the header names, and panics if and only if the fold does |
| ConstParse.AccumulateExactIff | ethnum-patched/src/parse.rs:137-205 | a value is returned, and is the exact one, if and only if all bytes are digits, the value is below 2^256 and no multiplication carries out of the low word |
| ConstParse.PowerOfTwoRadixExactIff | ethnum-patched/src/parse.rs:137-205 | for radix 2, 8 and 16: success exactly for valid digits with a value below 2^256 |
| ConstParse.PrefixedLiteralRoundTrip | ethnum-patched/src/parse.rs:137-205 | every number printed in base 2, 8 or 16 with its prefix is read back |
| ConstParse.DecimalLiteralRoundTripIff | ethnum-patched/src/parse.rs:137-205 | a printed decimal number is read back if and only if no step carries out of the low word, which is certain below 2^128 |
| ConstParse.DecimalLiteralRejected | ethnum-patched/src/parse.rs:137-205 | the decimal literal of 2^128 + 4 fits but is rejected |
| ConstParse.SeparatorsSkipped | ethnum-patched/src/parse.rs:185-191 | underscores and white space at any place, and no other byte, do not change what is read |
| ConstParse.SeparatedLiteral | ethnum-patched/src/parse.rs:185-191 | the literal 1_000 is a thousand |
| ConstParse.PrefixAloneRejected | ethnum-patched/src/parse.rs:171-182 | a prefix without digits is read in radix 10 and rejected |
| ConstParse.ConstFromStrPrefixedSigned | ethnum-patched/src/int/parse.rs:9-37 | the signed literal parser returns the signed value exactly when the unsigned parser succeeds and the value fits, otherwise it panics |
| ConstParse.SignFix | ethnum-patched/src/int/parse.rs:9-37 | negation by words shows the wrong sign exactly when the magnitude does not fit the signed type |
| Casts.CastFacts | ethnum-patched/src/int/api.rs:1227-1347 | reinterpreting casts keep the value modulo 2^256 and undo each other; magnitude, complement, negation and the sign test mean what they should, the most negative value included |
| Int256.WrappingDivRemEuclid | ethnum-patched/src/int.rs:529-562 | the Euclidean quotient and remainder for every pair with a nonzero divisor except (MIN, -1), whose quotient wraps to MIN with remainder 0 |
| Int256.EuclideanUnique | ethnum-patched/src/int.rs:529-562 | quotient and remainder are determined by q*y + r = x and 0 <= r < the magnitude of y |
| Int256.CheckedDivRemEuclid | ethnum-patched/src/int.rs:389-400 | a result exactly when the divisor is nonzero and the pair is not (MIN, -1), and then a Euclidean division |
| Int256.OverflowingDivRemEuclid | ethnum-patched/src/int.rs:619-626 | the flag is raised exactly when the true quotient is out of range, and the quotient returned is the true one wrapped |
| Int256.SaturatingDivRemEuclid | ethnum-patched/src/int.rs:451-456 | the true quotient clamped to the type, with the true remainder |
| NativeMul.UMulDDi3 | ethnum-patched/src/intrinsics/native/mul.rs:14-32 | two 128-bit words multiply to exactly the two words returned; no running value leaves 128 bits |
| NativeMul.UMulC | ethnum-patched/src/intrinsics/native/mul.rs:55-68 | the product modulo 2^256, flagged exactly when the true product is 2^256 or more |
| NativeMul.Mul3 | ethnum-patched/src/intrinsics/native/mul.rs:44-52 | the product modulo 2^256 |
| NativeMul.FlagsExact | ethnum-patched/src/intrinsics/native/mul.rs:55-68 | the five carry flags together say exactly whether anything was lost |
| NativeMul.IMulC | ethnum-patched/src/intrinsics/native/mul.rs:71-91 | the signed product wrapped to 256 bits, flagged exactly when the true product is out of range |
| NativeDivMod.LeadingZeros | ethnum-patched/src/intrinsics/native/divmod.rs:43-55 | the shift that brings the top bit of a nonzero word into place without losing any |
| NativeDivMod.Correction | ethnum-patched/src/intrinsics/native/divmod.rs:69-78 | when the test asks for a correction, the corrected guess is still at least the true digit; in base 2^64 and base 2^128 alike |
| NativeDivMod.EstimateIsDigit | ethnum-patched/src/intrinsics/native/divmod.rs:69-78 | when the correcting loop stops, for either reason, the guess is the true quotient digit |
| NativeDivMod.DigitEstimate | ethnum-patched/src/intrinsics/native/divmod.rs:69-78 | the corrected digit leaves a remainder below the divisor; the loop runs at most twice and the products it compares fit 128 bits |
| NativeDivMod.QuotientDigit | ethnum-patched/src/intrinsics/native/divmod.rs:69-95 | one digit and the next partial remainder, which survives being computed with wrapping operations |
| NativeDivMod.UDiv256By128To128 | ethnum-patched/src/intrinsics/native/divmod.rs:16-101 | quotient and remainder of two words by one, for every divisor above the high word |
| NativeDivMod.AddCarry | ethnum-patched/src/intrinsics/native/divmod.rs:279-284 | sum and carry together are the exact sum |
| NativeDivMod.SubCarry | ethnum-patched/src/intrinsics/native/divmod.rs:287-292 | difference and borrow together are the exact difference |
| NativeDivMod.FullMul | ethnum-patched/src/intrinsics/native/divmod.rs:240-258 | both words of the exact product |
| NativeDivMod.FullMul256By128 | ethnum-patched/src/intrinsics/native/divmod.rs:261-276 | the three words of the exact product |
| NativeDivMod.WordEstimate | ethnum-patched/src/intrinsics/native/divmod.rs:325-363 | the quotient word guessed from the top words is the true one or one too large; it is the true one when the top word is below the divisor top word |
| NativeDivMod.KnuthStep | ethnum-patched/src/intrinsics/native/divmod.rs:320-385 | after subtracting and, if needed, adding back, quotient and remainder are exact: steps D3 to D6 for any normalised divisor |
| NativeDivMod.FullShl | ethnum-patched/src/intrinsics/native/divmod.rs:204-214 | the shifted dividend in three words, nothing lost; its top word is below every normalised divisor word, so the all-ones guess is never made in a division |
| NativeDivMod.FullShr | ethnum-patched/src/intrinsics/native/divmod.rs:217-230 | the remainder shifted back, bits crossing the words included |
| NativeDivMod.DivModKnuth | ethnum-patched/src/intrinsics/native/divmod.rs:192-391 | exact quotient and remainder for dividends and divisors of two words |
| NativeDivMod.UDivMod4 | ethnum-patched/src/intrinsics/native/divmod.rs:104-186 | for any two 256-bit numbers the quotient and the remainder, and a panic exactly for a zero divisor, whichever of the four paths is taken |
| NativeDivMod.IDivMod4 | ethnum-patched/src/intrinsics/native/divmod.rs:423-449 | signed division truncates toward zero and the remainder takes the sign of the dividend; only MIN / -1 wraps |
| VotingDelegation.EveryRunIsGood | src/voting_delegation.rs:176-587 | after any sequence of calls from the empty state with the default rate: direct weight plus own delegated amount is the stake, a delegating staker has no direct weight, and the total of each delegate is the sum of the delegations naming it |
| VotingDelegation.VotingPowerIsConserved | src/voting_delegation.rs:176-587 | in every reachable state all direct weights and all delegated totals together are exactly all stakes |
| VotingDelegation.DelegationChainRestoresWeight | src/voting_delegation.rs:485-587 | however a staker delegates, re-delegates and undelegates, at any rate and with other calls in between, its direct weight is back once it delegates to nobody |
| VotingDelegation.UndelegateNeverOverflows | src/voting_delegation.rs:540-587 | in a consistent state undelegating succeeds exactly when there is a delegation, restores exactly the whole weight, and reports the power left to the former delegate |
| VotingDelegation.StakeKeepsConsistent | src/voting_delegation.rs:176-258 | staking keeps the maps consistent at every rate and threshold, with or without an active delegation |
| VotingDelegation.DelegateKeepsConsistent | src/voting_delegation.rs:485-532 | so do delegating and re-delegating |
| VotingDelegation.UnstakeKeepsConsistentIff | src/voting_delegation.rs:265-347 | unstaking keeps them consistent if and only if the weight removed is within the delegated amount or the staker is the only source of power of its delegate |
| VotingDelegation.UnstakeAfterRateChangeLosesPower | src/voting_delegation.rs:265-347 | two stakers stake and delegate to one delegate, the rate is doubled, the first unstakes: the power the second delegated is erased |
| VotingDelegation.TotalsSumToAmounts | src/voting_delegation.rs:74-96 | if each total is the sum for its delegate, the totals together are all delegated amounts, each counted once |
| VotingDelegation.VotingContract.StakeGovernance | src/voting_delegation.rs:176-258 | in a consistent ledger succeeds exactly for a positive amount when the stake, the scaled amount and the power it is added to fit 128 bits; credits exactly the staker with the amount and the weight derived, which goes where the weight of the staker is; keeps the books, and an error changes nothing |
| VotingDelegation.VotingContract.UnstakeGovernance | src/voting_delegation.rs:265-347 | succeeds exactly for a positive amount within the stake whose scaled value fits; at any rate takes the amount from the stake and the weight, as far as there is any, from the staker and its delegate, and from nobody else; keeps the books exactly under the stated condition, always at the default rate; an error changes nothing |
| VotingDelegation.VotingContract.DelegateTo | src/voting_delegation.rs:485-532 | in a consistent ledger succeeds exactly when the delegate is somebody else, the staker delegates already or has direct weight, and what the others delegate there leaves room for its whole weight; the whole weight is then with the delegate, no other delegation changes, the books are kept, and an error changes nothing |
| VotingDelegation.VotingContract.UndelegateWeight | src/voting_delegation.rs:540-587 | keeps the books and succeeds exactly for a delegating staker, who has its whole weight back; the event reports it and the power left to the former delegate |
| VotingDelegation.DelegateOutcome | src/voting_delegation.rs:485-532 | the exact condition under which delegating and re-delegating succeed in a consistent ledger, and the delegation it leaves |
| VotingDelegation.UnstakeTakesWeight | src/voting_delegation.rs:265-347 | at any rate, what unstaking takes from the staker, its delegation and its delegate; entries of nothing are removed |
| RateLimit.AcceptedIffRoomInWindow | src/bridge/rate_limit.rs:77-118 | in every chronological run after time 0 a mint is accepted exactly when its amount and the cap are positive and the sum of everything accepted in the trailing 86400 seconds, taken from the full history, plus the amount is within the cap |
| RateLimit.RefusalMeaning | src/bridge/rate_limit.rs:77-118 | which error refuses a mint: the amount, the cap, 127 bits or the room left by the last day, in this order |
| RateLimit.AnyDayWithinCap | src/bridge/rate_limit.rs:77-118 | over every such run the amounts accepted in any 86400 consecutive seconds sum to at most the largest cap in force |
| RateLimit.RollingTotalExactIff | src/bridge/rate_limit.rs:77-118 | the rolling total is the true sum of the trailing day if and only if the first day is over or nothing was recorded at time 0 |
| RateLimit.CapNotEnforcedAtTimeZero | src/bridge/rate_limit.rs:77-118 | at ledger time 0 two mints of the whole cap are both accepted |
| RateLimit.LiveTwice | src/bridge/rate_limit.rs:77-118 | what an earlier call pruned a later one would prune as well, the reason the pruned log can stand for the history |
| RateLimit.MintLimiter.EnforceAndRecord | src/bridge/rate_limit.rs:77-118 | the stored log and the result are those of the specification, and the log keeps agreeing with the history for all later times |
| RateLimit.MintLimiter.SetLimit | src/bridge/rate_limit.rs:51-72 | from then on the cap set, and no fallback, decides: in every run away from time 0 exactly the positive amounts are accepted for which the last 24 hours leave room under it; an error changes nothing |
| RateLimit.MintLimiter.Prune | src/bridge/rate_limit.rs:93-103 | the loop keeps exactly the live entries and fails exactly when their sum leaves 127 bits |
| TwapWindow.EveryRunRetains | src/twap_window.rs:196-228 | over every run of samples in time order the stored log is the newest part of the history: within the wide window of the last sample, at most the configured number |
| TwapWindow.RetainedIsLongestSuffix | src/twap_window.rs:196-228 | that part is the longest suffix of the history with both properties |
| TwapWindow.QueriesAgree | src/twap_window.rs:235-269 | a later query over any window up to the wide one selects the same samples from the stored log as from the last entries of the full history |
| TwapWindow.GateAgreesWithFullHistory | src/twap_window.rs:320-359 | the minimum-sample gate answers as if the whole history had been kept; the count is that of the history up to the retention cap |
| TwapWindow.InspectionAgrees | src/twap_window.rs:320-346 | volatility, chosen window, count and average are those of the last entries of the full history |
| TwapWindow.AverageWithinPrices | src/twap_window.rs:254-269 | the average lies between any bounds on the prices whose multiples leave room for the sum, and is 0 without samples |
| TwapWindow.VolatilityExactIff | src/twap_window.rs:280-317 | when every scaled price move fits 128 bits, the report is the documented mean over unbounded integers if and only if that is below 2^64; when some move does not fit, the report is a constant fixed by the number of returns, and is the mean only where the mean is that constant |
| TwapWindow.TicksMeaning | src/twap_window.rs:280-317 | the running total is the exact sum of the returns cut off at 2^128 - 1, and one move that does not fit is enough to cut it off |
| TwapWindow.LargePricesReportedAsWild | src/twap_window.rs:280-317 | a price going from 2^115 to 2^126, a return of 20470000, is reported as volatility 2^64 - 1 |
| TwapWindow.HugeMoveReportedAsCalm | src/twap_window.rs:280-317 | a price going from 1 to 1 + 2^60 is reported as volatility 0 |
| TwapWindow.CountInWindow | src/twap_window.rs:240-249 | the number of samples within the window |
| TwapWindow.WindowedTwap | src/twap_window.rs:254-269 | the truncated average of the saturating sum of the samples within the window |
| TwapWindow.RealizedVolatilityBps | src/twap_window.rs:280-317 | the mean absolute return of consecutive samples within the window, skipping returns from prices that are not positive, cast to 64 bits |
| TwapWindow.Rebuild | src/twap_window.rs:200-227 | the two loops drop what is out of the window and then the oldest beyond the cap |
| TwapWindow.TwapOracle.RecordObservation | src/twap_window.rs:196-228 | the log stays the retained part of the history after every sample |
| TwapWindow.TwapOracle.InspectWindow | src/twap_window.rs:320-359 | a mean return of the wide window that is reported exactly decides the window: normal below the threshold, else wide; count and average are those of exactly the newest samples of that window, at most the cap, the average the plain sum over the count rounded toward zero where the sum fits; pricing is allowed exactly when the full history has enough samples |
| TwapWindow.InspectionMeaning | src/twap_window.rs:320-359 | the same of the specification, without the code's own selections and sums |
| TwapWindow.AverageMeaning | src/twap_window.rs:255-270 | no samples give 0; otherwise the average is the plain sum over the count rounded toward zero, where no partial sum leaves 127 bits |
| Slashing.CountIsFullHistoryCount | src/slashing.rs:66-125 | over every run of faults in ledger order the stored log is the faults of the full history in the window of the last one, so the count returned is that of the full history |
| Slashing.CountOfRecentFaults | src/slashing.rs:66-78 | the count is the number of recorded faults at most 100 ledgers old |
| Slashing.PenaltyMultiplier | src/slashing.rs:43-51 | two to the number of earlier faults in the window, at most 2^10 |
| Slashing.PenaltyEffect | src/slashing.rs:136-196 | exactly min(base * 2^min(k-1,10), stake) leaves the stake of the validator, the sum of the registry and, as far as there is any, the stake on the feed; nobody else is charged, entries of nothing are removed, a total that was the sum of the registry still is; the multiplier, deduction and remaining stake reported are those |
| Slashing.PenaltyOutcome | src/slashing.rs:136-160 | a penalty succeeds exactly for a positive bond whose multiple fits 64 bits, on a validator with a stake, and which error is returned otherwise |
| Slashing.LossClosed | src/slashing.rs:43-51 | n charged faults of one base bond in one window of 100 ledgers cost base * (2^n - 1) up to the eleventh, and 1024 * base each after that |
| Slashing.SustainedFaultsDrainStake | src/lib.rs:1965-2009 | over every run of reported dropouts and penalties in ledger order, each with its own base bond, the stake has lost exactly the sum of base * 2^min(k-1,10) over the penalties, k the number of faults, charged or not, of the 100 ledgers up to that moment, down to nothing; the total still matches the registry |
| Slashing.PenaltyContract.Prune | src/slashing.rs:81-93 | keeps exactly the faults in the window |
| Slashing.PenaltyContract.CountFaults | src/slashing.rs:66-78 | counts exactly the faults in the window |
| Slashing.PenaltyContract.ApplyEscrowPenalty | src/slashing.rs:136-196 | succeeds exactly for a positive bond whose multiple fits, on a validator with a stake; charges exactly the capped amount to exactly the validator and its stake on the feed, and keeps the total equal to the sum of the registry; an error changes nothing |
| Slashing.PenaltyContract.ReportIngestionDropout | src/lib.rs:1965-1975 | records the fault without a charge and returns the full-history count |
| Slashing.PenaltyContract.ApplyIngestionPenalty | src/lib.rs:1986-2009 | records the fault, penalises with the full-history count, and keeps the log and the total in step; an error rolls the fault back |
| OracleAttestation.RunKeepsSound | src/oracle_attestation.rs:71-242 | over every run: at most three distinct oracles per asset, every stored attestation names the amount and asset of its escrow, the terms of an escrow never change, a settled or refunded escrow never changes again, no attestation is altered or removed |
| OracleAttestation.EveryRunIsSound | src/oracle_attestation.rs:71-242 | this holds of every state reached from the first call on |
| OracleAttestation.ConsensusMeaning | src/oracle_attestation.rs:245-330 | consensus holds exactly when two distinct registered oracles have fresh attestations for one transaction id, and the amount agreed is that of the escrow |
| OracleAttestation.ConsensusMeansFields | src/oracle_attestation.rs:245-330 | the whole result from the stored fields: fewer than two oracles or a rejected signature are the errors; it counts exactly the registered oracles with a key whose attestation is at most 300 seconds old, and there is consensus on x exactly when two of them name x; the amount is that of the escrow |
| OracleAttestation.ConflictRefundDueIff | src/oracle_attestation.rs:358-403 | the refund on conflict from the stored fields: only for the sender of a locked or dispatched escrow, without consensus, and 24 hours after the lock if exactly one attestation counts; which error names a wrong id, caller or state |
| OracleAttestation.VerifyErrors | src/oracle_attestation.rs:334-355 | a conflict is reported only with two or more recent attestations, insufficient ones only with fewer |
| OracleAttestation.AtMostOneTxEverAgreed | src/oracle_attestation.rs:245-330 | two consensus results in one run name the same transaction whenever at most three oracles were registered at the two moments together |
| OracleAttestation.AtMostOneTxWithFixedRegistry | src/oracle_attestation.rs:245-330 | with an unchanged registry at most one transaction id is ever agreed for an escrow |
| OracleReplacement.TwoAgreementsPossibleIff | src/oracle_attestation.rs:245-330 | under every signature scheme and for any two registries of two or three distinct oracles, some run from the first call on agrees on two transactions for one escrow, first under one registry and then under the other, if and only if the two hold more than three oracles between them and two transactions of one amount can be signed at all |
| OracleRuns.TwoVoicesDecide | src/oracle_attestation.rs:245-330 | two fresh voices for one transaction decide, whatever a third oracle says, when no stored signature fails |
| OracleAttestation.AgreedUnique | src/oracle_attestation.rs:290-306 | among at most three votes at most one value is named twice, so the order in which the count maps are walked does not matter |
| OracleLiveness.ConsensusStillPossibleIff | src/oracle_attestation.rs:245-330 | under every signature scheme, some run that leaves the registry alone brings consensus on an unresolved escrow at some later time if and only if two registered oracles count for one transaction now, or have not attested and can still sign for it |
| OracleLiveness.ConsensusLostForGood | src/oracle_attestation.rs:245-403 | otherwise no such run ever reaches consensus, and whenever no stored signature fails the sender of an unresolved escrow is refunded, at once unless a single voice counts, and then after the deadline; no voice counts once all are stale |
| OracleLiveness.AgreementLapses | src/oracle_attestation.rs:245-403 | for every registry of two or three oracles a run from the first call on that agrees at one moment; five minutes later consensus is lost for good, even if a third oracle is silent, and the sender may refund at once |
| OracleLiveness.EveryRunIsSigned | src/oracle_attestation.rs:169-242 | in every state reached from the first call on, every stored attestation verifies under some key |
| OracleLiveness.ConflictRefundIff | src/oracle_attestation.rs:358-403 | the sender of an unresolved escrow is refunded on conflict exactly when at least two oracles are registered, no stored signature fails, no two count for one transaction, and not exactly one counts unless the deadline of 64 bits has passed |
| OracleLiveness.SettleAndRefundOverlapIff | src/lib.rs:2706-2719 | the exact moments at which the anchor may settle and the sender may refund on conflict: settling is still possible, nothing is agreed, and not exactly one oracle counts, except 24 hours after a lock at time 0 |
| OracleLiveness.DispatchedYetRefundable | src/oracle_attestation.rs:358-403 | a run to a dispatched escrow which, before any attestation, its anchor may settle and its sender may refund |
| OracleAttestation.SettleOrRefund | src/lib.rs:2706-2756 | at every moment a locked or dispatched escrow can be settled by its anchor or reclaimed after its deadline, never both and never neither; the deadline is 24 hours after a lock at a nonzero time (the refund on conflict is in OracleLiveness.SettleAndRefundOverlapIff) |
| OracleAttestation.SettledWithoutConsensus | src/lib.rs:2706-2719 | an escrow can be opened, locked and settled with no attestation stored |
| OracleAttestation.EscrowContract.OpenFiatEscrow | src/lib.rs:2652-2674 | succeeds exactly for a positive amount below the last id; the new id was never used and holds a pending escrow with these terms and a timeout of 24 hours, no other escrow changes, and the sender can lock it at any time; an error changes nothing |
| OracleAttestation.EscrowContract.LockFiatEscrow | src/lib.rs:2678-2688 | succeeds exactly for the sender of a pending escrow; from then on it can be settled until 24 hours after the lock and reclaimed by the refund after the deadline from then on, never both and never neither; an error changes nothing |
| OracleAttestation.EscrowContract.DispatchFiatPayout | src/lib.rs:2692-2702 | succeeds exactly for the anchor of a locked escrow before the deadline, which dispatching does not move; an error changes nothing |
| OracleAttestation.EscrowContract.SettleFiatEscrow | src/lib.rs:2706-2719 | succeeds exactly for the escrow's own anchor, while it is locked or dispatched and before the deadline; the refund after the deadline is then impossible, and no run of any calls changes the escrow afterwards; an error changes nothing |
| OracleAttestation.EscrowContract.RefundFiatEscrow | src/lib.rs:2723-2737 | succeeds exactly for a locked or dispatched escrow 24 hours after a lock at a nonzero time; settling is then no longer possible, and no run of any calls changes the escrow afterwards; an error changes nothing |
| OracleAttestation.EscrowContract.RegisterOracleFor | src/oracle_attestation.rs:71-111 | succeeds exactly for the admin, an oracle not yet registered and a registry of fewer than three; removing the oracle again gives back every registry as it was |
| OracleAttestation.EscrowContract.RemoveOracleFrom | src/oracle_attestation.rs:421-464 | succeeds exactly for the admin and a registered oracle; the loop removes exactly that oracle from exactly that registry, the others keep their order |
| OracleAttestation.EscrowContract.SubmitAttestationOf | src/oracle_attestation.rs:169-242 | succeeds exactly for a registered oracle with a key and a valid signature, on a locked or dispatched escrow of that asset and amount it has not attested; the voters for the transaction grow by exactly this oracle, and no later attestation of it for the escrow is accepted; the first thing wrong is the error |
| OracleAttestation.EscrowContract.Tally | src/oracle_attestation.rs:252-277 | the collecting loop counts, per transaction id and per amount, exactly the fresh attestations of the registered oracles, and aborts exactly when some stored signature does not verify |
| OracleAttestation.FirstWithTwo | src/oracle_attestation.rs:290-306 | the search of a count map, in any order, finds the value named twice if there is one |
| OracleAttestation.EscrowContract.CheckConsensus | src/oracle_attestation.rs:245-330 | the counting loops give exactly the result determined by the stored fields: who counts, whether two agree, on which transaction and amount |
| OracleAttestation.EscrowContract.VerifyConsensusBeforeSettle | src/oracle_attestation.rs:334-355 | passes exactly when the escrow exists, no stored signature fails and some transaction has two fresh voices of registered oracles; it then returns such a transaction and the amount of the escrow |
| OracleAttestation.FinalForever | src/lib.rs:2706-2737 | no run of any calls changes a settled or refunded escrow |
| OracleAttestation.EscrowContract.RefundEscrowOnConflict | src/oracle_attestation.rs:358-403 | the sender refunds without consensus: at once with no or with conflicting attestations, after the deadline with a single one, exactly when the stored fields say so; the refund is final |
| EscrowLaws.StateHasAuthor | src/lib.rs:2678-2737 | over every run, an escrow that changed state was brought to it by a call of the party entitled to it: locked by its sender, dispatched or settled by its own anchor before the deadline, refunded after the deadline or by its sender on conflict |
| EscrowLaws.SettledByItsAnchor | src/lib.rs:2706-2719 | over every run, an escrow that became settled was settled by a call of its own anchor, before its deadline, while locked or dispatched |
| EscrowLaws.OnlyEntitledChange | src/lib.rs:2678-2737 | one call changes an existing escrow only in these ways, and nothing but its state and lock time |
| EscrowLaws.MembershipHasAuthor | src/oracle_attestation.rs:71-111 | over every run, an oracle that came to be registered or removed was registered or removed by the admin, who never changes |
| EscrowLaws.AttestationHasAuthor | src/oracle_attestation.rs:169-242 | over every run, a stored attestation was submitted by its own oracle, then registered, for an open escrow's own asset and amount, with a signature valid under its key, at the time it carries |
| Governance.AfterRotation | src/governance.rs:439-489 | right after a successful rotation a list passes exactly when it holds at least t distinct new signers |
| Governance.RotateOutcome | src/governance.rs:439-489 | a rotation succeeds exactly when the present list passes and the threshold is between 1 and the number of distinct new signers; the first of them is the new admin, each weighs 1, the threshold is the count and the weight required |
| Governance.CollectedWeightMeaning | src/governance.rs:277-302 | the collected weight is the sum of the registered weights of the distinct signers on the list, the admin counting for 1 if it has none |
| Governance.VerdictMeaning | src/governance.rs:261-310 | a list passes exactly when it has enough distinct signers and enough of that weight, within 32 bits; which error is returned otherwise |
| Governance.RotationNeverLocksOut | src/governance.rs:439-489 | over every chain of rotation attempts, from any state: some list passes after it if and only if some list passed before it; a rotated state stays rotated, and in it some list passes |
| Governance.RotatedVerdict | src/governance.rs:261-310 | in a rotated state the verdict counts distinct signers against the threshold, and everybody together passes |
| Governance.MoreSignersStillPass | src/governance.rs:261-310 | adding addresses to a passing list keeps it passing if and only if the weights still fit 32 bits |
| Governance.PassingListExistsIff | src/governance.rs:261-310 | enough signers who weigh enough are always needed for some list to pass, and suffice when all weights together fit 32 bits |
| Governance.LightQuorumPassesIff | src/governance.rs:261-310 | whatever all weights sum to: when no single weight can jump from below the required weight past 32 bits, some list passes if and only if everybody together weighs enough and some group of quorum size weighs at most 32 bits |
| Governance.UnanimousQuorumPassesIff | src/governance.rs:261-310 | when everybody is needed, some list passes if and only if all weights together reach the required weight without leaving 32 bits |
| Governance.AdminAloneNeverPasses | src/governance.rs:261-310 | with nobody registered beside the admin and a threshold of two or more, no list passes |
| Governance.DroppedWeightLocksOutIff | src/governance.rs:245-257 | after the weight of one other signer of a rotated contract is removed, some list still passes if and only if the quorum was not unanimous |
| Governance.GovernanceContract.VerifyUpgradeQuorum | src/governance.rs:261-310 | the loop over a list with repeats gives the verdict on its set of addresses: order and repeats do not matter |
| Governance.GovernanceContract.CalculateCollectedWeight | src/governance.rs:313-348 | the total weight of the distinct authorised addresses, or an overflow exactly when it exceeds 32 bits |
| Governance.GovernanceContract.Collect | src/governance.rs:277-302 | distinct authorised signers and their checked weight |
| Governance.GovernanceContract.RotateAdminKeys | src/governance.rs:439-489 | the new admin, signers, unit weights and thresholds, or an error and no change |
| Governance.GovernanceContract.SetSignerWeight | src/governance.rs:245-257 | exactly that weight changes, 0 removes it; removing the weight of another signer of a rotated contract leaves some passing list if and only if the quorum was not unanimous |
| Fees.InteriorScalingIsExact | src/fees.rs:294-379 | whenever they succeed, the three scaled computations are the plain floor of the exact quotient |
| Fees.InteriorScalingSucceedsIff | src/fees.rs:294-379 | they succeed exactly when no total is 0, the numerator times 10^14 fits 128 bits and the quotient 64; which error is returned otherwise |
| Fees.SinglePassAgainstChain | src/fees.rs:351-379 | where all computations succeed, the multi-hop share is the corridor share of the corridor share, or one unit more, and exactly when what the two divisions leave over makes up a unit; the relayer usage is part of the total |
| Fees.DustBound | src/fees.rs:422-477 | the floors of all shares leave less than one unit per recipient |
| Fees.PortionsAccount | src/fees.rs:422-477 | floors times the whole plus remainders account for the whole amount |
| Fees.SplitWithDust | src/fees.rs:447-476 | the loop hands out the whole amount: every part but the last is the floor of its share, the last adds less than one unit per recipient |
| Fees.FlashLoanFeeGrowth.SettleFlashLoanFee | src/fees.rs:422-477 | success exactly when there are shares and the checked products fit, and then a fair split; the inner subtraction and the final equality test never fail, and the growth counter advances even when the split then overflows |
| Fees.GrowthAdvancesThenSplitOverflows | src/fees.rs:422-477 | a fee and two shares for which the growth counter fits but the first product does not |
| Fees.DistributeVariableFeePool | src/fees.rs:932-985 | no weights, no parts; otherwise success exactly when the scaled products and the parts fit, and then a fair split of the pool at the 10^7 scale |
| Fees.DistributionFitsMeaning | src/fees.rs:932-985 | the success condition spelled out: the pool times 10^14 and its products with the weights fit 127 bits, every part and the rest fit 64 |
| Consensus.CompactDuplicatePriceRows | src/consensus.rs:98-137 | distinct values in order of first occurrence, each with all its weight, and unchanged totals; an error exactly when the weights of one value exceed 64 bits |
| Consensus.MergeRow | src/consensus.rs:98-137 | merging a duplicate adds its weight to the row of its value and leaves the values and all other weights alone |
| Consensus.ComputeWeightedSum | src/consensus.rs:139-162 | success exactly when the plain sums over the submitted rows fit 64 bits, with those sums |
| Consensus.ComputeWeightedAverage | src/consensus.rs:169-180 | the floor of the quotient of the plain sums, within any bounds on the positively weighted values; 0 without weight |
| Consensus.FirstOccurrencesDistinct | src/consensus.rs:98-137 | the compacted values are distinct and are exactly the submitted ones |
| Consensus.BinarySearchValidator | src/consensus.rs:9-24 | finds an id exactly when it is present, and otherwise a place where inserting it keeps the order |
| Consensus.SequenceTracker.VerifyAndUpdate | src/consensus.rs:307-332 | over every run a number is accepted exactly when it is above all numbers ever accepted; the last is active and the one before it archived |

## Left out

- Host services: authentication, events, storage lifetimes, token transfers and contract deployment.
- The error for a contract that is not initialised, and key registration or proposals beyond what is listed above.
- One asset, one validator and feed pair, one contract instance at a time: keys of other instances are not modelled, since no modelled call reads them.
- The sequence in which a host map is walked: `FirstWithTwo` allows any order.
- Floating point: the decay of the dynamic fee, the volume ratio, and float conversions of the integer types.
- Width, sign and padding flags of the formatter: the printed text is that of plain `{}`, and of the radix forms with and without the prefix.
- Radix printing of negative signed numbers, and the exponent forms, which go through floating point.
- `sync_voting_weight`: it compares a staker with the whole total of its delegate, so the per-staker invariant is not meant to hold for it.
- Changing the configuration of the voting or TWAP module in the middle of a run; single steps are proved for every voting configuration.
- Deviation and tier functions of slashing, spread, sample variance and the moving average of the math module: expressions without state.
- `set_flash_loan_fee_tiers`, `quote_flash_loan_fee`, corridor and reward pool recorders: single reads and writes.
- `governance_upgrade.rs` repeats the quorum; staging, recovery, timelock and nonce modules are thin wrappers.
- The bitwise `or` of two shifted words in the division is modelled as a sum; the two operands never have a bit in common, which the range proofs show.
- The word-level subtraction, addition and shifts of the integer crate outside the division are given their mathematical meaning.
- Governance.PassingListExistsIff: when all weights together exceed 32 bits, the quorum is not unanimous and some single weight is within the required weight of 32 bits (`UnanimousQuorumPassesIff` and `LightQuorumPassesIff` settle the rest), only the necessary condition is stated; whether some list then passes is a subset-sum question about the weights.
- Parse.ParseOkIff: for a prefix that itself starts with a sign the parser takes the sign first; no caller passes one, and the equivalence is stated for the others.
- RateLimit.AnyDayWithinCap: runs start after ledger time 0; at time 0 the cap is not enforced (`CapNotEnforcedAtTimeZero`).
