/** Machine integer ranges and the outcome types shared by every component.
    Arithmetic is on unbounded `int`; the subset types below state the ranges,
    and the checked operations return `None` where Rust's `checked_*` do. */
module Machine {

  const TWO64: int := 0x1_0000_0000_0000_0000
  const TWO128: int := 0x1_0000_0000_0000_0000_0000_0000_0000_0000
  const TWO127: int := 0x8000_0000_0000_0000_0000_0000_0000_0000
  const TWO256: int := 0x1_0000_0000_0000_0000_0000_0000_0000_0000_0000_0000_0000_0000_0000_0000_0000_0000
  const TWO255: int := 0x8000_0000_0000_0000_0000_0000_0000_0000_0000_0000_0000_0000_0000_0000_0000_0000

  const U32_MAX: int := 0xFFFF_FFFF
  const U64_MAX: int := 0xFFFF_FFFF_FFFF_FFFF
  const U128_MAX: int := 0xFFFF_FFFF_FFFF_FFFF_FFFF_FFFF_FFFF_FFFF
  const I128_MAX: int := 0x7FFF_FFFF_FFFF_FFFF_FFFF_FFFF_FFFF_FFFF
  const I128_MIN: int := -0x8000_0000_0000_0000_0000_0000_0000_0000

  type byte = x: int | 0 <= x < 256
  type u32 = x: int | 0 <= x <= 0xFFFF_FFFF
  type u64 = x: int | 0 <= x <= 0xFFFF_FFFF_FFFF_FFFF
  type u128 = x: int | 0 <= x <= 0xFFFF_FFFF_FFFF_FFFF_FFFF_FFFF_FFFF_FFFF
  type i128 = x: int | -0x8000_0000_0000_0000_0000_0000_0000_0000 <= x <= 0x7FFF_FFFF_FFFF_FFFF_FFFF_FFFF_FFFF_FFFF
  type u256 = x: int | 0 <= x < 0x1_0000_0000_0000_0000_0000_0000_0000_0000_0000_0000_0000_0000_0000_0000_0000_0000
  type i256 = x: int |
    -0x8000_0000_0000_0000_0000_0000_0000_0000_0000_0000_0000_0000_0000_0000_0000_0000 <= x
    < 0x8000_0000_0000_0000_0000_0000_0000_0000_0000_0000_0000_0000_0000_0000_0000_0000

  datatype Address = Address(id: nat)

  datatype Option<+T> = None | Some(value: T) {
    function GetOr(default: T): T { if Some? then value else default }
  }

  datatype Result<+T, +E> = Ok(value: T) | Err(error: E) {
    predicate IsFailure() { Err? }
    function PropagateFailure<U>(): Result<U, E>
      requires Err?
    { Err(error) }
    function Extract(): T
      requires Ok?
    { value }
  }

  /** The error codes the modelled entry points can return. */
  datatype ContractError =
    | MathOverflow | Overflow | DivisionByZero | InvalidInput | InvalidArgument
    | FlashLoanArbitrageDetected
    | VaultZeroAmount | VaultInsufficientBalance | InvalidDelegate | NoVotingWeight | NoActiveDelegation
    | BridgeInvalidAmount | InvalidBridgeRateLimit | BridgeRateLimitExceeded
    | InsufficientObservations
    | InvalidStakeAmount | InsufficientBondForPenalty
    | NotAdmin | AlreadyRegistered | CapacityExceeded | NotRegistered | Unauthorized
    | OracleRegistryNotConfigured | OracleNotAuthorized | DuplicateOracleAttestation
    | OracleAttestationConflict | InsufficientOracleAttestations
    | InvalidEscrowState | InvalidAsset | AmountTooLow | DeadlineReached | DeadlineNotReached
    | HostTrap
    | ThresholdNotReached | InvalidThreshold

  predicate FitsI128(x: int) { I128_MIN <= x <= I128_MAX }

  predicate FitsU32(x: int) { 0 <= x <= U32_MAX }

  predicate FitsU64(x: int) { 0 <= x <= U64_MAX }

  predicate FitsU128(x: int) { 0 <= x <= U128_MAX }

  /** Rust's integer division: the quotient is truncated toward zero, where
      Dafny's rounds so that the remainder is never negative. */
  function TruncDiv(x: int, y: int): int
    requires y != 0
  {
    if x >= 0 then x / y else -((-x) / y)
  }

  function Min(x: int, y: int): int { if x <= y then x else y }

  function Max(x: int, y: int): int { if x >= y then x else y }

  function SaturatingSub(x: nat, y: nat): nat { if x >= y then x - y else 0 }
}
