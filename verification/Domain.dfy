/** Vocabulary shared by every component: optional values, machine integers with
    checked arithmetic, and the domain newtypes. */
module Domain {

  datatype Option<+T> = None | Some(value: T)

  const TWO_TO_THE_32: int := 0x1_0000_0000
  const TWO_TO_THE_64: int := 0x1_0000_0000_0000_0000
  const TWO_TO_THE_127: int := 0x8000_0000_0000_0000_0000_0000_0000_0000
  const TWO_TO_THE_128: int := 0x1_0000_0000_0000_0000_0000_0000_0000_0000
  const I128_MIN: int := -TWO_TO_THE_127

  type u32 = x: int | 0 <= x < TWO_TO_THE_32
  type u64 = x: int | 0 <= x < TWO_TO_THE_64
  type u128 = x: int | 0 <= x < TWO_TO_THE_128
  type i128 = x: int | -TWO_TO_THE_127 <= x < TWO_TO_THE_127

  /** `checked_mul`: None stands for an overflow of u128. */
  function CheckedMul(a: u128, b: u128): Option<u128> {
    if a * b < TWO_TO_THE_128 then (ProductNonNegative(a, b); Some(a * b)) else None
  }

  /** `checked_add`: None stands for an overflow of u128. */
  function CheckedAdd(a: u128, b: u128): Option<u128> {
    if a + b < TWO_TO_THE_128 then Some(a + b) else None
  }

  /** `i128::try_from` applied to an unsigned value. */
  function TryIntoI128(x: u128): Option<i128> {
    if x < TWO_TO_THE_127 then Some(x) else None
  }

  /** The wrapping cast `x as i128` of an unsigned value: congruent modulo 2^128. */
  function AsI128(x: u128): (i: i128)
    ensures i == x || i == x - TWO_TO_THE_128
  {
    if x < TWO_TO_THE_127 then x else x - TWO_TO_THE_128
  }

  /** `x.min(u64::MAX) as u64`: the largest u64 value that does not exceed `x`. */
  function SaturateU64(x: u128): (s: u64)
    ensures s <= x && (s < x ==> s + 1 == TWO_TO_THE_64)
  {
    if x < TWO_TO_THE_64 then x else TWO_TO_THE_64 - 1
  }

  /** Each width is twice the one below it. */
  lemma Widths()
    ensures TWO_TO_THE_32 == 65_536 * 65_536 && TWO_TO_THE_64 == TWO_TO_THE_32 * TWO_TO_THE_32
    ensures TWO_TO_THE_128 == TWO_TO_THE_64 * TWO_TO_THE_64 && TWO_TO_THE_128 == 2 * TWO_TO_THE_127
  {
  }

  lemma ProductNonNegative(a: int, b: int)
    requires 0 <= a && 0 <= b
    ensures 0 <= a * b
  {
  }

  datatype TokenId = TokenId(id: string)
  datatype PoolId = PoolId(id: string)

  const DENOMINATOR: u128 := 10_000

  /** Basis points; one hundredth of a percent each. */
  datatype Bps = Bps(points: u32) {
    /** What a fee leaves of DENOMINATOR, None above 100%. */
    function FeeComplement(): (left: Option<u128>)
      ensures left.Some? <==> points <= 10_000
      ensures left.Some? ==> left.value + points == 10_000
    {
      if points <= DENOMINATOR then Some(DENOMINATOR - points) else None
    }
  }
}
