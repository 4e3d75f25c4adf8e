/** Shared vocabulary: optional values, results and the fixed-width integers of the workspace. */
module Common {

  datatype Option<+T> = None | Some(value: T)

  datatype Result<+T, +E> = Ok(value: T) | Err(error: E)

  const U64_MAX: int := 0xFFFF_FFFF_FFFF_FFFF
  const U16_MAX: int := 0xFFFF

  type u64 = n: int | 0 <= n <= U64_MAX
  type u16 = n: int | 0 <= n <= U16_MAX
  type byte = n: int | 0 <= n < 256

  /** The value a `u64` holds after a saturating computation whose exact result is `n`. */
  function Clamp(n: nat): (r: u64)
    ensures r <= n && (n <= U64_MAX ==> r == n)
  {
    if n <= U64_MAX then n else U64_MAX
  }

  /** `u64::saturating_add`. */
  function SatAdd(a: u64, b: u64): u64 {
    Clamp(a + b)
  }

  /** `u64::saturating_sub`. */
  function SatSub(a: u64, b: u64): u64 {
    if b <= a then a - b else 0
  }

  /** `u64::saturating_mul`. */
  function SatMul(a: u64, b: u64): u64 {
    Clamp(a * b)
  }

  function Min(a: int, b: int): int {
    if a <= b then a else b
  }
}
