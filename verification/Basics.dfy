/** Shapes shared by every component. */
module Basics {

  datatype Option<+T> = None | Some(value: T)

  datatype Result<+T, +E> = Ok(value: T) | Err(error: E)

  const U64_MAX: nat := 0xffff_ffff_ffff_ffff

  type u64 = n: int | 0 <= n <= U64_MAX witness 0

  /** Counters stop at their largest value. */
  function SaturatingAdd(a: u64, b: nat): u64 { if a + b <= U64_MAX then a + b else U64_MAX }

  function SaturatingSub(a: nat, b: nat): nat {
    if b <= a then a - b else 0
  }

  function Min(a: nat, b: nat): nat { if a <= b then a else b }
}
