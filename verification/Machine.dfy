/**
 Machine integers and the failure datatypes shared by every module.

 Rust's fixed-width integers are subset types of `nat`.  The workspace is built with
 overflow checks on (Cargo.toml:230-238), so an unchecked `+` that leaves its width is a
 panic: it appears here as a precondition, or as `None` where a theorem speaks of it.
 Saturating operations are written out below.
 */
module Machine {

  const U8_RANGE: nat := 0x100
  const U32_MAX: nat := 0xFFFF_FFFF
  const U64_MAX: nat := 0xFFFF_FFFF_FFFF_FFFF
  const U128_MAX: nat := 0xFFFF_FFFF_FFFF_FFFF_FFFF_FFFF_FFFF_FFFF
  const I64_RANGE: nat := 0x8000_0000_0000_0000

  type U8 = n: nat | n < U8_RANGE
  type U32 = n: nat | n <= U32_MAX
  type U64 = n: nat | n <= U64_MAX
  type U128 = n: nat | n <= U128_MAX

  datatype Option<+T> = None | Some(value: T)

  datatype Result<+T, +E> = Ok(value: T) | Err(error: E)

  function Min(a: nat, b: nat): nat {
    if a <= b then a else b
  }

  function Max(a: nat, b: nat): nat {
    if a <= b then b else a
  }

  function Clamp(n: nat, lo: nat, hi: nat): nat
    requires lo <= hi
  {
    if n < lo then lo else if n > hi then hi else n
  }

  function SatAdd(a: U64, b: U64): U64 {
    Min(a + b, U64_MAX)
  }

  function SatSub(a: U64, b: U64): U64 {
    if a <= b then 0 else a - b
  }

  function SatMul(a: U64, b: U64): U64 {
    Min(a * b, U64_MAX)
  }

  function AbsDiff(a: nat, b: nat): nat {
    if a <= b then b - a else a - b
  }
}
