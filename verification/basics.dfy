/** Small shared vocabulary: optional values, results, and the fixed-width
    integer types of the capture library together with the Rust `as` casts
    between them, whose wrap-around is written out explicitly. */
module Basics {

  datatype Option<T> = None | Some(value: T) {
    /** `Option::unwrap_or` */
    function GetOr(default: T): T {
      match this
      case Some(v) => v
      case None => default
    }
  }

  datatype Result<T, E> = Success(value: T) | Failure(error: E)

  const TWO_32: int := 0x1_0000_0000
  const TWO_64: int := 0x1_0000_0000_0000_0000

  const I32_MIN: int := -0x8000_0000
  const I32_MAX: int := 0x7fff_ffff

  type i32 = x: int | -0x8000_0000 <= x <= 0x7fff_ffff
  type u32 = x: int | 0 <= x < 0x1_0000_0000
  /** Pointer-sized unsigned integer of a 64-bit Windows process. */
  type usize = x: int | 0 <= x < 0x1_0000_0000_0000_0000

  /** `x as i32` for a `u32`: the unique i32 congruent to x modulo 2^32. */
  function U32AsI32(x: u32): (r: i32)
    ensures (r - x) % TWO_32 == 0
    ensures 0 <= r <==> x <= I32_MAX
  {
    if x <= I32_MAX then x else x - TWO_32
  }

  /** `x as u32` for an `i32`: the unique u32 congruent to x modulo 2^32. */
  function I32AsU32(x: i32): (r: u32)
    ensures (r - x) % TWO_32 == 0
    ensures U32AsI32(r) == x
  {
    if x >= 0 then x else x + TWO_32
  }

  /** `x as usize` for an `i32`: sign extension to 64 bits. */
  function I32AsUsize(x: i32): (r: usize)
    ensures (r - x) % TWO_64 == 0
    ensures 0 <= x ==> r == x
    ensures x < 0 ==> r > I32_MAX
  {
    if x >= 0 then x else x + TWO_64
  }

  /** `p as i32` for a 64-bit address: truncation to the low 32 bits, read
      as two's complement. */
  function UsizeAsI32(p: usize): (r: i32)
    ensures (r - p) % TWO_32 == 0
  {
    U32AsI32(p % TWO_32)
  }
}
