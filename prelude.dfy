/**
 * The parts of Rust's core library that `StatusCode` is built from:
 * `Option`, `Result`, and the unsigned integer types `u8` and `u16` with the
 * two arithmetic behaviours the status code parser relies on (a wrapping
 * `u8` subtraction and plain `u16` arithmetic, which must not overflow).
 */
module Prelude {

  /** `Option<T>`. */
  datatype Option<+T> = None | Some(value: T) {

    /** `Option::unwrap_or`. */
    function UnwrapOr(default: T): (r: T)
      ensures Some? ==> r == value
      ensures None? ==> r == default
    {
      match this
      case Some(v) => v
      case None => default
    }
  }

  /** `Result<T, E>`. */
  datatype Result<+T, +E> = Ok(value: T) | Err(error: E)

  const U8_MAX: int := 0xFF
  const U16_MAX: int := 0xFFFF

  /** A value of Rust's `u8` (a byte). */
  type Byte = b: int | 0 <= b <= U8_MAX

  /** A value of Rust's `u16`. */
  type U16 = n: int | 0 <= n <= U16_MAX

  /**
   * `u8::wrapping_sub`: the difference taken modulo 256, so that a subtrahend
   * larger than the minuend wraps around to the top of the `u8` range.
   */
  function WrappingSubU8(x: Byte, y: Byte): (r: Byte)
    ensures x >= y ==> r == x - y
    ensures x < y ==> r == x - y + 256
  {
    (x - y) % 256
  }

  /**
   * `u16` multiplication. Rust panics (debug builds) or wraps (release builds)
   * on overflow; the precondition makes every caller prove that neither can
   * happen, so the result is the mathematical product.
   */
  function MulU16(x: U16, y: U16): U16
    requires x * y <= U16_MAX
  {
    x * y
  }

  /** `u16` addition, under the same no-overflow obligation as `MulU16`. */
  function AddU16(x: U16, y: U16): U16
    requires x + y <= U16_MAX
  {
    x + y
  }
}
