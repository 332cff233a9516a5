/** The Rust primitive types that the exported functions of `wasm/src/lib.rs`
    take and return, as the module is compiled for wasm32.

    Integers are unbounded in Dafny, so each fixed-width Rust type is a subset
    type of `int` carrying its own range. */
module Primitives {

  const I32_MIN: int := -0x8000_0000
  const I32_MAX: int := 0x7FFF_FFFF
  /** On wasm32, `usize` is 32 bits wide. */
  const USIZE_MAX: int := 0xFFFF_FFFF

  predicate InI32(x: int) {
    I32_MIN <= x <= I32_MAX
  }

  /** Rust's `i32`. */
  type I32 = x: int | I32_MIN <= x <= I32_MAX

  /** Rust's `usize` on wasm32. */
  type USize = x: int | 0 <= x <= USIZE_MAX

  /** Rust's `Result<T, E>`. */
  datatype Result<T, E> = Ok(value: T) | Err(error: E)

  /** Rust's `Option<T>`. */
  datatype Option<T> = None | Some(value: T)

  /** True when every character is in the ASCII range. */
  predicate IsAscii(s: string) {
    forall i :: 0 <= i < |s| ==> s[i] as int < 0x80
  }
}
