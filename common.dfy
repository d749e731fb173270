/** Fixed-width integer types and the Option/Result wrappers shared by every module. */
module Common {

  /** An unsigned 8-bit value (Rust `u8`). */
  newtype byte = x: int | 0 <= x < 0x100

  /** An unsigned 16-bit value (Rust `u16`). */
  newtype u16 = x: int | 0 <= x < 0x1_0000

  /** An unsigned 64-bit value (Rust `u64`). */
  newtype u64 = x: int | 0 <= x < 0x1_0000_0000_0000_0000

  /** A signed 32-bit value (Rust `i32`). */
  newtype i32 = x: int | -0x8000_0000 <= x < 0x8000_0000

  /** A signed 64-bit value (Rust `i64`). */
  newtype i64 = x: int | -0x8000_0000_0000_0000 <= x < 0x8000_0000_0000_0000

  /** A byte string (Rust `Vec<u8>`). */
  type Bytes = seq<byte>

  datatype Option<+T> = None | Some(value: T)

  /** Rust's `Result`, usable with `:-`. */
  datatype Result<+T, +E> = Ok(value: T) | Err(error: E) {

    predicate IsFailure() {
      Err?
    }

    function PropagateFailure<U>(): Result<U, E>
      requires Err?
    {
      Err(error)
    }

    function Extract(): T
      requires Ok?
    {
      value
    }
  }
}
