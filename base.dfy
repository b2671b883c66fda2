/** Machine integer ranges and the Option/Result wrappers used by every other module. */
module Base {

  /** An octet of an HTTP header value or of an encoded image. */
  type byte = x: int | 0 <= x < 0x100

  /** Rust's `i32`: the type of the `width` and `height` query parameters. */
  type i32 = x: int | -0x8000_0000 <= x < 0x8000_0000

  /** Rust's `u64`: a file length, and the output of `Hasher::finish`. */
  type u64 = x: int | 0 <= x < 0x1_0000_0000_0000_0000

  datatype Option<+T> = None | Some(value: T)

  datatype Result<+T, +E> = Ok(value: T) | Err(error: E)
}
