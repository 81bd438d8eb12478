/** Option and Result, the byte type shared by the codecs, and units of time in nanoseconds. */
module Common {

  datatype Option<+T> = None | Some(value: T)

  datatype Result<+T, +E> = Ok(value: T) | Err(error: E)

  type Byte = b: int | 0 <= b < 256

  const SECOND := 1_000_000_000
  const MINUTE := 60 * SECOND

  function Min(a: int, b: int): int {
    if a <= b then a else b
  }
}
