/** Shared value types. */
module Prelude {

  /** A value that may be missing. */
  datatype Option<+T> = None | Some(value: T)

  /** A computation that returns a value or an error. */
  datatype Result<+T, +E> = Ok(value: T) | Err(error: E)

  /** Bytes, as the network, pipe and terminal code sees them. */
  type byte = b: int | 0 <= b < 256

  const TWO_64: nat := 0x1_0000_0000_0000_0000

  function Min(a: int, b: int): int {
    if a <= b then a else b
  }

  function Max(a: int, b: int): int {
    if a >= b then a else b
  }

  function Pow2(k: nat): nat
    ensures Pow2(k) >= 1
  {
    if k == 0 then 1 else 2 * Pow2(k - 1)
  }
}
