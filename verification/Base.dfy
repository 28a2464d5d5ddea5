/** Values shared by every module: optional and failing results, and the
    64-bit integers of the modelled program. */
module Base {

  datatype Option<+T> = None | Some(value: T)

  datatype Result<+T, +E> = Ok(value: T) | Err(error: E)

  const MIN64: int := -0x8000_0000_0000_0000
  const MAX64: int := 0x7FFF_FFFF_FFFF_FFFF
  const MAX_UINT64: int := 0xFFFF_FFFF_FFFF_FFFF

  /** An int64. A value passed where an `Int64` is expected carries the proof
      that the computation before it did not overflow. */
  type Int64 = x: int | MIN64 <= x <= MAX64

  /** Division and remainder of the modelled language: truncated toward zero. */
  function TruncDiv(a: int, b: int): int
    requires b > 0
  {
    if a >= 0 then a / b else -(-a / b)
  }

  function TruncMod(a: int, b: int): int
    requires b > 0
  {
    a - TruncDiv(a, b) * b
  }

  /** Two's-complement wrap-around of a mathematical integer. */
  function Wrap64(x: int): Int64 {
    (x - MIN64) % 0x1_0000_0000_0000_0000 + MIN64
  }
}
