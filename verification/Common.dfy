/** Types every component shares. */
module Common {

  datatype Option<+T> = None | Some(value: T)

  /** The source's u8. */
  newtype byte = x: int | 0 <= x < 256

  /** The number of u64 values: u64 arithmetic is arithmetic modulo this. */
  const TWO_TO_64: int := 0x1_0000_0000_0000_0000

  function Min(a: int, b: int): int {
    if a <= b then a else b
  }

  function Max(a: int, b: int): int {
    if a <= b then b else a
  }

  /** The ranges [a, aEnd) and [b, bEnd) do not meet. */
  predicate Apart(a: int, aEnd: int, b: int, bEnd: int) {
    aEnd <= b || bEnd <= a
  }
}
