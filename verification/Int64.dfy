/** Conversions to 64-bit integers. */
module Int64 {
  const LIMIT := 0x8000_0000_0000_0000

  predicate Fits(x: int) {
    -LIMIT <= x < LIMIT
  }

  /** A real number cut towards zero. */
  function Trunc(x: real): int {
    if x >= 0.0 then x.Floor else -(-x).Floor
  }

  /** What the conversion of an out-of-range double yields is left open by the language. */
  type OutOfRange = int -> int

  function Cast(wide: OutOfRange, x: int): int {
    if Fits(x) then x else wide(x)
  }

  function Min(x: int, y: int): int {
    if x <= y then x else y
  }
}
