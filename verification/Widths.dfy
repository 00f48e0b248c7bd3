/** The fixed-width unsigned integers of the implementation, as subset types of `int`.
    Arithmetic that wraps around is written out with an explicit `%` where it happens. */
module Widths {
  const TWO8: int := 0x100
  const TWO16: int := 0x1_0000
  const TWO31: int := 0x8000_0000
  const TWO32: int := 0x1_0000_0000
  const TWO60: int := 0x1000_0000_0000_0000
  const TWO62: int := 0x4000_0000_0000_0000
  const TWO63: int := 0x8000_0000_0000_0000
  const TWO64: int := 0x1_0000_0000_0000_0000

  type byte = x: int | 0 <= x < TWO8
  type uint16 = x: int | 0 <= x < TWO16
  type uint32 = x: int | 0 <= x < TWO32
  type uint64 = x: int | 0 <= x < TWO64

  datatype Option<+T> = None | Some(value: T)

  function Min(a: int, b: int): (r: int)
    ensures r <= a && r <= b && (r == a || r == b)
  {
    if a <= b then a else b
  }

  function Max(a: int, b: int): (r: int)
    ensures r >= a && r >= b && (r == a || r == b)
  {
    if a >= b then a else b
  }
}
