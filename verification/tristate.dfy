/** Kconfig's three-valued logic: n, m and y are the integers 0, 1 and 2, as in the source. */
module Tristate {

  type Tri = x: int | 0 <= x <= 2

  const TRI_N: Tri := 0
  const TRI_M: Tri := 1
  const TRI_Y: Tri := 2

  /** The order in which the encoder walks the states. */
  const TRI_STATES: seq<Tri> := [TRI_N, TRI_M, TRI_Y]

  function Min(a: Tri, b: Tri): Tri {
    if a < b then a else b
  }

  function Max(a: Tri, b: Tri): Tri {
    if a > b then a else b
  }

  function BoolTri(b: bool): Tri {
    if b then TRI_Y else TRI_N
  }

  datatype Option<+T> = None | Some(value: T) {
    function GetOr(default: T): T {
      if None? then default else value
    }
  }
}
