/** Positions on the board (the `model.grid` package). */
module Grid {

  /** A cell position: column `x`, row `y`, both 0-based. Equality is by value. */
  datatype Coordinates = Coordinates(x: int, y: int)

  /** Row-major order: `a` comes strictly before `b` when scanning rows top to bottom, cells left to right. */
  predicate Before(a: Coordinates, b: Coordinates)
  {
    a.y < b.y || (a.y == b.y && a.x < b.x)
  }

  /** Every element of `cs` comes strictly before every later element. */
  predicate RowMajorSorted(cs: seq<Coordinates>)
  {
    forall a, b :: 0 <= a < b < |cs| ==> Before(cs[a], cs[b])
  }
}
