/** Board coordinates shared by the grid and the players. A coordinate is the
    `(x, y)` pair of the game: `x` is the column and `y` the row. */
module Coords {

  datatype Coord = Coord(x: int, y: int)

  /** True iff `c` names a square of a `size` by `size` board. */
  predicate InGrid(c: Coord, size: int) {
    0 <= c.x < size && 0 <= c.y < size
  }

  predicate AllInGrid(cs: seq<Coord>, size: int) {
    forall i :: 0 <= i < |cs| ==> InGrid(cs[i], size)
  }

  /** Every square of a `size` by `size` board. */
  function GridCells(size: nat): (cells: set<Coord>)
    ensures forall c :: c in cells <==> InGrid(c, size)
  {
    set x: int, y: int | 0 <= x < size && 0 <= y < size :: Coord(x, y)
  }

  /** No element occurs twice. */
  predicate NoDuplicates<T(==)>(s: seq<T>) {
    forall i, j :: 0 <= i < j < |s| ==> s[i] != s[j]
  }

}
