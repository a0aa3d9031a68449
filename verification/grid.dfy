/** The board of squares shared by both players. Only the construction order
    of the flat square list and the index arithmetic of `get_square` are
    modelled; colours and bindings are presentation. */
module Grids {

  import opened Optional
  import opened Coords

  /** The label placed at `column`, `row` of the window. */
  datatype Square = Square(column: int, row: int)

  datatype Grid = Grid(size: nat, squares: seq<Square>)

  /** Position of square (x, y) in the flat list. */
  function SquareIndex(size: int, x: int, y: int): int {
    x * size + y
  }

  /** Python's `s[i]`: a negative index counts from the end, and an index
      outside `[-|s|, |s|)` raises IndexError (here: `None`). */
  function PyIndex<T>(s: seq<T>, i: int): (r: Option<T>)
    ensures r.Some? <==> -|s| <= i < |s|
    ensures 0 <= i < |s| ==> r == Some(s[i])
  {
    if 0 <= i < |s| then Some(s[i])
    else if -|s| <= i < 0 then Some(s[|s| + i])
    else None
  }

  function GetSquare(g: Grid, x: int, y: int): Option<Square> {
    PyIndex(g.squares, SquareIndex(g.size, x, y))
  }

  /** The flat list was built column by column: the square at flat position
      i was created at column i / size, row i % size. */
  ghost predicate ColumnByColumn(squares: seq<Square>, size: nat) {
    && |squares| == size * size
    && forall i :: 0 <= i < |squares| ==> squares[i] == Square(i / size, i % size)
  }

  lemma MulMonotone(a: int, b: int, c: int)
    requires a <= b && 0 <= c
    ensures a * c <= b * c
  {
    assert b * c - a * c == (b - a) * c;
  }

  /** Dividing x * size + y by size gives back x and y. */
  lemma DivModOfIndex(size: nat, x: int, y: int)
    requires 0 <= y < size
    ensures SquareIndex(size, x, y) / size == x
    ensures SquareIndex(size, x, y) % size == y
  {
    var i := SquareIndex(size, x, y);
    var q, r := i / size, i % size;
    assert i == q * size + r && 0 <= r < size;
    if q > x {
      assert (q - x) * size == q * size - x * size;
      MulMonotone(1, q - x, size);
    } else if q < x {
      assert (x - q) * size == x * size - q * size;
      MulMonotone(1, x - q, size);
    }
  }

  /** An in-grid coordinate lands inside the list of size * size squares. */
  lemma SquareIndexBounds(size: nat, x: int, y: int)
    requires InGrid(Coord(x, y), size)
    ensures 0 <= SquareIndex(size, x, y) < size * size
  {
    MulMonotone(0, x, size);
    MulMonotone(x + 1, size, size);
  }

  /** Distinct in-grid coordinates never share a square. */
  lemma SquareIndexInjective(size: nat, x1: int, y1: int, x2: int, y2: int)
    requires InGrid(Coord(x1, y1), size) && InGrid(Coord(x2, y2), size)
    requires SquareIndex(size, x1, y1) == SquareIndex(size, x2, y2)
    ensures x1 == x2 && y1 == y2
  {
    DivModOfIndex(size, x1, y1);
    DivModOfIndex(size, x2, y2);
  }

  /** Every flat position is reached by exactly the coordinate it was
      created for. */
  lemma SquareIndexOnto(size: nat, i: int)
    requires 0 <= i < size * size
    ensures InGrid(Coord(i / size, i % size), size)
    ensures SquareIndex(size, i / size, i % size) == i
  {
    if i / size >= size {
      MulMonotone(size, i / size, size);
    }
  }

  /** Grid construction: columns x in the outer loop, rows y in the inner
      loop, each new square appended to the flat list. */
  method NewGrid(size: nat) returns (g: Grid)
    ensures g.size == size
    ensures ColumnByColumn(g.squares, size)
  {
    var squares: seq<Square> := [];
    var x := 0;
    while x < size
      invariant 0 <= x <= size
      invariant |squares| == x * size
      invariant forall i :: 0 <= i < |squares| ==> squares[i] == Square(i / size, i % size)
    {
      var y := 0;
      while y < size
        invariant 0 <= y <= size
        invariant |squares| == x * size + y
        invariant forall i :: 0 <= i < |squares| ==> squares[i] == Square(i / size, i % size)
      {
        DivModOfIndex(size, x, y);
        squares := squares + [Square(x, y)];
        y := y + 1;
      }
      x := x + 1;
    }
    g := Grid(size, squares);
  }

  /** On a constructed grid, `get_square(x, y)` returns the square created
      at column x, row y. */
  lemma GetSquareFindsCell(g: Grid, x: int, y: int)
    requires ColumnByColumn(g.squares, g.size)
    requires InGrid(Coord(x, y), g.size)
    ensures GetSquare(g, x, y) == Some(Square(x, y))
  {
    SquareIndexBounds(g.size, x, y);
    DivModOfIndex(g.size, x, y);
  }

}
