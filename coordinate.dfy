/** Grid positions, the Moore neighbourhood and the rectangular grid. */
module Coordinates {

  /** A row/column pair of non-negative coordinate values. */
  datatype Coordinate = Coordinate(row: nat, col: nat)

  /** Height and width of a field are positive. */
  type Height = h: nat | h > 0 witness 1
  type Width = w: nat | w > 0 witness 1

  /** Two distinct positions that touch horizontally, vertically or diagonally. */
  predicate Adjacent(a: Coordinate, b: Coordinate)
  {
    a != b &&
    -1 <= a.row - b.row <= 1 &&
    -1 <= a.col - b.col <= 1
  }

  /** The position one step in direction (dr, dc), if it has non-negative coordinates. */
  function Toward(c: Coordinate, dr: int, dc: int): seq<Coordinate>
  {
    if c.row + dr >= 0 && c.col + dc >= 0 then [Coordinate(c.row + dr, c.col + dc)] else []
  }

  /** No position occurs twice in `s`. */
  predicate Distinct(s: seq<Coordinate>)
  {
    forall i, j :: 0 <= i < j < |s| ==> s[i] != s[j]
  }

  /** The up to eight neighbours of `c`, one per direction. */
  function Around(c: Coordinate): (s: seq<Coordinate>)
    ensures forall d :: d in s <==> Adjacent(c, d)
    ensures Distinct(s)
    ensures |s| <= 8
  {
    var s := Toward(c, -1, -1) + Toward(c, -1, 0) + Toward(c, -1, 1) +
      Toward(c, 0, -1) + Toward(c, 0, 1) +
      Toward(c, 1, -1) + Toward(c, 1, 0) + Toward(c, 1, 1);
    assert Distinct(s);
    s
  }

  predicate InGrid(height: nat, width: nat, c: Coordinate)
  {
    c.row < height && c.col < width
  }

  /** Every position of a height-by-width grid. */
  function Grid(height: nat, width: nat): (g: set<Coordinate>)
    ensures forall c :: c in g <==> InGrid(height, width, c)
  {
    set r: nat, k: nat | r < height && k < width :: Coordinate(r, k)
  }

  function Row(r: nat, width: nat): (s: set<Coordinate>)
    ensures forall c :: c in s <==> c.row == r && c.col < width
  {
    set k: nat | k < width :: Coordinate(r, k)
  }

  lemma {:induction false} RowSize(r: nat, width: nat)
    ensures |Row(r, width)| == width
  {
    if width > 0 {
      RowSize(r, width - 1);
      assert Row(r, width) == Row(r, width - 1) + {Coordinate(r, width - 1)};
    } else {
      assert Row(r, width) == {};
    }
  }

  lemma GridSplit(height: nat, width: nat)
    requires height > 0
    ensures Grid(height, width) == Grid(height - 1, width) + Row(height - 1, width)
    ensures Grid(height - 1, width) !! Row(height - 1, width)
  {
  }

  /** A height-by-width grid has exactly height * width positions. */
  lemma {:induction false} GridSize(height: nat, width: nat)
    ensures |Grid(height, width)| == height * width
  {
    if height > 0 {
      var upper, last := Grid(height - 1, width), Row(height - 1, width);
      GridSize(height - 1, width);
      RowSize(height - 1, width);
      GridSplit(height, width);
      assert |upper + last| == |upper| + |last|;
      assert (height - 1) * width + width == height * width;
    } else {
      assert Grid(height, width) == {};
    }
  }
}
