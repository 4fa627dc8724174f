/** Grid coordinates, directions and cells shared by every part of the snake game. */
module Grid {

  /** Largest value of Rust's `u32`, the type of every coordinate and grid dimension. */
  const U32_MAX: int := 0xFFFF_FFFF

  /** An unsigned 32-bit coordinate, grid dimension or counter. */
  type U32 = x: int | 0 <= x <= U32_MAX

  /** The direction the snake moves in. */
  datatype Direction = Up | Down | Left | Right

  /** A grid cell `(column, row)`: a piece of the snake, or where the food lies. Row 0 is the top. */
  datatype Piece = Piece(x: U32, y: U32)

  /** The opposite direction, which the game never lets the snake take. */
  function Reverse(d: Direction): Direction
  {
    match d
    case Up => Down
    case Down => Up
    case Left => Right
    case Right => Left
  }

  /** Column offset of one step in direction `d`. */
  function DX(d: Direction): int
  {
    match d
    case Left => -1
    case Right => 1
    case _ => 0
  }

  /** Row offset of one step in direction `d` (rows grow downwards). */
  function DY(d: Direction): int
  {
    match d
    case Up => -1
    case Down => 1
    case _ => 0
  }

  /** `v.saturating_sub(1)` on a `u32`. */
  function Dec(v: U32): U32
  {
    if v == 0 then 0 else v - 1
  }

  predicate InGrid(p: Piece, cols: U32, rows: U32)
  {
    p.x < cols && p.y < rows
  }

  predicate AllInGrid(parts: seq<Piece>, cols: U32, rows: U32)
  {
    forall i :: 0 <= i < |parts| ==> InGrid(parts[i], cols, rows)
  }

  /** `parts.iter().any(|p| x == p.0 && y == p.1)`: scans the list from the front. */
  function AnyAt(parts: seq<Piece>, x: U32, y: U32): (r: bool)
    ensures r <==> Piece(x, y) in parts
  {
    if parts == [] then false
    else (x == parts[0].x && y == parts[0].y) || AnyAt(parts[1..], x, y)
  }

  /** Some cell of the `cols` by `rows` grid is not covered by the snake. */
  predicate HasFreeCell(parts: seq<Piece>, cols: U32, rows: U32)
  {
    exists x: U32, y: U32 :: x < cols && y < rows && !AnyAt(parts, x, y)
  }

  /** The cells of row `y` in the first `cols` columns. */
  ghost function Row(cols: U32, y: U32): set<Piece>
  {
    set x: U32 | x < cols :: Piece(x, y)
  }

  /** All cells of a `cols` by `rows` grid. */
  ghost function Cells(cols: U32, rows: U32): set<Piece>
  {
    set x: U32, y: U32 | x < cols && y < rows :: Piece(x, y)
  }

  lemma {:induction false} RowSize(cols: U32, y: U32)
    ensures |Row(cols, y)| == cols
  {
    if cols > 0 {
      RowSize(cols - 1, y);
      assert Row(cols, y) == Row(cols - 1, y) + {Piece(cols - 1, y)};
    } else {
      assert Row(cols, y) == {};
    }
  }

  lemma CellsSplit(cols: U32, rows: U32)
    requires rows > 0
    ensures Cells(cols, rows) == Cells(cols, rows - 1) + Row(cols, rows - 1)
  {
    forall p | p in Cells(cols, rows) ensures p in Cells(cols, rows - 1) + Row(cols, rows - 1) {
      if p.y < rows - 1 {
        assert p in Cells(cols, rows - 1);
      } else {
        assert p in Row(cols, rows - 1);
      }
    }
  }

  lemma {:induction false} CellsSize(cols: U32, rows: U32)
    ensures |Cells(cols, rows)| == cols * rows
  {
    if rows > 0 {
      CellsSize(cols, rows - 1);
      RowSize(cols, rows - 1);
      CellsSplit(cols, rows);
      assert Cells(cols, rows - 1) !! Row(cols, rows - 1);
      assert cols * rows == cols * (rows - 1) + cols;
    } else {
      assert Cells(cols, rows) == {};
    }
  }

  /** The cells the snake covers. */
  ghost function Covered(parts: seq<Piece>): set<Piece>
  {
    set p | p in parts
  }

  /** A list of `n` pieces covers at most `n` distinct cells. */
  lemma {:induction false} CoveredCells(parts: seq<Piece>)
    ensures |Covered(parts)| <= |parts|
  {
    if parts != [] {
      CoveredCells(parts[1..]);
      assert Covered(parts) == {parts[0]} + Covered(parts[1..]);
    }
  }

  lemma SubsetSize(a: set<Piece>, b: set<Piece>)
    requires a <= b
    ensures |a| <= |b|
  {
    assert b == a + (b - a);
    assert a !! (b - a);
  }

  /**
   * Pigeonhole: a snake with fewer pieces than the grid has cells leaves a cell free,
   * so the food relocation loop of `Food::update` can stop.
   */
  lemma FreeCellWhenShorter(parts: seq<Piece>, cols: U32, rows: U32)
    requires |parts| < cols * rows
    ensures HasFreeCell(parts, cols, rows)
  {
    if !HasFreeCell(parts, cols, rows) {
      forall p | p in Cells(cols, rows) ensures p in Covered(parts) {
        assert AnyAt(parts, p.x, p.y);
      }
      CellsSize(cols, rows);
      CoveredCells(parts);
      SubsetSize(Cells(cols, rows), Covered(parts));
      assert false;
    }
  }
}
