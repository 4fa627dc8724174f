/**
 * The sensor vector the network is fed: one reading per neighbour cell of the head, in the
 * order top left, top, top right, left, right, bottom left, bottom, bottom right. A reading is
 * -1 (border or snake), 1 (food) or 0 (empty). The same computation appears in `World::pressed`,
 * `World::automatic` and `SuggestedDirection::update`; it is modelled once, cell by cell as
 * written, including where a cell's tests do not match its geometric neighbour.
 */
module Sensing {
  import opened Grid
  import opened Moves

  /** Number of readings. */
  const CELLS: nat := 8

  /** The head's coordinates can be incremented as `u32`. */
  predicate HeadFits(head: Piece)
  {
    head.x < U32_MAX && head.y < U32_MAX
  }

  /** The border tests of cell `k`, written against the coordinates the code uses. */
  predicate BorderTest(k: nat, head: Piece, cols: U32, rows: U32)
    requires k < CELLS
  {
    var x, y := head.x, head.y;
    match k
    case 0 => x == 0 || y == 0
    case 1 => y == 0
    case 2 => x + 1 == 0 || y == 0 || x + 1 == cols
    case 3 => x == 0
    case 4 => x + 1 == cols || y == rows
    case 5 => x == 0 || y + 1 == rows
    case 6 => x == cols || y + 1 == rows
    case 7 => x + 1 == cols || y + 1 == rows
  }

  /** The cell cell `k` asks `is_collide` about (with `saturating_sub` for the decrements). */
  function BodyProbe(k: nat, head: Piece): Piece
    requires k < CELLS && HeadFits(head)
  {
    var x, y := head.x, head.y;
    match k
    case 0 => Piece(Dec(x), Dec(y))
    case 1 => Piece(x, Dec(y))
    case 2 => Piece(x + 1, y)
    case 3 => Piece(Dec(x), y)
    case 4 => Piece(x + 1, y)
    case 5 => Piece(Dec(x), y + 1)
    case 6 => Piece(x, y + 1)
    case 7 => Piece(x + 1, y + 1)
  }

  /** The cell cell `k` compares with the food. */
  function FoodProbe(k: nat, head: Piece): Piece
    requires k < CELLS && HeadFits(head)
  {
    var x, y := head.x, head.y;
    match k
    case 0 => Piece(Dec(x), Dec(y))
    case 1 => Piece(x, Dec(y))
    case 2 => Piece(x + 1, Dec(y))
    case 3 => Piece(Dec(x), y)
    case 4 => Piece(x + 1, y)
    case 5 => Piece(Dec(x), y + 1)
    case 6 => Piece(x, y + 1)
    case 7 => Piece(x + 1, y + 1)
  }

  /** Cell `k` reads as an obstacle. */
  predicate Blocked(k: nat, head: Piece, parts: seq<Piece>, cols: U32, rows: U32)
    requires k < CELLS && HeadFits(head)
  {
    BorderTest(k, head, cols, rows) || AnyAt(parts, BodyProbe(k, head).x, BodyProbe(k, head).y)
  }

  /** One reading: an obstacle gives -1 whatever else is there, otherwise food gives 1, otherwise 0. */
  function Reading(blocked: bool, food: bool): (v: real)
    ensures v == -1.0 || v == 0.0 || v == 1.0
    ensures v == -1.0 <==> blocked
    ensures v == 1.0 <==> !blocked && food
  {
    if blocked then -1.0 else if food then 1.0 else 0.0
  }

  /** The reading of cell `k`. */
  function Sense(k: nat, head: Piece, parts: seq<Piece>, food: Piece, cols: U32, rows: U32): real
    requires k < CELLS && HeadFits(head)
  {
    Reading(Blocked(k, head, parts, cols, rows), FoodProbe(k, head) == food)
  }

  /**
   * The sensor vector around `head`: the readings of the eight cells in the order the
   * code pushes them.
   */
  function Environment(head: Piece, parts: seq<Piece>, food: Piece, cols: U32, rows: U32): (env: seq<real>)
    requires HeadFits(head)
    ensures |env| == CELLS
    ensures forall k :: 0 <= k < CELLS ==> env[k] == -1.0 || env[k] == 0.0 || env[k] == 1.0
  {
    [ Sense(0, head, parts, food, cols, rows), Sense(1, head, parts, food, cols, rows),
      Sense(2, head, parts, food, cols, rows), Sense(3, head, parts, food, cols, rows),
      Sense(4, head, parts, food, cols, rows), Sense(5, head, parts, food, cols, rows),
      Sense(6, head, parts, food, cols, rows), Sense(7, head, parts, food, cols, rows) ]
  }

  /** Column offset of the geometric neighbour of cell `k`. */
  function OffsetX(k: nat): int
    requires k < CELLS
  {
    [-1, 0, 1, -1, 1, -1, 0, 1][k]
  }

  /** Row offset of the geometric neighbour of cell `k`. */
  function OffsetY(k: nat): int
    requires k < CELLS
  {
    [-1, -1, -1, 0, 0, 1, 1, 1][k]
  }

  /** The snake covers the (possibly off-grid) cell `(cx, cy)`. */
  predicate Occupied(parts: seq<Piece>, cx: int, cy: int)
  {
    exists i :: 0 <= i < |parts| && parts[i].x == cx && parts[i].y == cy
  }

  /**
   * For a head inside the grid, every cell but the top right one reads its geometric
   * neighbour: -1 exactly when that neighbour is off the grid or on the snake, 1 exactly
   * when it is a free cell holding the food.
   */
  lemma SenseIsGeometric(k: nat, head: Piece, parts: seq<Piece>, food: Piece, cols: U32, rows: U32)
    requires k < CELLS && k != 2 && InGrid(head, cols, rows)
    ensures HeadFits(head)
    ensures var nx, ny := head.x + OffsetX(k), head.y + OffsetY(k);
      var v := Sense(k, head, parts, food, cols, rows);
      && (v == -1.0 <==> !(0 <= nx < cols && 0 <= ny < rows) || Occupied(parts, nx, ny))
      && (v == 1.0 <==> (0 <= nx < cols && 0 <= ny < rows) && !Occupied(parts, nx, ny)
                        && food.x == nx && food.y == ny)
  {
    var nx, ny := head.x + OffsetX(k), head.y + OffsetY(k);
    var inside := 0 <= nx < cols && 0 <= ny < rows;
    assert BorderTest(k, head, cols, rows) <==> !inside;
    if inside {
      var p := BodyProbe(k, head);
      assert p.x == nx && p.y == ny && FoodProbe(k, head) == p;
      assert AnyAt(parts, p.x, p.y) <==> Occupied(parts, nx, ny);
    }
  }

  /**
   * The top right cell (k = 2) mixes two neighbours: its border tests are those of the
   * top right cell, but its body test probes the right neighbour `(x + 1, y)`, while its
   * food test uses the top right cell `(x + 1, y - 1)`.
   */
  lemma TopRightProbesRightNeighbour(head: Piece, parts: seq<Piece>, food: Piece, cols: U32, rows: U32)
    requires InGrid(head, cols, rows)
    ensures HeadFits(head)
    ensures var v := Sense(2, head, parts, food, cols, rows);
      && (v == -1.0 <==> head.y == 0 || head.x + 1 == cols || Occupied(parts, head.x + 1, head.y))
      && (v == 1.0 <==> head.y != 0 && head.x + 1 != cols && !Occupied(parts, head.x + 1, head.y)
                        && food.x == head.x + 1 && food.y == head.y - 1)
  {
    var p := BodyProbe(2, head);
    assert AnyAt(parts, p.x, p.y) <==> Occupied(parts, head.x + 1, head.y);
  }

  /**
   * A concrete case of the above: with the head at (0, 1) of a 3 by 3 grid and a body piece
   * on the top right cell (1, 0), that cell reads as empty; a piece on the right cell (1, 1)
   * instead makes it read as an obstacle.
   */
  lemma TopRightExample()
    ensures Environment(Piece(0, 1), [Piece(0, 1), Piece(1, 0)], Piece(2, 2), 3, 3)[2] == 0.0
    ensures Environment(Piece(0, 1), [Piece(0, 1), Piece(1, 1)], Piece(2, 2), 3, 3)[2] == -1.0
  {
    assert !AnyAt([Piece(0, 1), Piece(1, 0)], 1, 1);
    assert AnyAt([Piece(0, 1), Piece(1, 1)], 1, 1);
  }
}
