/**
 * The snake and its one-cell move (`Snake::update` and `Snake::is_collide` in src/world.rs).
 * `Step` is the move as a function of the old body; `Snake.Update` performs it in place and
 * is proved to agree with it; the lemmas state what a move guarantees.
 */
module Moves {
  import opened Grid

  /** The border test: the head is on the edge of the grid it is about to cross. */
  predicate AtBorder(head: Piece, d: Direction, cols: U32, rows: U32)
  {
    || (d == Up && head.y == 0)
    || (d == Left && head.x == 0)
    || (d == Down && head.y == rows - 1)
    || (d == Right && head.x == cols - 1)
  }

  /**
   * The `u32` arithmetic of a move does not trap (as a debug build would):
   * `rows - 1` and `cols - 1` are evaluated only for moves down and right,
   * and the head is incremented only when the border test has failed.
   */
  predicate MoveDefined(head: Piece, d: Direction, cols: U32, rows: U32)
  {
    && (d == Down ==> 0 < rows && (head.y != rows - 1 ==> head.y < U32_MAX))
    && (d == Right ==> 0 < cols && (head.x != cols - 1 ==> head.x < U32_MAX))
  }

  /** A step from `head` in direction `d` stays within `u32`. */
  predicate CanShift(head: Piece, d: Direction)
  {
    && (d == Up ==> 0 < head.y)
    && (d == Left ==> 0 < head.x)
    && (d == Down ==> head.y < U32_MAX)
    && (d == Right ==> head.x < U32_MAX)
  }

  /** The cell one step from `head` in direction `d`. */
  function Next(head: Piece, d: Direction): (r: Piece)
    requires CanShift(head, d)
    ensures r.x == head.x + DX(d) && r.y == head.y + DY(d)
  {
    match d
    case Up => head.(y := head.y - 1)
    case Down => head.(y := head.y + 1)
    case Left => head.(x := head.x - 1)
    case Right => head.(x := head.x + 1)
  }

  /** The body with the tail dropped, unless food was just eaten. */
  function Remaining(parts: seq<Piece>, justEaten: bool): seq<Piece>
    requires parts != []
  {
    if justEaten then parts else parts[..|parts| - 1]
  }

  /** What `Snake::update` returns, and the body it leaves. */
  datatype Outcome = Outcome(ok: bool, parts: seq<Piece>)

  /**
   * One move: rejected at the border with the body untouched; otherwise the tail is
   * dropped (unless food was just eaten) and the move is rejected when the new head
   * lands on what remains, else the new head is pushed on the front.
   */
  function Step(parts: seq<Piece>, d: Direction, justEaten: bool, cols: U32, rows: U32): (r: Outcome)
    requires parts != [] && MoveDefined(parts[0], d, cols, rows)
    ensures |parts| - 1 <= |r.parts| <= |parts| + 1
    ensures r.ok ==> |parts| <= |r.parts|
    ensures !justEaten ==> |r.parts| <= |parts|
  {
    if AtBorder(parts[0], d, cols, rows) then
      Outcome(false, parts)
    else
      var head := Next(parts[0], d);
      var rest := Remaining(parts, justEaten);
      if AnyAt(rest, head.x, head.y) then Outcome(false, rest)
      else Outcome(true, [head] + rest)
  }

  class Snake {
    /** `snake_parts`, front (the head) first. */
    var parts: seq<Piece>
    /** `d`, the direction of the next move. */
    var d: Direction

    constructor (parts: seq<Piece>, d: Direction)
      ensures this.parts == parts && this.d == d
    {
      this.parts := parts;
      this.d := d;
    }

    /** `is_collide`: some piece of the snake lies on `(x, y)`. */
    function IsCollide(x: U32, y: U32): (r: bool)
      reads this
      ensures r <==> Piece(x, y) in parts
    {
      AnyAt(parts, x, y)
    }

    /** Move the snake one cell in direction `d` if valid; otherwise return false. */
    method Update(justEaten: bool, cols: U32, rows: U32) returns (ok: bool)
      requires parts != [] && MoveDefined(parts[0], d, cols, rows)
      modifies this
      ensures d == old(d)
      ensures Outcome(ok, parts) == Step(old(parts), d, justEaten, cols, rows)
    {
      var newFront := parts[0];
      if || (d == Up && newFront.y == 0)
         || (d == Left && newFront.x == 0)
         || (d == Down && newFront.y == rows - 1)
         || (d == Right && newFront.x == cols - 1)
      {
        return false;
      }
      match d {
        case Up => newFront := newFront.(y := newFront.y - 1);
        case Down => newFront := newFront.(y := newFront.y + 1);
        case Left => newFront := newFront.(x := newFront.x - 1);
        case Right => newFront := newFront.(x := newFront.x + 1);
      }
      if !justEaten {
        parts := parts[..|parts| - 1];
      }
      if IsCollide(newFront.x, newFront.y) {
        return false;
      }
      parts := [newFront] + parts;
      ok := true;
    }
  }

  /** Inside the grid every move's arithmetic is defined, and a move that passes the border test can be taken. */
  lemma InGridMoveDefined(head: Piece, d: Direction, cols: U32, rows: U32)
    requires InGrid(head, cols, rows)
    ensures MoveDefined(head, d, cols, rows)
    ensures !AtBorder(head, d, cols, rows) ==> CanShift(head, d) && InGrid(Next(head, d), cols, rows)
  {
  }

  /** A head on the border in the direction of travel: the move fails and the body is unchanged. */
  lemma BorderMoveFails(parts: seq<Piece>, d: Direction, justEaten: bool, cols: U32, rows: U32)
    requires parts != [] && MoveDefined(parts[0], d, cols, rows)
    requires AtBorder(parts[0], d, cols, rows)
    ensures Step(parts, d, justEaten, cols, rows) == Outcome(false, parts)
  {
  }

  /**
   * Past the border test, the move fails exactly when the new head lands on a piece left
   * after the tail was dropped, and a failed move has already dropped the tail.
   */
  lemma MoveFailsIffHitsBody(parts: seq<Piece>, d: Direction, justEaten: bool, cols: U32, rows: U32)
    requires parts != [] && MoveDefined(parts[0], d, cols, rows)
    requires !AtBorder(parts[0], d, cols, rows)
    ensures CanShift(parts[0], d)
    ensures var r := Step(parts, d, justEaten, cols, rows);
      var rest := Remaining(parts, justEaten);
      && (!r.ok <==> exists i :: 0 <= i < |rest| && rest[i] == Next(parts[0], d))
      && (!r.ok ==> r.parts == rest)
  {
  }

  /**
   * A successful move puts the neighbouring cell in direction `d` in front, keeps every
   * other piece in order, and grows the snake by one exactly when food was just eaten.
   */
  lemma SuccessfulMove(parts: seq<Piece>, d: Direction, justEaten: bool, cols: U32, rows: U32)
    requires parts != [] && MoveDefined(parts[0], d, cols, rows)
    requires Step(parts, d, justEaten, cols, rows).ok
    ensures var r := Step(parts, d, justEaten, cols, rows);
      && r.parts[0].x == parts[0].x + DX(d)
      && r.parts[0].y == parts[0].y + DY(d)
      && |r.parts| == |parts| + (if justEaten then 1 else 0)
      && r.parts[1..] == parts[..|r.parts| - 1]
  {
  }

  /**
   * The tail is dropped before the self-collision test: moving into the cell the tail
   * leaves succeeds (when no other piece is there).
   */
  lemma MoveIntoVacatedTail(parts: seq<Piece>, d: Direction, cols: U32, rows: U32)
    requires |parts| >= 2 && MoveDefined(parts[0], d, cols, rows)
    requires !AtBorder(parts[0], d, cols, rows)
    requires CanShift(parts[0], d) && Next(parts[0], d) == parts[|parts| - 1]
    requires forall i :: 0 <= i < |parts| - 1 ==> parts[i] != parts[|parts| - 1]
    ensures Step(parts, d, false, cols, rows) == Outcome(true, [parts[|parts| - 1]] + parts[..|parts| - 1])
  {
  }

  /** A move never empties the snake: a failed move keeps at least the piece it collided with. */
  lemma MoveKeepsSnake(parts: seq<Piece>, d: Direction, justEaten: bool, cols: U32, rows: U32)
    requires parts != [] && MoveDefined(parts[0], d, cols, rows)
    ensures var r := Step(parts, d, justEaten, cols, rows);
      r.parts != [] && r.parts[0] == (if r.ok then Next(parts[0], d) else parts[0])
  {
  }

  /**
   * A snake inside the grid stays inside after any move, successful or not; this is why
   * the unsigned decrements of the head never underflow.
   */
  lemma MoveKeepsInGrid(parts: seq<Piece>, d: Direction, justEaten: bool, cols: U32, rows: U32)
    requires parts != [] && AllInGrid(parts, cols, rows)
    ensures MoveDefined(parts[0], d, cols, rows)
    ensures AllInGrid(Step(parts, d, justEaten, cols, rows).parts, cols, rows)
  {
    InGridMoveDefined(parts[0], d, cols, rows);
    var r := Step(parts, d, justEaten, cols, rows);
    if r.ok {
      forall i | 0 <= i < |r.parts| ensures InGrid(r.parts[i], cols, rows) {
        if i > 0 {
          assert r.parts[i] == parts[i - 1];
        }
      }
    }
  }
}
