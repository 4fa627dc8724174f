/**
 * The game state and one tick of it (`World`, `Food` and `SuggestedDirection` in src/world.rs):
 * moving the snake, keeping the score, relocating eaten food, and steering the snake from the
 * network's output, with or without a key press to train on.
 */
module Game {
  import opened Grid
  import opened Moves
  import opened Sensing
  import opened Decision
  import opened Net

  /** Epochs of training per key press. */
  const PRESS_EPOCHS: nat := 10

  class Food {
    var x: U32
    var y: U32

    constructor (x: U32, y: U32)
      ensures this.x == x && this.y == y
    {
      this.x := x;
      this.y := y;
    }

    /**
     * Report whether the snake's head is on the food; if so move the food to a cell of the
     * grid the snake does not cover (the random retry loop, as a choice of such a cell).
     */
    method Update(s: Snake, cols: U32, rows: U32) returns (eaten: bool)
      requires s.parts != []
      requires s.parts[0] == Piece(x, y) ==> HasFreeCell(s.parts, cols, rows)
      modifies this
      ensures eaten <==> s.parts[0] == old(Piece(x, y))
      ensures eaten ==> x < cols && y < rows && !s.IsCollide(x, y)
      ensures !eaten ==> x == old(x) && y == old(y)
    {
      var front := s.parts[0];
      if front.x == x && front.y == y {
        ghost var freeX: U32, freeY: U32 :| freeX < cols && freeY < rows && !AnyAt(s.parts, freeX, freeY);
        assert !s.IsCollide(freeX, freeY);
        var newX: U32, newY: U32 :| newX < cols && newY < rows && !s.IsCollide(newX, newY);
        x, y := newX, newY;
        eaten := true;
      } else {
        eaten := false;
      }
    }
  }

  /** The cell the network currently suggests, drawn as a hint. */
  class SuggestedDirection {
    var x: U32
    var y: U32

    constructor (x: U32, y: U32)
      ensures this.x == x && this.y == y
    {
      this.x := x;
      this.y := y;
    }

    /** Mark the cell next to the head in the direction the network rates highest. */
    method Update(s: Snake, food: Food, cols: U32, rows: U32, network: Network)
      requires s.parts != [] && HeadFits(s.parts[0])
      requires network.Valid() && network.inputSize == CELLS && network.outputSize > 0
      modifies this
      ensures var env := Environment(s.parts[0], s.parts, Piece(food.x, food.y), cols, rows);
        Piece(x, y) == SuggestedCell(ArgMax(network.FeedForward(env)).value, s.parts[0])
    {
      var env := Environment(s.parts[0], s.parts, Piece(food.x, food.y), cols, rows);
      var output := network.FeedForward(env);
      var index := ArgMax(output).value;
      var cell := SuggestedCell(index, s.parts[0]);
      x, y := cell.x, cell.y;
    }
  }

  class World {
    const rows: U32
    const cols: U32
    const snake: Snake
    var justEaten: bool
    const food: Food
    const suggested: SuggestedDirection
    var score: U32
    const network: Network

    /**
     * The snake is non-empty and inside the grid, and the network takes the eight readings
     * and rates the four directions.
     */
    ghost predicate Valid()
      reads this, snake, network
    {
      && 0 < cols && 0 < rows
      && snake.parts != [] && AllInGrid(snake.parts, cols, rows)
      && network.Valid() && network.inputSize == CELLS && network.outputSize == 4
    }

    /** The world `main` builds: a two-piece snake in the middle heading down, food at (1, 1). */
    constructor (cols: U32, rows: U32, network: Network)
      requires 0 < cols && 0 < rows
      requires network.Valid() && network.inputSize == CELLS && network.outputSize == 4
      ensures Valid()
      ensures this.cols == cols && this.rows == rows && this.network == network
      ensures snake.parts == [Piece(cols / 2, rows / 2), Piece(cols / 2, rows / 2)] && snake.d == Down
      ensures food.x == 1 && food.y == 1 && suggested.x == 0 && suggested.y == 0
      ensures score == 0 && !justEaten
    {
      this.cols := cols;
      this.rows := rows;
      this.network := network;
      snake := new Snake([Piece(cols / 2, rows / 2), Piece(cols / 2, rows / 2)], Down);
      food := new Food(1, 1);
      suggested := new SuggestedDirection(0, 0);
      score := 0;
      justEaten := false;
    }

    /** The snake after this tick's move. */
    ghost function Moved(): Outcome
      reads this, snake, network
      requires Valid()
    {
      MoveKeepsInGrid(snake.parts, snake.d, justEaten, cols, rows);
      Step(snake.parts, snake.d, justEaten, cols, rows)
    }

    /**
     * What the tick needs of its `u32` score and of the food relocation loop: the score
     * can be incremented, and when the head reaches the food a free cell remains.
     */
    ghost predicate TickDefined()
      reads this, snake, food, network
      requires Valid()
    {
      Moved().ok ==>
        && (justEaten ==> score < U32_MAX)
        && (Moved().parts[0] == Piece(food.x, food.y) ==> HasFreeCell(Moved().parts, cols, rows))
    }

    /**
     * One tick: move the snake and refresh the suggestion; on a failed move report false
     * with the score and food untouched. Otherwise count the food eaten on the previous
     * tick, then record whether the head is now on the food (relocating it if so).
     */
    method Update() returns (alive: bool)
      requires Valid() && TickDefined()
      modifies this, snake, food, suggested
      ensures Valid()
      ensures snake.d == old(snake.d)
      ensures alive == old(Moved()).ok && snake.parts == old(Moved()).parts
      ensures var env := Environment(snake.parts[0], snake.parts, old(Piece(food.x, food.y)), cols, rows);
        Piece(suggested.x, suggested.y) == SuggestedCell(ArgMax(network.FeedForward(env)).value, snake.parts[0])
      ensures !alive ==> score == old(score) && justEaten == old(justEaten)
      ensures !alive ==> food.x == old(food.x) && food.y == old(food.y)
      ensures alive ==> score == old(score) + (if old(justEaten) then 1 else 0)
      ensures alive ==> (justEaten <==> snake.parts[0] == old(Piece(food.x, food.y)))
      ensures alive && justEaten ==> food.x < cols && food.y < rows && !snake.IsCollide(food.x, food.y)
      ensures alive && !justEaten ==> food.x == old(food.x) && food.y == old(food.y)
    {
      MoveKeepsInGrid(snake.parts, snake.d, justEaten, cols, rows);
      MoveKeepsSnake(snake.parts, snake.d, justEaten, cols, rows);
      var moved := snake.Update(justEaten, cols, rows);
      suggested.Update(snake, food, cols, rows, network);
      if !moved {
        return false;
      }
      if justEaten {
        score := score + 1;
        justEaten := false;
      }
      justEaten := food.Update(snake, cols, rows);
      alive := true;
    }

    /**
     * A key press: train the network on the current readings with the key's target, then
     * steer by the retrained network's output, never reversing. `retrained` stands for what
     * the network computes after the training call.
     */
    method Pressed(key: Key, retrained: seq<real> -> seq<real>)
      requires Valid()
      requires forall input: seq<real> | |input| == CELLS :: |retrained(input)| == 4
      modifies snake, network
      ensures Valid()
      ensures snake.parts == old(snake.parts)
      ensures var env := Environment(snake.parts[0], snake.parts, Piece(food.x, food.y), cols, rows);
        && network.history == old(network.history) + [TrainingCall([env], [Target(key, old(snake.d))], PRESS_EPOCHS)]
        && network.forward == retrained
        && snake.d == Decide(ArgMax(retrained(env)).value, old(snake.d))
      ensures snake.d != Reverse(old(snake.d))
    {
      var lastDirection := snake.d;
      var target := Target(key, lastDirection);
      var env := Environment(snake.parts[0], snake.parts, Piece(food.x, food.y), cols, rows);
      network.Train([env], [target], PRESS_EPOCHS, retrained);
      var output := network.FeedForward(env);
      snake.d := Decide(ArgMax(output).value, lastDirection);
    }

    /** No key pressed this tick: steer by the network's output, never reversing. */
    method Automatic()
      requires Valid()
      modifies snake
      ensures Valid()
      ensures snake.parts == old(snake.parts)
      ensures var env := Environment(snake.parts[0], snake.parts, Piece(food.x, food.y), cols, rows);
        snake.d == Decide(ArgMax(network.FeedForward(env)).value, old(snake.d))
      ensures snake.d != Reverse(old(snake.d))
    {
      var lastDirection := snake.d;
      var env := Environment(snake.parts[0], snake.parts, Piece(food.x, food.y), cols, rows);
      var output := network.FeedForward(env);
      snake.d := Decide(ArgMax(output).value, lastDirection);
    }
  }

  /**
   * The food relocation needs a free cell only when the head lands on the food; a snake at
   * least two pieces shorter than the grid has cells always leaves one after its move.
   */
  lemma RelocationPossible(parts: seq<Piece>, d: Direction, justEaten: bool, cols: U32, rows: U32)
    requires parts != [] && AllInGrid(parts, cols, rows)
    requires |parts| + 1 < cols * rows
    ensures MoveDefined(parts[0], d, cols, rows)
    ensures HasFreeCell(Step(parts, d, justEaten, cols, rows).parts, cols, rows)
  {
    MoveKeepsInGrid(parts, d, justEaten, cols, rows);
    var r := Step(parts, d, justEaten, cols, rows);
    assert |r.parts| <= |parts| + 1;
    FreeCellWhenShorter(r.parts, cols, rows);
  }
}
