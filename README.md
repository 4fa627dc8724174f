# Snake game steered by a neural network: a Dafny model of its game logic

The program is a snake game on a `cols` by `rows` grid whose snake is steered by a small
feed-forward neural network. Each tick the world moves the snake one cell, counts the food
eaten on the previous tick and relocates eaten food. Between ticks it reads the eight cells
around the snake's head into a sensor vector (-1 for border or body, 1 for food, 0 for empty).
It feeds that vector to the network and turns the highest-rated output into the snake's next
direction, never letting the snake reverse. A key press first trains the network on the
current sensor vector. The target is one-hot on the pressed arrow, or all zeros when the key
is not an arrow or the arrow would reverse the snake.

This project models that logic (src/world.rs) and proves what it guarantees:

- `grid.dfy` (module `Grid`): `u32` coordinates (`U32`), directions, cells.
  - `AnyAt` is `is_collide`'s scan.
  - A pigeonhole lemma: a snake shorter than the grid leaves a free cell.
- `snake.dfy` (module `Moves`): the class `Snake` and its in-place `Update`.
  - `Update` is proved to agree with the function `Step`.
  - Lemmas cover the border test, the tail dropped before the self-collision test, and the
    body kept non-empty and inside the grid.
- `sensing.dfy` (module `Sensing`): the sensor vector.
  - The code repeats it three times; here the function `Environment` states it once.
  - It is modelled cell by cell as written. Lemmas tie each reading to the geometric
    neighbour of the head.
  - One reading is irregular. The top-right reading asks `is_collide` about the right
    neighbour `(x + 1, y)`, but compares the food with the top-right cell `(x + 1, y - 1)`.
    `TopRightProbesRightNeighbour` states this exactly. `TopRightExample` shows a body piece
    on the top-right cell that reads as empty.
- `decision.dfy` (module `Decision`): the output-to-move mapping.
  - The arg-max over the network output.
  - The direction guard that never reverses.
  - The key-to-target mapping, and the lemma that a target's arg-max leads back to the key's
    direction.
  - The suggested-cell mapping with saturating subtraction.
- `network.dfy` (module `Net`): the network as the game sees it.
  - A class whose weights are abstracted to the function they compute.
  - It keeps a record of the training calls it receives.
- `world.dfy` (module `Game`): the classes `Food`, `SuggestedDirection` and `World`, with
  `World.Update` (one tick), `World.Pressed` and `World.Automatic`.

Debug-build panics become preconditions:
- `expect`/`unwrap` on an empty snake or an empty network output;
- the `u32` underflow of `rows - 1` and `cols - 1`;
- the overflow of `+ 1` and of `score += 1`.

For a snake inside the grid, lemmas show that the move and sensing preconditions always hold.

The arg-max follows Rust's `Iterator::max_by`, which keeps the LAST of several equal maxima.
A lower-index tie-break would be the natural reading of "arg-max", but the code does not do
that, and the model follows the code. `IgnoredKeyLeadsDown` shows one consequence: the
all-zero target of an ignored key has its maximum in the last slot, which is down.

## Model

| member | source | states |
|---|---|---|
| `Grid.AnyAt` | src/world.rs:397-399 | the scan is true exactly when some piece of the list lies on `(x, y)` |
| `Grid.FreeCellWhenShorter` | src/world.rs:412-421 | a snake with fewer pieces than the grid has cells leaves a cell free, so the relocation loop can find one |
| `Moves.Step` | src/world.rs:364-395 | the move as a function of the old body: its length changes by at most one, a successful move never shortens the snake, and without food just eaten it never grows |
| `Moves.Snake.constructor` | src/main.rs:122-130 | a new snake has the given pieces, head first, and heads in the given direction |
| `Moves.Snake.IsCollide` | src/world.rs:397-399 | `is_collide(x, y)` holds iff `(x, y)` is a piece of `snake_parts` |
| `Moves.Next` | src/world.rs:377-382 | the shifted head is the old head plus the one-cell offset of direction `d` |
| `Moves.Snake.Update` | src/world.rs:364-395 | the in-place move returns and leaves exactly what `Step` gives for the old body; the direction is unchanged |
| `Moves.InGridMoveDefined` | src/world.rs:369-382 | for a head inside the grid, `rows - 1`, `cols - 1` and the shift never trap, and the shifted head is inside the grid |
| `Moves.BorderMoveFails` | src/world.rs:369-375 | a head on the border in the direction of travel: the move returns false and the body is unchanged |
| `Moves.MoveFailsIffHitsBody` | src/world.rs:384-391 | past the border test the move fails iff the new head lies on a piece left after dropping the tail, and a failed move has already dropped the tail |
| `Moves.SuccessfulMove` | src/world.rs:377-394 | on success the new head is one cell in direction `d`, the length grows by one iff food was just eaten, and the other pieces keep their order |
| `Moves.MoveIntoVacatedTail` | src/world.rs:384-393 | moving into the cell the tail leaves succeeds, because the tail is dropped before the self-collision test |
| `Moves.MoveKeepsSnake` | src/world.rs:384-393 | no move empties the snake; after a failed move the head is the old head |
| `Moves.MoveKeepsInGrid` | src/world.rs:369-394 | a snake inside the grid stays inside after any move, successful or not |
| `Sensing.Reading` | src/world.rs:106-112 | a reading is -1, 0 or 1; it is -1 iff the cell is an obstacle, 1 iff it is no obstacle and holds the food (obstacle takes priority) |
| `Sensing.Environment` | src/world.rs:102-182 | the sensor vector has exactly 8 readings, each -1, 0 or 1 |
| `Sensing.SenseIsGeometric` | src/world.rs:104-182 | for a head inside the grid, every reading but the top-right one is -1 iff its neighbour is off the grid or on the snake, and 1 iff that neighbour is a free cell holding the food |
| `Sensing.TopRightProbesRightNeighbour` | src/world.rs:124-132 | the top-right reading tests the top and right edges and the body on the right neighbour `(x + 1, y)`, but the food on `(x + 1, y - 1)` |
| `Sensing.TopRightExample` | src/world.rs:124-132 | a body piece on the top-right cell reads as empty there, while one on the right cell reads as an obstacle |
| `Decision.ArgMax` | src/world.rs:189-194 | None iff the output is empty; otherwise an index of a maximal element with every later element strictly smaller (the last maximum) |
| `Decision.ArgMaxUnique` | src/world.rs:189-194 | an index that is maximal and strictly above every later element is the arg-max |
| `Decision.Decide` | src/world.rs:196-200 | the new direction is never the reverse of the last; it is the slot's direction unless that reverses, and the last direction for a reversing or out-of-range slot |
| `Decision.Target` | src/world.rs:81-91 | the target has 4 entries, each 0 or 1; an entry is 1 iff it is the pressed arrow's slot and that arrow does not reverse the snake |
| `Decision.TargetLeadsToKey` | src/world.rs:81-91 | the arg-max of a non-zero target, through the direction guard, is the pressed arrow's direction |
| `Decision.IgnoredKeyLeadsDown` | src/world.rs:90 | an ignored key's all-zero target has arg-max 3 (down), so the guard turns down unless moving up |
| `Decision.SuggestedCell` | src/world.rs:548-556 | the suggested cell is the neighbour in the slot's direction, clamped at 0 by `saturating_sub`, or the head for a slot beyond 3 |
| `Decision.SuggestedCellIsNextCell` | src/world.rs:548-556 | away from the top and left edges, the suggested cell is the cell the snake would move to in that direction |
| `Net.Network.constructor` | src/main.rs:36 | a new network computes the given function of the declared shape and has no training history |
| `Net.Network.FeedForward` | src/world.rs:187 | every output of an input of the first layer's size has the last layer's size |
| `Net.Network.Train` | src/world.rs:184-185 | a training call is recorded; the weights change only when there is at least one epoch and one pair, and keep their shape |
| `Game.Food.constructor` | src/main.rs:119 | the food starts at the given cell |
| `Game.Food.Update` | src/world.rs:409-426 | returns true iff the head is on the food; then the food moves to a grid cell off the snake, otherwise it stays |
| `Game.SuggestedDirection.constructor` | src/main.rs:120 | the suggestion starts at the given cell |
| `Game.SuggestedDirection.Update` | src/world.rs:450-593 | the suggestion becomes the suggested cell of the arg-max of the network's output on the current sensor vector |
| `Game.World.constructor` | src/main.rs:113-132 | the initial world: two pieces on the middle cell heading down, food at (1, 1), score 0, nothing eaten |
| `Game.World.Update` | src/world.rs:38-77 | returns false exactly when the snake's move fails, leaving score and food; on success the score rises by one iff food was eaten on the previous tick, and the eaten flag becomes whether the head is on the food, which then moves off the snake |
| `Game.World.Pressed` | src/world.rs:79-211 | trains once with the current sensor vector and the key's target for 10 epochs, then sets the direction from the retrained output, never reversing |
| `Game.World.Automatic` | src/world.rs:213-321 | sets the direction from the network's output on the current sensor vector, never reversing, and leaves the body alone |
| `Game.RelocationPossible` | src/world.rs:409-426 | a snake inside the grid and at least two pieces shorter than the grid has cells always leaves a free cell after its move |

## Left out

- Rendering (`World::render`, `Snake::render`, `Food::render`, `SuggestedDirection::render`),
  the `gl`, `width` and `square_width` fields: drawing through a graphics library.
- The window, event loop and key plumbing of src/main.rs:97-111 and 134-155: keys are the abstract `Key`
  (four arrows and any other button). The unused `_args` of `World::update` is dropped.
- The `println!` diagnostics and the commented-out code.
- The network engine (`network`, `matrix`, `activations`), which is not part of this model.
  - The weights are abstracted to the function they compute.
  - `Network::new`'s random initialisation is the function given to the constructor.
  - `Net.Network.Train`: what the gradient-descent updates compute is a parameter
    (`retrained`), which keeps the output shape. The update arithmetic itself is not modelled.
- The hard-coded training tables and the pre-training calls of src/main.rs:16-95: data.
- `f64`: sensor readings, targets and outputs are exact reals. The NaN and signed-zero
  ordering of `total_cmp` is not modelled.
- `Game.Food.Update`: the random retry loop is modelled as a choice of any free cell. The
  distribution of the choice is not modelled. The call requires that a free cell exists when
  the head is on the food, because otherwise the source loops forever.
- `Sensing.Environment`: the sensor vector is a sequence value. The code builds it by eight
  pushes onto a local `Vec`. Those pushes are straight-line code on a vector nothing else sees,
  so only the resulting value is modelled.
- `Game.World.Pressed`: `retrained` is the network after its training call, which the model
  does not compute.
