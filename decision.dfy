/**
 * Turning the network's output into a move: the arg-max over the output vector, the guard
 * that never lets the snake reverse, the one-hot target a key press trains, and the cell
 * `SuggestedDirection` marks.
 */
module Decision {
  import opened Grid
  import opened Moves

  datatype Option<T> = None | Some(value: T)

  /**
   * `enumerate().max_by(|(_, a), (_, b)| a.total_cmp(b)).map(|(index, _)| index)`:
   * a left fold in which a later element replaces the running maximum unless the maximum
   * is strictly greater, so the last of several equal maxima wins. None for an empty vector.
   */
  function ArgMax(v: seq<real>): (r: Option<nat>)
    ensures r.None? <==> v == []
    ensures r.Some? ==> r.value < |v|
    ensures r.Some? ==> forall j :: 0 <= j < |v| ==> v[j] <= v[r.value]
    ensures r.Some? ==> forall j :: r.value < j < |v| ==> v[j] < v[r.value]
  {
    if v == [] then None
    else if |v| == 1 then Some(0)
    else
      var best := ArgMax(v[..|v| - 1]).value;
      if v[best] > v[|v| - 1] then Some(best) else Some(|v| - 1)
  }

  /** The two properties of `ArgMax` determine the index: it is the last maximal one. */
  lemma ArgMaxUnique(v: seq<real>, i: nat)
    requires i < |v|
    requires forall j :: 0 <= j < |v| ==> v[j] <= v[i]
    requires forall j :: i < j < |v| ==> v[j] < v[i]
    ensures ArgMax(v) == Some(i)
  {
  }

  /** The direction output slot `index` stands for: up, left, right, down. */
  function IndexDirection(index: nat): Option<Direction>
  {
    if index == 0 then Some(Up)
    else if index == 1 then Some(Left)
    else if index == 2 then Some(Right)
    else if index == 3 then Some(Down)
    else None
  }

  /** The new `snake.d` for the chosen output slot, given the direction before. */
  function Decide(index: nat, last: Direction): (r: Direction)
    ensures r != Reverse(last)
    ensures match IndexDirection(index)
      case Some(d) => r == (if d == Reverse(last) then last else d)
      case None => r == last
  {
    if index == 0 && last != Down then Up
    else if index == 1 && last != Right then Left
    else if index == 2 && last != Left then Right
    else if index == 3 && last != Up then Down
    else last
  }

  /** The keyboard keys the game reacts to; any other button is `OtherButton`. */
  datatype Key = ArrowUp | ArrowLeft | ArrowRight | ArrowDown | OtherButton

  /** The direction an arrow key asks for. */
  function KeyDirection(key: Key): Option<Direction>
  {
    match key
    case ArrowUp => Some(Up)
    case ArrowLeft => Some(Left)
    case ArrowRight => Some(Right)
    case ArrowDown => Some(Down)
    case OtherButton => None
  }

  /**
   * The training target for a key press: one-hot over (up, left, right, down) on the
   * key's direction, or all zeros when the key is not an arrow or would reverse the snake.
   */
  function Target(key: Key, last: Direction): (t: seq<real>)
    ensures |t| == 4
    ensures forall i :: 0 <= i < 4 ==> t[i] == 0.0 || t[i] == 1.0
    ensures forall i :: 0 <= i < 4 ==>
      (t[i] == 1.0 <==> KeyDirection(key).Some? && IndexDirection(i) == KeyDirection(key)
                        && KeyDirection(key).value != Reverse(last))
  {
    if key == ArrowUp && last != Down then [1.0, 0.0, 0.0, 0.0]
    else if key == ArrowLeft && last != Right then [0.0, 1.0, 0.0, 0.0]
    else if key == ArrowRight && last != Left then [0.0, 0.0, 1.0, 0.0]
    else if key == ArrowDown && last != Up then [0.0, 0.0, 0.0, 1.0]
    else [0.0, 0.0, 0.0, 0.0]
  }

  /**
   * A network reproducing a key's one-hot target exactly would steer the snake the way
   * the key asks: the arg-max of the target, through the guard, is the key's direction.
   */
  lemma TargetLeadsToKey(key: Key, last: Direction)
    requires KeyDirection(key).Some? && KeyDirection(key).value != Reverse(last)
    ensures ArgMax(Target(key, last)).Some?
    ensures Decide(ArgMax(Target(key, last)).value, last) == KeyDirection(key).value
  {
    var t := Target(key, last);
    var i: nat := if key == ArrowUp then 0 else if key == ArrowLeft then 1 else if key == ArrowRight then 2 else 3;
    assert t[i] == 1.0;
    ArgMaxUnique(t, i);
  }

  /**
   * An ignored key trains the all-zero target; its arg-max is the last slot (down), so a
   * network reproducing it would turn the snake down unless it is moving up.
   */
  lemma IgnoredKeyLeadsDown(key: Key, last: Direction)
    requires KeyDirection(key).None? || KeyDirection(key).value == Reverse(last)
    ensures ArgMax(Target(key, last)) == Some(3)
    ensures Decide(3, last) == (if last == Up then Up else Down)
  {
    var t := Target(key, last);
    assert forall i :: 0 <= i < 4 ==> t[i] == 0.0;
    ArgMaxUnique(t, 3);
  }

  /**
   * The cell `SuggestedDirection` marks for output slot `index`: the neighbour in the
   * slot's direction, with `saturating_sub` clamping moves off the top or left edge to
   * the head itself; the head for a slot beyond the four directions.
   */
  function SuggestedCell(index: nat, head: Piece): (c: Piece)
    requires head.x < U32_MAX && head.y < U32_MAX
    ensures match IndexDirection(index)
      case None => c == head
      case Some(d) =>
        && c.x == (if head.x + DX(d) < 0 then 0 else head.x + DX(d))
        && c.y == (if head.y + DY(d) < 0 then 0 else head.y + DY(d))
  {
    if index == 0 then Piece(head.x, Dec(head.y))
    else if index == 1 then Piece(Dec(head.x), head.y)
    else if index == 2 then Piece(head.x + 1, head.y)
    else if index == 3 then Piece(head.x, head.y + 1)
    else head
  }

  /** Away from the top and left edges, the suggested cell is where the snake would move. */
  lemma SuggestedCellIsNextCell(index: nat, head: Piece)
    requires head.x < U32_MAX && head.y < U32_MAX
    requires IndexDirection(index).Some? && CanShift(head, IndexDirection(index).value)
    ensures SuggestedCell(index, head) == Next(head, IndexDirection(index).value)
  {
  }
}
