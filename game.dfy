/**
 * The game objects as the program keeps them: a Snake and an Apple whose
 * fields are updated in place, the key handler that writes the snake's
 * buffered turn, and one pass of the main loop body.
 */
module Game {

  import opened Board
  import opened Wrappers
  import Keys
  import SnakeRules

  class Snake {
    var positions: seq<Position>
    var direction: Direction
    var length: int
    var nextDirection: Option<Direction>
    var last: Option<Position>

    /** The snake's fields as a value, to compare with the rules. */
    function State(): SnakeRules.SnakeState
      reads this
    {
      SnakeRules.SnakeState(positions, direction, length, nextDirection, last)
    }

    predicate Valid()
      reads this
    {
      SnakeRules.Valid(State())
    }

    constructor (position: Position)
      ensures State() == SnakeRules.Fresh(position)
    {
      positions := [position];
      direction := Right;
      length := 1;
      nextDirection := None;
      last := None;
    }

    method UpdateDirection()
      modifies this
      ensures State() == SnakeRules.UpdateDirection(old(State()))
    {
      if nextDirection.Some? {
        direction := nextDirection.value;
        nextDirection := None;
      }
    }

    method Move()
      requires Valid()
      modifies this
      ensures Valid()
      ensures State() == SnakeRules.Move(old(State()))
    {
      UpdateDirection();
      var head := GetHeadPosition();
      var newHead := NextHead(head, direction);
      positions := [newHead] + positions;
      if |positions| > length {
        last := Some(positions[|positions| - 1]);
        positions := positions[..|positions| - 1];
      }
    }

    method Reset()
      modifies this
      ensures Valid()
      ensures State() == SnakeRules.Fresh(CenterPosition)
    {
      positions := [CenterPosition];
      direction := Right;
      length := 1;
      nextDirection := None;
      last := None;
    }

    method Grow()
      modifies this
      ensures State() == SnakeRules.Grow(old(State()))
    {
      length := length + 1;
    }

    function GetHeadPosition(): Position
      reads this
      requires |positions| > 0
    {
      positions[0]
    }
  }

  class Apple {
    var position: Position

    /** A new apple is placed on a free cell straight away. */
    constructor (occupied: seq<Position>)
      requires HasFreeCell(occupied)
      ensures IsGridCell(position) && position !in occupied
    {
      position := CenterPosition;
      new;
      RandomizePosition(occupied);
    }

    /**
     * Moves the apple to a grid cell outside occupied. The choice stands for
     * the program's retry loop over random cells, which stops at the first
     * free one; it never returns while no cell is free.
     */
    method RandomizePosition(occupied: seq<Position>)
      requires HasFreeCell(occupied)
      modifies this
      ensures IsGridCell(position) && position !in occupied
    {
      var col, row :| InGrid(col, row) && CellAt(col, row) !in occupied;
      CellAtIsGridCell(col, row);
      position := CellAt(col, row);
    }
  }

  /** Processes a batch of events in order; an accepted arrow key replaces the buffered turn. */
  method HandleKeys(snake: Snake, events: seq<Keys.Event>)
    modifies snake`nextDirection
    ensures snake.State() == old(snake.State()).(
      nextDirection := Keys.PendingAfter(old(snake.direction), old(snake.nextDirection), events))
  {
    for i := 0 to |events|
      invariant snake.State() == old(snake.State()).(
        nextDirection := Keys.PendingAfter(old(snake.direction), old(snake.nextDirection), events[..i]))
    {
      assert events[..i + 1][..i] == events[..i];
      match events[i]
      case KeyDown(key) =>
        var accepted := Keys.AcceptKey(snake.direction, key);
        if accepted.Some? {
          snake.nextDirection := accepted;
        }
      case OtherEvent =>
    }
    assert events[..|events|] == events;
  }

  /** Creates the snake at the center and an apple off it. */
  method NewGame() returns (snake: Snake, apple: Apple)
    ensures fresh(snake) && fresh(apple)
    ensures snake.State() == SnakeRules.Fresh(CenterPosition)
    ensures SnakeRules.GameInv(snake.State(), apple.position)
  {
    snake := new Snake(CenterPosition);
    FreeCellExists(snake.positions);
    apple := new Apple(snake.positions);
  }

  /**
   * One pass of the main loop: handle the keys, move, eat the apple if the
   * head reached it (grow and re-place the apple off the body), then reset
   * the snake if its head lies on its body from index 2 on. The apple is not
   * re-placed on a reset. When the head reaches the apple, the moved body
   * must leave a cell free: on a full board the program's placement loop
   * never ends.
   */
  method Tick(snake: Snake, apple: Apple, events: seq<Keys.Event>)
    requires snake.Valid()
    requires SnakeRules.Eats(snake.State(), events, apple.position) ==>
      |SnakeRules.Moved(snake.State(), events).positions| < BoardCells
    modifies snake, apple
    ensures snake.State() == SnakeRules.Tick(old(snake.State()), events, old(apple.position))
    ensures SnakeRules.Eats(old(snake.State()), events, old(apple.position)) ==>
      IsGridCell(apple.position) &&
      apple.position !in SnakeRules.Fed(old(snake.State()), events, old(apple.position)).positions
    ensures !SnakeRules.Eats(old(snake.State()), events, old(apple.position)) ==>
      apple.position == old(apple.position)
    ensures SnakeRules.GameInv(old(snake.State()), old(apple.position)) ==>
      SnakeRules.GameInv(snake.State(), apple.position)
  {
    ghost var s0, apple0 := snake.State(), apple.position;
    HandleKeys(snake, events);
    snake.Move();
    if snake.GetHeadPosition() == apple.position {
      snake.Grow();
      FreeCellExists(snake.positions);
      apple.RandomizePosition(snake.positions);
    }
    if |snake.positions| > 2 && snake.GetHeadPosition() in snake.positions[2..] {
      snake.Reset();
    }
    if SnakeRules.GameInv(s0, apple0) {
      SnakeRules.TickPreservesGameInv(s0, events, apple0, apple.position);
    }
  }
}
