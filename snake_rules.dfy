/**
 * The snake as a value, and the rules of the game as functions on it: what
 * one move, one growth, a reset and one whole tick of the game loop do.
 * The mutable Snake class in module Game is proved to follow these rules.
 */
module SnakeRules {

  import opened Board
  import opened Wrappers
  import Keys

  /**
   * positions is head first; length is the target the body grows to;
   * nextDirection is the turn buffered for the next move; last is the tail
   * cell most recently removed, kept for the renderer.
   */
  datatype SnakeState = SnakeState(
    positions: seq<Position>,
    direction: Direction,
    length: int,
    nextDirection: Option<Direction>,
    last: Option<Position>)

  /** The body is never empty and never longer than the target length. */
  predicate Valid(s: SnakeState) {
    |s.positions| > 0 && 1 <= s.length && |s.positions| <= s.length
  }

  /** Every cell of the body is a grid cell. */
  predicate OnBoard(s: SnakeState) {
    forall i :: 0 <= i < |s.positions| ==> IsGridCell(s.positions[i])
  }

  /** The body has reached its target length. */
  predicate Steady(s: SnakeState) {
    |s.positions| == s.length
  }

  /** The body is at its target length or one cell short of it. */
  predicate AtMostOnePending(s: SnakeState) {
    |s.positions| <= s.length <= |s.positions| + 1
  }

  /** The head is one step from the segment behind it, in the current direction. */
  predicate NeckFollows(s: SnakeState) {
    |s.positions| >= 2 ==> s.positions[0] == NextHead(s.positions[1], s.direction)
  }

  /** A snake of one cell at position, heading right, with nothing buffered or removed. */
  function Fresh(position: Position): (s: SnakeState)
    ensures Valid(s) && Steady(s) && NeckFollows(s)
    ensures s.positions == [position] && s.direction == Right && s.length == 1
    ensures s.nextDirection == None && s.last == None
  {
    SnakeState([position], Right, 1, None, None)
  }

  function Head(s: SnakeState): Position
    requires |s.positions| > 0
  {
    s.positions[0]
  }

  /** A buffered turn becomes the direction and the buffer is cleared. */
  function UpdateDirection(s: SnakeState): (r: SnakeState)
    ensures r.direction == (if s.nextDirection.Some? then s.nextDirection.value else s.direction)
    ensures r.nextDirection == None
    ensures r.positions == s.positions && r.length == s.length && r.last == s.last
  {
    if s.nextDirection.Some? then s.(direction := s.nextDirection.value, nextDirection := None) else s
  }

  /**
   * One move: apply the buffered turn, put the wrapped next head in front,
   * and drop the tail cell into last when the body is now over its length.
   */
  function Move(s: SnakeState): (r: SnakeState)
    requires |s.positions| > 0
    ensures |r.positions| > 0 && OnScreen(Head(r))
    ensures r.length == s.length && r.nextDirection == None
    ensures Valid(s) ==> Valid(r)
  {
    var t := UpdateDirection(s);
    var inserted := [NextHead(Head(t), t.direction)] + t.positions;
    if |inserted| > t.length then
      t.(positions := inserted[..|inserted| - 1], last := Some(inserted[|inserted| - 1]))
    else
      t.(positions := inserted)
  }

  /** Growth only raises the target; the body lengthens on the next move. */
  function Grow(s: SnakeState): (r: SnakeState)
    ensures r.length == s.length + 1
    ensures r.positions == s.positions && r.direction == s.direction
    ensures r.nextDirection == s.nextDirection && r.last == s.last
    ensures Valid(s) ==> Valid(r)
    ensures Steady(s) ==> AtMostOnePending(r)
  {
    s.(length := s.length + 1)
  }

  /** The head lies on the body at index 2 or further back. */
  predicate Collides(positions: seq<Position>)
    ensures Collides(positions) <==> exists i :: 2 <= i < |positions| && positions[i] == positions[0]
  {
    |positions| > 2 && positions[0] in positions[2..]
  }

  /** The move turns by the buffered direction, if any, before computing the head. */
  lemma MoveAppliesBufferedTurn(s: SnakeState)
    requires |s.positions| > 0
    ensures Move(s).direction == (if s.nextDirection.Some? then s.nextDirection.value else s.direction)
    ensures Head(Move(s)) == NextHead(Head(s), Move(s).direction)
  {
  }

  /**
   * After a move the new head leads and the old body follows unchanged and
   * in order, less at most its last cell; that cell is dropped, and stored in
   * last, exactly when the body with the new head exceeds the length.
   */
  lemma MoveKeepsBody(s: SnakeState)
    requires |s.positions| > 0
    ensures var r := Move(s);
      |s.positions| <= |r.positions| <= |s.positions| + 1 &&
      r.positions[1..] == s.positions[..|r.positions| - 1]
    ensures var r := Move(s);
      if |s.positions| + 1 > s.length then
        |r.positions| == |s.positions| && r.last == Some(s.positions[|s.positions| - 1])
      else
        |r.positions| == |s.positions| + 1 && r.last == s.last
  {
  }

  /** A move keeps every cell on the board and the head one step ahead of its neck. */
  lemma MovePreservesShape(s: SnakeState)
    requires |s.positions| > 0 && OnBoard(s)
    ensures OnBoard(Move(s)) && NeckFollows(Move(s))
  {
  }

  /** A body at most one cell short of its length reaches the length on the next move. */
  lemma MoveReachesTarget(s: SnakeState)
    requires |s.positions| > 0 && AtMostOnePending(s)
    ensures Steady(Move(s))
  {
  }

  /**
   * Growth lag: growing a steady snake and then moving lengthens the body by
   * exactly one cell, keeping the whole old body behind the new head.
   */
  lemma GrowthLag(s: SnakeState)
    requires Valid(s) && Steady(s)
    ensures |Grow(s).positions| == |s.positions|
    ensures |Move(Grow(s)).positions| == |s.positions| + 1
    ensures Move(Grow(s)).positions[1..] == s.positions
  {
  }

  /** The calls the game makes on a snake. */
  datatype Op = MoveOp | GrowOp

  /** Apply the calls in order. */
  function Run(s: SnakeState, ops: seq<Op>): (r: SnakeState)
    requires Valid(s)
    ensures Valid(r) && r.length >= s.length
    decreases |ops|
  {
    if ops == [] then s
    else
      var t := Run(s, ops[..|ops| - 1]);
      match ops[|ops| - 1]
      case MoveOp => Move(t)
      case GrowOp => Grow(t)
  }

  /** No two growths without a move in between. */
  predicate GrowthsSeparated(ops: seq<Op>) {
    forall i :: 0 < i < |ops| && ops[i] == GrowOp ==> ops[i - 1] == MoveOp
  }

  /**
   * Length bookkeeping: from a steady snake, with at most one growth between
   * moves, the body is never more than one cell short, and after every move
   * it has exactly the target length.
   */
  lemma {:induction false} RunKeepsBookkeeping(s: SnakeState, ops: seq<Op>)
    requires Valid(s) && Steady(s)
    requires GrowthsSeparated(ops)
    ensures AtMostOnePending(Run(s, ops))
    ensures ops == [] || ops[|ops| - 1] == MoveOp ==> Steady(Run(s, ops))
  {
    if ops != [] {
      var init := ops[..|ops| - 1];
      assert GrowthsSeparated(init) by {
        forall i | 0 < i < |init| && init[i] == GrowOp ensures init[i - 1] == MoveOp {
          assert ops[i] == init[i] && ops[i - 1] == init[i - 1];
        }
      }
      RunKeepsBookkeeping(s, init);
      var t := Run(s, init);
      if ops[|ops| - 1] == MoveOp {
        MoveReachesTarget(t);
      } else if init != [] {
        assert init[|init| - 1] == ops[|ops| - 2];
      }
    }
  }

  /**
   * With a turn that does not reverse the direction, the new head never lands
   * on the segment just behind the old head.
   */
  lemma HeadNeverReversesOntoNeck(s: SnakeState)
    requires |s.positions| >= 2 && OnBoard(s) && NeckFollows(s)
    requires s.nextDirection != Some(s.direction.Opposite())
    ensures Head(Move(s)) != s.positions[1]
  {
  }

  /** A snake of at most three cells after a move cannot have collided with itself. */
  lemma ShortSnakeNeverCollides(s: SnakeState)
    requires |s.positions| > 0 && OnBoard(s) && NeckFollows(s)
    requires s.nextDirection != Some(s.direction.Opposite())
    requires |Move(s).positions| <= 3
    ensures !Collides(Move(s).positions)
  {
  }

  // One tick of the game loop: handle keys, move, eat, check for collision.

  /** The snake after the key events of the tick have set its buffered turn. */
  function Keyed(s: SnakeState, events: seq<Keys.Event>): SnakeState {
    s.(nextDirection := Keys.PendingAfter(s.direction, s.nextDirection, events))
  }

  function Moved(s: SnakeState, events: seq<Keys.Event>): SnakeState
    requires |s.positions| > 0
  {
    Move(Keyed(s, events))
  }

  /** The moved head lands on the apple. */
  predicate Eats(s: SnakeState, events: seq<Keys.Event>, apple: Position)
    requires |s.positions| > 0
    ensures Eats(s, events, apple) <==> apple == NextHead(Head(s), Moved(s, events).direction)
  {
    Head(Moved(s, events)) == apple
  }

  /** The snake after the eating check: grown when the head reached the apple. */
  function Fed(s: SnakeState, events: seq<Keys.Event>, apple: Position): (r: SnakeState)
    requires |s.positions| > 0
    ensures r.positions == Moved(s, events).positions && r.direction == Moved(s, events).direction
    ensures r.nextDirection == None && r.last == Moved(s, events).last
    ensures r.length == s.length + (if Eats(s, events, apple) then 1 else 0)
  {
    var moved := Moved(s, events);
    if Head(moved) == apple then Grow(moved) else moved
  }

  /** The snake at the end of a tick: reset to the center after a self-collision. */
  function Tick(s: SnakeState, events: seq<Keys.Event>, apple: Position): (r: SnakeState)
    requires Valid(s)
    ensures Valid(r)
  {
    var fed := Fed(s, events, apple);
    if Collides(fed.positions) then Fresh(CenterPosition) else fed
  }

  /**
   * What a tick does to the snake: on a self-collision every field takes its
   * start value; otherwise the body is the moved body and the length grew by
   * exactly one when the apple was eaten.
   */
  lemma TickOutcome(s: SnakeState, events: seq<Keys.Event>, apple: Position)
    requires Valid(s)
    ensures var r := Tick(s, events, apple);
      if Collides(Fed(s, events, apple).positions) then
        r.positions == [CenterPosition] && r.direction == Right && r.length == 1 &&
        r.nextDirection == None && r.last == None
      else
        r.positions == Moved(s, events).positions &&
        r.length == s.length + (if Eats(s, events, apple) then 1 else 0)
    ensures Collides(Fed(s, events, apple).positions) <==> Collides(Moved(s, events).positions)
  {
  }

  /**
   * The state the game keeps between ticks. The apple is off the body except
   * right after a reset, which leaves the apple where it was, possibly on the
   * center cell.
   */
  predicate GameInv(s: SnakeState, apple: Position)
    ensures GameInv(s, apple) ==> forall i :: 1 <= i < |s.positions| ==> s.positions[i] != apple
  {
    Valid(s) && OnBoard(s) && AtMostOnePending(s) && NeckFollows(s) && s.nextDirection == None &&
    IsGridCell(apple) &&
    (apple !in s.positions || (s.positions == [CenterPosition] && s.length == 1))
  }

  /** Eating and dying never come from the same tick. */
  lemma EatingNeverCollides(s: SnakeState, events: seq<Keys.Event>, apple: Position)
    requires GameInv(s, apple) && Eats(s, events, apple)
    ensures !Collides(Fed(s, events, apple).positions)
  {
  }

  /** The snake's own neck never causes a collision: a tick ending with three cells or fewer never resets. */
  lemma NeckNeverCollides(s: SnakeState, events: seq<Keys.Event>)
    requires Valid(s) && OnBoard(s) && NeckFollows(s) && s.nextDirection == None
    requires |Moved(s, events).positions| <= 3
    ensures !Collides(Moved(s, events).positions)
  {
    Keys.PendingNeverReverses(s.direction, s.nextDirection, events);
    ShortSnakeNeverCollides(Keyed(s, events));
  }

  /** A tick keeps the snake valid, on the board, within one cell of its length and with its neck behind the head. */
  lemma TickKeepsShape(s: SnakeState, events: seq<Keys.Event>, apple: Position)
    requires GameInv(s, apple)
    ensures var r := Tick(s, events, apple);
      Valid(r) && OnBoard(r) && AtMostOnePending(r) && NeckFollows(r) && r.nextDirection == None
  {
    var keyed := Keyed(s, events);
    MovePreservesShape(keyed);
    MoveReachesTarget(keyed);
  }

  /** Outside a reset, a tick leaves the apple off the body. */
  lemma TickKeepsAppleOff(s: SnakeState, events: seq<Keys.Event>, apple: Position, newApple: Position)
    requires GameInv(s, apple)
    requires Eats(s, events, apple) ==> newApple !in Fed(s, events, apple).positions
    requires !Eats(s, events, apple) ==> newApple == apple
    ensures var r := Tick(s, events, apple);
      newApple !in r.positions || (r.positions == [CenterPosition] && r.length == 1)
  {
    MoveKeepsBody(Keyed(s, events));
  }

  /**
   * A tick keeps the game's invariant, provided a newly placed apple is a
   * free grid cell and an uneaten apple stays put.
   */
  lemma TickPreservesGameInv(s: SnakeState, events: seq<Keys.Event>, apple: Position, newApple: Position)
    requires GameInv(s, apple)
    requires Eats(s, events, apple) ==> IsGridCell(newApple) && newApple !in Fed(s, events, apple).positions
    requires !Eats(s, events, apple) ==> newApple == apple
    ensures GameInv(Tick(s, events, apple), newApple)
  {
    TickKeepsShape(s, events, apple);
    TickKeepsAppleOff(s, events, apple, newApple);
  }

  /**
   * A worked run from the start: three quiet ticks carry the head three cells
   * right with the length still 1; an apple on the next cell is eaten on the
   * fourth tick, and the body is two cells long one tick later.
   */
  lemma StartScenario()
    ensures var far := Position(0, 0);
      var s3 := Tick(Tick(Tick(Fresh(CenterPosition), [], far), [], far), [], far);
      var s4 := Tick(s3, [], Position(400, 240));
      Head(s3) == Position(380, 240) && s3.length == 1 && |s3.positions| == 1 &&
      Eats(s3, [], Position(400, 240)) && s4.length == 2 && s4.positions == [Position(400, 240)] &&
      Tick(s4, [], far).positions == [Position(420, 240), Position(400, 240)]
  {
    var far := Position(0, 0);
    var s0 := Fresh(CenterPosition);
    assert s0.positions == [Position(320, 240)];
    var s1 := Tick(s0, [], far);
    assert s1 == SnakeState([Position(340, 240)], Right, 1, None, Some(Position(320, 240)));
    var s2 := Tick(s1, [], far);
    assert s2 == SnakeState([Position(360, 240)], Right, 1, None, Some(Position(340, 240)));
    var s3 := Tick(s2, [], far);
    assert s3 == SnakeState([Position(380, 240)], Right, 1, None, Some(Position(360, 240)));
    var s4 := Tick(s3, [], Position(400, 240));
    assert s4 == SnakeState([Position(400, 240)], Right, 2, None, Some(Position(380, 240)));
    var s5 := Tick(s4, [], far);
    assert s5.positions == [Position(420, 240), Position(400, 240)];
  }
}
