# Snake game state, modelled in Dafny

This project models the game-state simulation of a grid-based snake game
(`the_snake.py`). A snake moves on a 32 × 24 board of 20-pixel cells that
wraps around at every edge. It eats apples to grow, and it restarts at the
centre when its head runs into its own body. Positions are kept in pixels,
as the program keeps them: every coordinate is a multiple of the cell size.

Modules:

- `Wrappers` (`wrappers.dfy`): the `Option` type, which stands for Python's `None`.
- `Board` (`board.dfy`): the constants of lines 5-16 (`ScreenWidth`, `GridSize`,
  `GridWidth`, `CenterPosition`, …) and the four `Direction`s. It also holds
  `NextHead`, the wrap-around step of lines 103-104, and the pigeonhole lemma
  saying that a free cell exists for the apple.
- `Keys` (`keys.dfy`): the key-to-direction decision of `handle_keys`. It works
  on a sequence of events, not on pygame's queue.
- `SnakeRules` (`snake_rules.dfy`): the snake as a value (`SnakeState`) and the
  rules as functions: `Move`, `Grow`, `UpdateDirection`, `Fresh` (both the
  initial state and the reset state), `Collides` and one `Tick` of the main
  loop. It also holds the lemmas about these rules.
- `Game` (`game.dfy`): the mutable objects. `Snake` and `Apple` are classes whose
  fields change in place. `HandleKeys` is a loop over the events. `NewGame`
  sets up the game and `Tick` runs the main loop body once. The postconditions
  of the `Snake` methods (`UpdateDirection`, `Move`, `Reset`, `Grow`, the
  constructor) and of `Tick` tie the new snake state to the matching
  `SnakeRules` function. `HandleKeys` is tied to `Keys.PendingAfter`. The
  `Apple` constructor and `RandomizePosition` promise a grid cell outside the
  occupied positions. `Snake.GetHeadPosition` is the accessor for the first
  body cell that `Move` and `Tick` read.

Behaviours of the code that are easy to miss, and that the model keeps:

- After a self-collision only the snake is reset. The apple keeps its position
  (lines 172-176). So the apple may lie under the reset snake on the centre
  cell. `SnakeRules.GameInv` states the apple-off-body invariant with that one
  exception, and `TickPreservesGameInv` proves the exception is the only one.
- `last` keeps its previous value when no tail cell is removed. It is not
  cleared to "none" (lines 106-107).
- A reversed key is rejected by comparing it with the current `direction` when
  the key is handled, not with the buffered turn (lines 145-152). The
  buffered turn is applied at the start of the next move.
- Apple placement retries without bound and has no "board full" error
  (lines 67-72).
- Python's `%` with a positive divisor never returns a negative value. This
  matches Dafny's `%` on `int`, so `NextHead` uses it directly.
- `if self.next_direction:` tests a tuple, and a non-empty tuple is always
  true. So the test is the same as "a turn is buffered" (`Some?`).

## Model

| member | source | states |
|---|---|---|
| `Board.GridCellIffCellAt` | the_snake.py:68-69 | the positions the placement loop can draw, a column times the cell size and a row times the cell size, are exactly the on-screen, cell-aligned positions |
| `Board.NextHead` | the_snake.py:101-104 | the new head is always on screen. From an on-screen head, each coordinate moves by one cell in the direction and wraps back by the screen size if it left the screen. A grid cell steps to a grid cell |
| `Board.WrapsAtEdges` | the_snake.py:103-104 | x = 620 moving right gives x = 0, and x = 0 moving left gives x = 620. The same holds vertically for y = 460 and y = 0 |
| `Board.NextHeadInverse` | the_snake.py:103-104 | on a grid cell, a step followed by a step the opposite way returns to the start |
| `Board.NoImmediateReversal` | the_snake.py:103-104 | two steps return to the start only if the second is the exact reverse of the first |
| `Board.FreeCellExists` | the_snake.py:67-72 | if fewer positions are occupied than the board has cells, some column/row the retry loop can draw is free. So the loop can stop |
| `Board.Direction.Opposite` | the_snake.py:145-152 | the reverse direction has the negated unit vector and differs from the original |
| `Keys.KeyDirection` | the_snake.py:145-152 | exactly the four arrow keys name a direction; any other key names none |
| `Keys.AcceptKey` | the_snake.py:144-152 | a key press is accepted iff it is an arrow key whose direction is not the reverse of the current direction. An accepted key yields that key's direction |
| `Keys.HandleEvent` | the_snake.py:144-152 | an accepted key press sets the buffered turn to the key's direction; a rejected key or any other event leaves it unchanged |
| `Keys.PendingAfter` | the_snake.py:140-152 | after a batch of events the buffered turn is either the one buffered before or the direction of some accepted key press in the batch |
| `Keys.PendingNeverReverses` | the_snake.py:140-152 | handling a batch of events never buffers the exact reverse of the current direction |
| `Keys.RejectedKeysKeepPending` | the_snake.py:140-152 | rejected keys and non-key events leave the buffered turn unchanged |
| `Keys.LastAcceptedWins` | the_snake.py:140-152 | after a batch, the buffered turn is the direction of the last accepted key |
| `Game.HandleKeys` | the_snake.py:138-152 | the loop over events leaves the buffered turn equal to `Keys.PendingAfter` and changes no other field |
| `SnakeRules.Fresh` | the_snake.py:84-90 | a new or reset snake is one cell heading right, with length 1 and nothing buffered or removed. It is valid and at its target length |
| `SnakeRules.UpdateDirection` | the_snake.py:92-96 | a buffered turn becomes the direction; otherwise the direction stays. The buffer is empty afterwards and the body, length and `last` are unchanged |
| `SnakeRules.Move` | the_snake.py:98-107 | after a move the body is non-empty and the head is on screen. The length is unchanged and the buffered turn is cleared. The body stays within the target length |
| `SnakeRules.MoveAppliesBufferedTurn` | the_snake.py:92-104 | the buffered turn, if any, becomes the direction before the new head is computed from the old head |
| `SnakeRules.MoveKeepsBody` | the_snake.py:105-107 | the old body follows the new head unchanged and in order, less at most its last cell. That cell is removed into `last` exactly when the body with the new head exceeds `length`; otherwise `last` is unchanged |
| `SnakeRules.MovePreservesShape` | the_snake.py:101-107 | a move keeps every cell on the board, and the head is one step ahead of the next segment |
| `SnakeRules.MoveReachesTarget` | the_snake.py:105-107 | a body at most one cell short of its length reaches that length on the next move |
| `SnakeRules.Grow` | the_snake.py:119-121 | only the target length changes, by one. A valid snake stays valid, and a snake at its target length is afterwards one cell short |
| `SnakeRules.GrowthLag` | the_snake.py:105-121 | `grow` leaves the body as it is. On the next move the body gets exactly one cell longer and keeps the whole old body |
| `SnakeRules.Run` | the_snake.py:98-121 | any sequence of moves and growths keeps the body non-empty and within its target length |
| `SnakeRules.RunKeepsBookkeeping` | the_snake.py:86-121 | start from a snake at its target length and allow at most one growth between moves. Then the body is never more than one cell short, and it has exactly the target length after every move |
| `SnakeRules.Collides` | the_snake.py:172-174 | collision holds iff some index 2 or greater holds the head's cell |
| `SnakeRules.HeadNeverReversesOntoNeck` | the_snake.py:100-104 | with a buffered turn that does not reverse the direction, the new head never lands on the old neck |
| `SnakeRules.ShortSnakeNeverCollides` | the_snake.py:172-175 | a snake that has at most three cells after a legal move never registers a collision |
| `SnakeRules.Eats` | the_snake.py:166-168 | the apple is eaten iff it lies one step from the old head in the direction the move takes |
| `SnakeRules.Fed` | the_snake.py:166-169 | the eating step keeps the moved body, direction and `last` with no buffered turn, and raises the length by one iff the apple was eaten |
| `SnakeRules.Tick` | the_snake.py:165-176 | a tick of the main loop keeps the snake valid |
| `SnakeRules.TickOutcome` | the_snake.py:166-176 | after a collision the tick gives the start values: body `[CenterPosition]`, direction right, length 1, no buffered turn, no `last`. Otherwise the body is the moved body, and the length grew by exactly one iff the apple was eaten. Growing does not change the collision test |
| `SnakeRules.GameInv` | the_snake.py:160-176 | the state kept between ticks: under it the apple never lies on a body cell behind the head |
| `SnakeRules.EatingNeverCollides` | the_snake.py:168-176 | under the game invariant, a tick that eats the apple never resets the snake |
| `SnakeRules.NeckNeverCollides` | the_snake.py:165-175 | between ticks, a snake that has at most three cells after the move never collides with itself |
| `SnakeRules.TickKeepsShape` | the_snake.py:165-176 | under the game invariant, a tick leaves the snake valid and on the board, within one cell of its length, with its head one step ahead of its neck and no buffered turn |
| `SnakeRules.TickKeepsAppleOff` | the_snake.py:166-176 | if an eaten apple is re-placed off the fed body and an uneaten one stays put, then after the tick the apple is off the body. The only exception is a reset snake on the centre cell |
| `SnakeRules.TickPreservesGameInv` | the_snake.py:160-176 | a tick keeps the body valid, on the board and within one cell of its length. It keeps the head one step ahead of its neck and clears the buffered turn. It keeps the apple off the body, except on the centre cell right after a reset |
| `SnakeRules.StartScenario` | the_snake.py:160-176 | from the start, three ticks without input take the head from (320, 240) to (380, 240) at length 1. An apple at (400, 240) is eaten on the fourth tick, which raises the length to 2. The body is two cells long after the fifth tick |
| `Game.Snake.constructor` | the_snake.py:84-90 | a new snake has the start values at the given position |
| `Game.Snake.UpdateDirection` | the_snake.py:92-96 | a buffered turn becomes the direction and is cleared; with none buffered nothing changes |
| `Game.Snake.Move` | the_snake.py:98-107 | the in-place insert and pop produce `SnakeRules.Move` of the old state and keep the snake valid |
| `Game.Snake.Reset` | the_snake.py:109-115 | the fields take the start values at `CenterPosition` |
| `Game.Snake.Grow` | the_snake.py:119-121 | only `length` changes, by exactly one |
| `Game.Apple.constructor` | the_snake.py:61-63 | a new apple is on a grid cell outside the occupied positions |
| `Game.Apple.RandomizePosition` | the_snake.py:65-72 | the apple moves to a grid cell outside the occupied positions. This requires a free cell to exist |
| `Game.NewGame` | the_snake.py:160-161 | the game starts with the snake at the centre and the apple off it, which satisfies the game invariant |
| `Game.Tick` | the_snake.py:165-176 | the snake becomes `SnakeRules.Tick` of its old state. The apple is re-placed off the fed body iff it was eaten, and stays otherwise. The game invariant is preserved |

## Left out

- Rendering and timing are not modelled: the window, the caption, the clock, `clock.tick(SPEED)`, the `draw` methods, and the `screen.fill` and `display.update` calls inside `reset`.
- Colours and the `GameObject` base class with its `NotImplementedError` stub are presentation only. `Snake` and `Apple` are separate classes with just the fields the game logic uses.
- The `QUIT` event (`pygame.quit`, `SystemExit`) is process control. Events reach `HandleKeys` as a sequence of key presses and other events.
- The infinite `while True` loop of `main` is modelled as one `Tick` with an invariant that each tick preserves.
- `Game.Apple.RandomizePosition`: `randint` is replaced by a nondeterministic choice of a free column and row. The distribution and the number of retries are not modelled. The loop never ends on a full board, so the method requires a free cell to exist.
- `Game.Tick`: requires that a tick whose head reaches the apple leaves a free cell, that is, the moved body has fewer cells than the board. On such a tick with a full board the program's placement loop retries forever. Every other tick, including a non-eating tick at target length 768 that ends in a self-collision reset, is covered.
- Key codes are abstract (`ArrowUp`, …, `OtherKey`); pygame's numeric key constants are not modelled.
