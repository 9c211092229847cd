# Snake game state machine in Dafny

A model of the game logic of a React snake game (`src/App.js`): a snake moves
on a 20 x 20 grid once per timer tick, in the direction buffered from the
arrow keys; it dies on leaving the board or on landing on any of its own
segments, grows by one when it eats the food, and the food is then placed
again on a free cell. A stopped game restarts on any arrow key.

- `board.dfy`, module `Board`: cells and directions (`Point`), the board
  constants `COLS`/`ROWS`, the segment search (`Occupied`, the source's
  `snake.some(...)`), the new head, the collision test, and the shape a live
  snake keeps (`WellFormed`: on the board, no two segments on one cell, each
  segment next to the one before).
- `food.dfy`, module `Food`: `getRandomFood` as `RandomFood`, which picks
  any free cell; the random draw becomes a nondeterministic choice. A
  counting lemma shows a free cell exists whenever the snake has fewer
  segments than the board has cells.
- `game.dfy`, module `App`: the component's state as class `Game` (`snake`,
  committed `direction`, pending `nextDir` for `nextDirRef.current`, `food`,
  `score`, `running`), with `Tick` (the interval body), `HandleKey` (the
  keydown listener) and `Reset` (`resetGame`). `Valid()` is the invariant
  every reachable state keeps, running or stopped.

Two behaviours of the code worth knowing:

- The no-reversal rule compares a key's direction with the pending
  direction, not with the committed one. The handler tests one coordinate
  (`dir.y !== 1` for ArrowUp and so on); `HandleKey` is proved equal to the
  rule `Steer` ("replace the pending direction unless the key asks for its
  exact opposite"). `DoubleTurnReverses` shows the consequence: whatever the
  pending direction, two arrow keys before one tick can turn it into its
  opposite, and `DoubleTurnEndsGame` plays this out on a `Game`: a
  two-segment snake moving up gets Left then Down and dies on the next tick
  by running into its own second segment.
- No tick fires while the game is stopped, because the interval is only set
  up while `running` is true. `Tick` therefore leaves a stopped game
  unchanged instead of requiring it to be running.

## Model

| member | source | states |
|---|---|---|
| `Board.Occupied` | src/App.js:73 | the coordinate-by-coordinate scan from the head finds `p` exactly when `p` is a segment of the snake |
| `Board.NextHead` | src/App.js:64-67 | for a unit direction the new head is a different cell that shares a side with the old head |
| `Board.CollidesMeans` | src/App.js:70-73 | the collision test holds exactly when the new head is off the board or is a segment of the pre-move snake, the tail included |
| `Board.Advanced` | src/App.js:80-82 | the moved snake starts with the new head and continues with the old snake, one segment longer and with every old segment when food was eaten, the same length without the last segment otherwise |
| `Board.AdvancePreservesShape` | src/App.js:70-84 | a move that passes the collision test keeps the snake on the board, free of repeated cells and connected, whether it grows or not |
| `Board.AdvanceAvoids` | src/App.js:80-82 | food that was off the snake and is not eaten is still off the snake after the move |
| `Food.FreeCellWhenShort` | src/App.js:6-12 | a snake with fewer than `COLS * ROWS` segments leaves a cell on the board free, so the retry loop has a cell it can return |
| `Food.RandomFood` | src/App.js:5-13 | the food returned is on the board and is not a segment of the given snake |
| `App.KeyDirection` | src/App.js:99 | exactly the four arrow keys name a direction, and each names a unit direction |
| `App.SteerNeverReverses` | src/App.js:105-109 | steering keeps the pending direction a unit direction, never sets it to the opposite of itself, takes any other arrow key, and ignores non-arrow keys |
| `App.DoubleTurnReverses` | src/App.js:105-109 | for every unit pending direction there are two arrow keys that, pressed in turn, make the pending direction its exact opposite |
| `App.DoubleTurnEndsGame` | src/App.js:62-110 | on a running game whose snake is (10,10),(10,11) with pending direction up, the keys Left then Down followed by one tick stop the game |
| `App.Game.constructor` | src/App.js:17-24 | a new game is the single-segment snake at (10,10), direction and pending direction up, score 0, running, with food on the board off the snake |
| `App.Game.Reset` | src/App.js:115-122 | reset gives the same initial state as a new game, with freshly placed food not at (10,10) |
| `App.Game.Tick` | src/App.js:59-94 | a stopped game is unchanged; the game is still running afterwards exactly when it was running and the move did not collide; a wall or body hit stops the game and changes nothing else; a safe move sets the snake to the advanced snake, adds one to the score exactly when the head lands on the food, keeps the food unless eaten, commits the pending direction, and keeps the invariant (new food off the grown snake); score and length grow by 0 or 1 |
| `App.Game.HandleKey` | src/App.js:98-110 | while stopped an arrow key resets the game and any other key changes nothing; while running only the pending direction changes, to `Steer` of the old pending direction and the key |

## Left out

- Drawing on the canvas (src/App.js:27-56) and the `SIZE` constant: a projection of the state onto a host 2D context, with no game logic.
- `setInterval`/`clearInterval`, the effect dependencies and the `window` keydown listener registration: host timer and event plumbing. A tick and a key event are direct method calls.
- The JSX markup and the Restart button: the button only calls `resetGame`, which is `App.Game.Reset`.
- `Math.random`: the draw is replaced by a nondeterministic choice of a free cell, so the model does not say which free cell is chosen or how often.
- React state-update timing and stale closures: each tick and key event is an atomic update of one `Game` object.
- Food.RandomFood: requires that a free cell exists; the source's retry loop never returns when the snake covers the whole board.
- App.Game.Tick: requires that a move that eats the food leaves the grown snake shorter than the board; when the snake eats the last free cell the source's food spawner never returns, and that step is not modelled.
