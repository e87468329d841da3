# Snake game state machine in Dafny

This project models the game logic of a browser Snake game (`DOT_GAME`). The
board is a 20×20 grid. The snake is a head-first sequence of cells that moves
one cell per timer tick, and a single food cell makes the snake grow and adds
10 points when it is eaten. The arrow keys steer the snake; each arrow is
refused when it points straight back against the pending direction. Space
starts the game. A wall hit or a bite ends the game, and reset restores the
initial state.

- `board.dfy`, module `Board`: cells, the bounds test, the occupancy scan
  over the segments, the well-formedness of a snake (every segment on the
  board, no two on one cell), and a counting lemma: a free cell exists
  exactly when the snake is shorter than the 400 cells of the board.
- `render.dfy`, module `Render`: the classification of each cell as food,
  head, body or empty, and the row-major pass over the board that lists it.
- `game.dfy`, module `Game`: the initial constants and steering by key
  (`Steer`). It also holds one movement step as a value (`Advance`, giving
  `Wall`, `Bite`, `Eat` or `Slide`), the food search (`GenerateFood`) and
  the class `SnakeGame`. The class holds the six fields the component keeps
  (`snake`, `food`, `direction`, `score`, `gameStarted`, `gameOver`) and the
  handlers `Tick`, `KeyPress` and `Reset`, which update them in place.

`SnakeGame.Valid()` is the object invariant that every handler keeps:
- the snake is well formed;
- the food and every segment are on the board;
- the direction is one of the four unit steps;
- with `eaten` (a ghost count of foods eaten since the last reset), the snake
  has `1 + eaten` segments and the score is `10 × eaten`;
- a game that is over has been started.

The lifecycle `NotStarted → Running → Over → (reset) NotStarted` appears in
the handlers' contracts:
- `Tick` changes the stage only from `Running` to `Over`;
- `KeyPress` changes it only from `NotStarted` to `Running`, on space;
- `Reset` always gives `NotStarted`.

Three behaviours of the program are worth stating plainly:

- The food can land under the snake's new head. `generateFood` searches
  against the snake as it was before the step, because it closes over the
  state of the previous render (src/components/DOT_GAME.js:16-25, 63). The
  new head sits on the cell just eaten, which that old snake did not cover,
  so the new food may be placed there, and after the next step that cell is
  body. `Tick` therefore promises only that the new food is on the board
  and off the pre-step snake; the food is not kept off the current snake.
- Each arrow guard compares one component of the direction (for example,
  `ArrowUp` is refused when `direction.y` is 1,
  src/components/DOT_GAME.js:83-92). `Steer` follows the code, and its
  contract proves that for unit directions this refuses exactly the reverse
  direction.
- The guard compares against the pending direction, not the direction of
  the last step, and every accepted arrow updates the pending direction at
  once (src/components/DOT_GAME.js:83-99). Two arrows between ticks can
  therefore turn the snake back into its own neck: a running snake
  `[(10,10), (10,11)]` moving up that gets `ArrowLeft` then `ArrowDown`
  bites itself on the next tick and the game ends. `DoubleTurnScenario` in
  `game.dfy` derives this from the contracts of `KeyPress` and `Tick`.

## Model

| member | source | states |
|---|---|---|
| `Board.Occupies` | src/components/DOT_GAME.js:53 | the `some` scan over the segments is true exactly when the cell is one of the snake's segments |
| `Board.FreeCellIffNotFull` | src/components/DOT_GAME.js:16-25 | for a well-formed snake, the food search has a cell to find exactly when the snake is shorter than the 400 cells of the board |
| `Render.Classify` | src/components/DOT_GAME.js:112-122 | a cell is food iff it is the food cell; head iff it is the first segment and not food; body iff it is another segment and not food; empty iff it is neither food nor a segment |
| `Render.RenderGrid` | src/components/DOT_GAME.js:108-129 | the board has 20×20 cells, and the cell at row y, column x sits at position `y·20 + x` with the classification of (x, y) |
| `Game.Steer` | src/components/DOT_GAME.js:81-94 | non-arrow keys leave the direction unchanged; for a unit direction, an arrow gives its own direction unless that is the exact reverse of the current one, in which case the direction stays; unit directions stay unit |
| `Game.Advance` | src/components/DOT_GAME.js:39-68 | the new head is head + direction; off the board gives a wall hit; on a current segment (the tail included) gives a bite; on the food (a free cell) gives a body one longer, with the food cell in front of the old snake; otherwise gives a body of the same length, with the new head in front of the old snake minus its tail |
| `Game.AdvanceKeepsWellFormed` | src/components/DOT_GAME.js:47-58 | a step that eats or slides turns a well-formed snake into a well-formed snake: all segments on the board, none repeated |
| `Game.TailCellBites` | src/components/DOT_GAME.js:53-56 | corollary of `Advance`'s contract for the policy of line 53: moving onto the tail's cell ends the game, although a slide would vacate it in the same step |
| `Game.EatenCellStaysEligible` | src/components/DOT_GAME.js:16-25 | corollary of `Advance`'s contract: after eating, the new head is on the eaten food cell, and that cell is on the board and off the pre-step snake, so the search may put the new food under the new head |
| `Game.GenerateFood` | src/components/DOT_GAME.js:16-25 | given that a free cell exists, the chosen food is on the board and on no segment of the snake the search was given |
| `Game.SnakeGame.constructor` | src/components/DOT_GAME.js:4-14 | the initial state: snake `[(10,10)]`, food `(15,15)`, direction `(0,-1)`, score 0, both flags false; it satisfies the invariant |
| `Game.SnakeGame.Reset` | src/components/DOT_GAME.js:27-34 | every field returns to its initial value from any state; the stage is `NotStarted` |
| `Game.SnakeGame.Tick` | src/components/DOT_GAME.js:36-70 | nothing changes unless running; a wall hit or bite sets game over and leaves snake, food and score as they were; eating sets the snake to the grown body, adds exactly 10 to the score and places food on the board off the pre-step snake; a slide sets the snake to the moved body and keeps food and score; the direction and start flag never change; the invariant is kept |
| `Game.SnakeGame.KeyPress` | src/components/DOT_GAME.js:73-95 | space starts a game that has not started; otherwise keys act only while running, where the direction becomes `Steer(direction, key)`; snake, food, score and the game-over flag never change; the invariant is kept |

## Left out

- React's `useState`, `useCallback` and `useEffect`, setState batching and stale closures in general. Each `set*` call is a direct field assignment, and each handler is one atomic step. The only stale closure that affects the logic (the food search seeing the pre-step snake) is modelled explicitly.
- The 150 ms `setInterval` driver and the `keydown` listener's installation and removal (src/components/DOT_GAME.js:97-106) are timer and event plumbing. `Tick` and `KeyPress` are the steps they would call.
- `Math.random`. The food search is a free choice among the free cells, so it does not model the uniform distribution. It also does not model the rejection loop itself: that loop hangs on a full board, so `GenerateFood` requires a free cell (`FreeCellIffNotFull` says when one exists). `Tick` always has one, because the eaten cell is free.
- `renderGrid` reads the component's `snake` and `food`. `RenderGrid` takes them as parameters and returns the cell classes. The JSX elements, their keys, the Tailwind colour classes, the score line and the messages for each stage (src/components/DOT_GAME.js:116-177) are not modelled.
- Keys are modelled as the `key` string of the event. Numbers are unbounded integers. The coordinates of the game stay within -1..20, so JavaScript's floating-point numbers behave as integers here.
- src/App.js is a page shell that mounts the component and an analytics component. It has no game logic.
