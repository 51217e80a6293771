# Maze game session — a verified Dafny model

This project models the game session of a small Pac-Man-style maze game. The
player stands on a 15 x 15 grid whose walls come from a compiled-in layout
(`MAZE_LAYOUT`). The player moves one cell per arrow key, or jumps to the cell a
touch selects. Each move eats the uneaten dot on the cell the player reaches,
which adds 10 to the score. The game ends when the last dot is eaten. The game-over screen
shows a win line only if the score has reached `SCORE_THRESHOLD`.

The model has three modules:

- `Constants` (`constants.dfy`) holds the configuration constants and the maze
  layout, with lemmas about the layout's shape:
  - the border rows are full-width walls;
  - the thirteen inner rows are one character shorter than `MAZE_WIDTH`;
  - there is exactly one start mark, at (1, 1).
  The layout lists its 15 rows in the game's order, top to bottom. Each row is
  its own named constant (`ROW_0` ... `ROW_14`).
- `Maze` (`maze.dfy`) holds the pure logic:
  - string `indexOf`;
  - the legality check on a target cell;
  - the arrow-key step and the touch-to-cell arithmetic;
  - the start-cell and dot-list initialisers, as specification functions;
  - the dot-collection step on a list of dots.
  Lemmas here state what each of these amounts to.
- `Session` (`session.dfy`) holds the session state as a class `Game`:
  - its fields are `score`, `lives`, `gameOver`, `playerPos` and the `dots` list;
  - it has a constructor and the methods `MovePlayer`, `Collect`,
    `HandleKeyDown` and `HandleTouch`;
  - the loops of the two initialisers and of the collection pass are methods
    proved against the `Maze` functions.
  The session invariant `Game.Valid` says these things:
  - the player stands on a legal cell;
  - the dots sit where the 99 initial dots did;
  - the score is 10 times the number of eaten dots;
  - `lives` stays `INITIAL_LIVES`;
  - `gameOver` holds exactly when every dot is eaten;
  - no uneaten dot is left under the player.
  Every transition preserves `Game.Valid`.

What the model establishes about this maze:

- The player starts at (1, 1).
- There are 99 dots, one on every `' '` cell and on no other cell, in row-major
  order.
- From any cell in columns 1..12 (the start included), arrow keys keep the
  player in columns 1..12. Column 14 of rows 1..13 lies past the end of those
  14-character rows, so the legality check does not see a wall there. That
  column can be reached only by touch. Once the player is in column 14, arrow
  keys move it only up and down that column.
- Each collection step eats at most one dot.
- The score never exceeds 990, so the win line can never be shown.

Touch input is modelled as an integer pixel offset from the top-left corner of
the element the touch started on. An offset of (20x + 10, 20y + 10) selects cell
(x, y). Dafny's `/` by the positive `CELL_SIZE` rounds down, as `Math.floor`
does, for negative offsets too.

Two things a reader of the game might expect are not in the code, so the model
does not have them either:

- There are no ghosts and no way to lose a life. `setLives` is never called,
  and the ghost constants (`GHOST_SPEED`, `INITIAL_GHOST_POSITIONS`) are never
  used.
- A move is not restricted to cells holding an uneaten dot. The legality check
  tests only the grid bounds and `'#'`.

## Model

| member | source | states |
|---|---|---|
| Constants.BorderRowsAreWalls | src/lib/constants.ts:16-32 | the layout has MAZE_HEIGHT rows; rows 0 and 14 are MAZE_WIDTH characters, all `'#'` |
| Constants.InnerRowsAreOneShort | src/lib/constants.ts:18-30 | rows 1..13 are MAZE_WIDTH - 1 characters long, with a wall at column 0 and at column MAZE_WIDTH - 2 |
| Constants.LayoutAlphabet | src/lib/constants.ts:16-32 | every layout character is `'#'`, `' '` or `'P'` |
| Constants.SingleStartMark | src/lib/constants.ts:18 | a cell holds `'P'` exactly when it is column 1 of row 1 |
| Constants.RowsFitWidth | src/lib/constants.ts:7-8 | the layout has MAZE_HEIGHT rows, none longer than MAZE_WIDTH |
| Maze.IndexOf | src/components/Frame.tsx:34 | the result is -1 exactly when the character is absent; otherwise it is the first index holding it |
| Maze.StartScan | src/components/Frame.tsx:31-41 | after k rows the start is (0, 0) with no `'P'` in those rows, or else the first `'P'` of the last row holding one |
| Maze.StartPosition | src/components/Frame.tsx:31-41 | no contract: the scan over every row; `StartScan` states its result and `MazeStart` its value on this maze |
| Session.FindStart | src/components/Frame.tsx:31-41 | the row-by-row loop returns StartPosition of the layout |
| Maze.MazeStart | src/components/Frame.tsx:31-41 | on this maze the start is (1, 1), which is a legal cell |
| Maze.RowDots | src/components/Frame.tsx:45-49 | no contract: the dots of one row prefix; `RowDotsCount`, `RowDotsSound` and `RowDotsComplete` state its meaning |
| Maze.LayoutDots | src/components/Frame.tsx:44-50 | no contract: the dots of the first k rows; `LayoutDotsSound`, `LayoutDotsComplete`, `LayoutDotsOrdered` and `LayoutDotsCount` state its meaning |
| Maze.InitialDots | src/components/Frame.tsx:42-52 | no contract: the dot list over every row; `MazeDotCount` and `StartCellHasNoDot` state its value on this maze |
| Session.BuildDots | src/components/Frame.tsx:42-52 | the nested loop over rows and characters returns InitialDots of the layout |
| Maze.LayoutDotsSound | src/components/Frame.tsx:42-52 | every initial dot is uneaten and sits on a `' '` cell |
| Maze.LayoutDotsComplete | src/components/Frame.tsx:42-52 | every `' '` cell has a dot |
| Maze.LayoutDotsOrdered | src/components/Frame.tsx:42-52 | the dots come in strict row-major order, so no two share a cell |
| Maze.LayoutDotsCount | src/components/Frame.tsx:42-52 | there are as many dots as `' '` characters |
| Maze.MazeDotCount | src/components/Frame.tsx:42-52 | this maze starts with 99 dots, all uneaten |
| Maze.StartCellHasNoDot | src/components/Frame.tsx:42-52 | when (1, 1) is the start mark, no initial dot lies on it |
| Maze.OpenCellDotsLegal | src/components/Frame.tsx:42-56 | dots on `' '` cells of this maze lie on legal cells other than the start |
| Maze.CellAt | src/components/Frame.tsx:55 | no contract: the character `MAZE_LAYOUT[y][x]`, or None where the read past a short row's end gives `undefined`; `ValidMoveCells` states what it means for legality |
| Maze.IsValidMove | src/components/Frame.tsx:54-56 | no contract: the bounds test plus "not `'#'`", where a missing character is not `'#'`; `ValidMoveCells` characterises it |
| Maze.ValidMoveCells | src/components/Frame.tsx:54-56 | a cell is legal exactly when it is a `' '` or `'P'` cell, or column 14 of rows 1..13 (past the row's end) |
| Maze.OpenCellIsValid | src/components/Frame.tsx:54-56 | every non-wall layout cell is legal |
| Maze.WallColumns | src/components/Frame.tsx:54-56 | columns 0 and 13 are illegal in every row |
| Maze.KeyDelta | src/components/Frame.tsx:69-76 | exactly the four arrow keys ask for a step, and each step is a unit step along one axis |
| Maze.TryMove | src/components/Frame.tsx:59-66 | a legal target prev + (dx, dy) is taken; otherwise the result is prev; from a legal cell the result is legal |
| Maze.KeyStep | src/components/Frame.tsx:70-75 | no contract: the key switch feeding `movePlayer`; `KeyStepTakesLegalTarget`, `KeyStepIsLegalUnitStep`, `KeyStepKeepsInnerColumns` and `KeyStepInTouchColumn` state its meaning |
| Maze.KeyStepTakesLegalTarget | src/components/Frame.tsx:58-76 | an arrow key moves the player onto its target exactly when that target is legal |
| Session.Game.MovePlayer | src/components/Frame.tsx:58-67 | the position becomes prev + (dx, dy) when that cell is legal and stays prev otherwise; nothing else changes |
| Maze.KeyStepIsLegalUnitStep | src/components/Frame.tsx:58-76 | from a legal cell, a key press leaves the player on a legal cell; the player either stays or moves one cell for an arrow key |
| Maze.KeyStepKeepsInnerColumns | src/components/Frame.tsx:69-76 | from a legal cell in columns 0..12, a key press lands in columns 1..12 |
| Maze.KeyStepInTouchColumn | src/components/Frame.tsx:54-76 | from a legal cell in column 14, a key press keeps the player on a legal cell of column 14 |
| Maze.KeyPathStaysInnerColumns | src/components/Frame.tsx:69-76 | no run of key presses from a legal cell in columns 0..12 reaches column 14 |
| Session.Game.HandleKeyDown | src/components/Frame.tsx:69-76 | the position becomes KeyStep of the key; when it changed, the collection step ran; otherwise nothing changed; the invariant is kept |
| Maze.TouchCell | src/components/Frame.tsx:85-86 | the touched cell is the floor of each offset divided by CELL_SIZE |
| Maze.JumpTo | src/components/Frame.tsx:88-90 | the result is the old position or the touched cell, and it is legal whenever the old position is |
| Maze.JumpToIsLegal | src/components/Frame.tsx:85-90 | a touch leaves the player on a legal cell: either the touched cell or the old one |
| Maze.TouchReachesEveryLegalCell | src/components/Frame.tsx:85-90 | the offset (20x + 10, 20y + 10) moves the player to cell (x, y) whenever that cell is legal, adjacent or not |
| Session.Game.HandleTouch | src/components/Frame.tsx:78-91 | the player jumps to the touched cell when it is legal and the collection step runs; otherwise nothing changes; the invariant is kept |
| Maze.EatAt | src/components/Frame.tsx:97-106 | the same dots at the same cells; a dot is eaten afterwards exactly when it was eaten or was uneaten at the player's cell, so eaten flags never revert |
| Maze.EatAtCounts | src/components/Frame.tsx:97-106 | the eaten count grows by the number of uneaten dots at the cell, and none is left there |
| Maze.EatAtNothingThere | src/components/Frame.tsx:113 | with no uneaten dot at the cell, the list is unchanged |
| Maze.EatAtIdempotent | src/components/Frame.tsx:97-106 | eating twice at one cell equals eating once |
| Maze.AllEatenCount | src/components/Frame.tsx:109 | every dot is eaten exactly when the eaten count equals the list length |
| Session.EatDots | src/components/Frame.tsx:97-106 | the mapping loop returns EatAt of the dots, counts the dots it ate, and sets the updated flag exactly when that count is positive |
| Session.Game.Collect | src/components/Frame.tsx:93-115 | once the game is over nothing changes; otherwise the dots become EatAt, the score grows by 10 per dot eaten, and the game ends exactly when a dot was eaten and none is left; the invariant is kept |
| Session.CollectKeepsConsistent | src/components/Frame.tsx:93-115 | one collection step keeps score = 10 x eaten dots, the dot cells, the lives, and gameOver = all eaten |
| Session.AllEatenNothingLeft | src/components/Frame.tsx:94 | once every dot is eaten, nothing is left to eat anywhere |
| Session.AtMostOneDotPerStep | src/components/Frame.tsx:97-106 | a collection step on a layout's dots eats at most one dot, so it adds at most 10 to the score |
| Session.InitialState | src/components/Frame.tsx:28-52 | the initialisers give start (1, 1), a legal cell, and 99 uneaten dots with none under the player |
| Session.InitialStateConsistent | src/components/Frame.tsx:28-52 | the initial start and dots form a consistent state: score 0, INITIAL_LIVES lives, the game not over |
| Session.Game.constructor | src/components/Frame.tsx:28-52 | a new session has score 0, INITIAL_LIVES lives, the game not over, the player at the start cell (1, 1), and the initial dots; the invariant holds |
| Session.ScoreStaysBelowThreshold | src/components/Frame.tsx:137 | however many of this maze's dots are eaten, 10 x eaten is at most 990, below SCORE_THRESHOLD |
| Session.Game.WinLineShown | src/components/Frame.tsx:130-137 | no contract: the game is over and the score reached SCORE_THRESHOLD; `WinLineNeverShown` shows it never holds |
| Session.Game.WinLineNeverShown | src/components/Frame.tsx:130-139 | in every reachable state the win line is not shown and the score stays below SCORE_THRESHOLD |

## Left out

- Rendering is not modelled: the JSX, the card, the hearts, and the pixel placement of dots and player. It is presentation only.
- Loading the frame SDK and the "Loading..." screen are not modelled. They are a foreign call.
- Attaching and detaching the window listeners is not modelled. They are event plumbing. The model assumes the listeners stay attached, so keys and touches still move the player after the game is over, while the collection step does nothing.
- `getBoundingClientRect`, `clientX`/`clientY` and `preventDefault` are not modelled. They are DOM calls over floating-point pixels. Touch input is an integer pixel offset instead. The floor of a real offset divided by 20 equals the floor of its integer floor divided by 20, so no cell is lost.
- The touch offset is measured from the rectangle of the element the touch started on, because the `touchmove` listener sits on `window`. That element is usually one 20-pixel cell, not the board. The offset equals the offset within the board only when the touch starts on the board's own container. The model takes the offset as given and does not model which element was touched.
- React's asynchronous, batched state updates are not modelled. That includes the `setScore` calls queued inside the `setDots` updater. The model runs one collection step right after each change of position, and `EatDots` counts the queued 10-point updates.
- The collection effect reruns whenever the position state is replaced: after every legal arrow step, and after every legal touch, even one onto the player's own cell. The model calls `Collect` in exactly those cases. The effect also runs once when the component mounts; the model skips that run because it eats nothing: `StartCellHasNoDot` shows no initial dot lies under the start cell, and `InitialState` states this for the initial state. A double run in development mode is not modelled.
- Ghosts, `GHOST_SPEED` and `INITIAL_GHOST_POSITIONS` are not modelled. The code never uses them.
- The `PROJECT_ID`, `PROJECT_TITLE` and `PROJECT_DESCRIPTION` strings are not modelled. They are display text.
