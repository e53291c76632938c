# Block-puzzle game logic, modelled in Dafny

This project models the game-logic engine of an 8x8 block-placement puzzle
(the `useGameLogic` hook and the shape catalog of the block-blast web game)
and proves what the engine promises about it.

- `shapes.dfy`, module `Shapes`: the sixteen shape templates with their
  colors, the block counts of each, and `GetRandomShapes`, the sampler that
  copies a template and gives it an id. The random source is a parameter: a
  sequence of draws, each naming a template index and an id.
- `board.dfy`, module `Board`: the rules of the game stated over a board
  *value* (`seq<seq<Option<Color>>>`). It says when a shape fits (`Fits`),
  what placing it writes (`Place`), which rows and columns are full
  (`LineFull`, `FullLines`), what clearing leaves (`Cleared`,
  `ClearFullLines`) and when the game is over (`GameOver`). The lemmas here
  state the placement, clearing and game-over properties once, for all boards.
- `game.dfy`, module `GameLogic`: the engine itself, written imperatively
  like the hook.
  - The board is an `array2<Option<Color>>`.
  - `CanPlaceShape`, `CheckLines` and `CheckGameOver` are loops with early
    exits and flags.
  - The placement writes into a fresh copy of the board, counts the blocks,
    collects the cells to clear into a set and empties them.
  - Class `Game` holds the session state: `grid`, `currentShapes`, `score`,
    `isGameOver` and `clearedLines`. Its mutators are `PlaceShape` and
    `ResetGame`.
  - `Snapshot(a)` reads an array back as a board value. Every operation is
    proved against the functions of `Board`: through `Snapshot` for the
    board-level steps, cell by cell on the array or as a set for the
    low-level steps (`WriteRow`, `CellsToClear`, `ClearCells`).
- `timing.dfy`, module `HookGameOverTiming`: the game-over test as the hook
  actually times it, on the board before the clear and on the tray after the filter or
  the refill. A concrete board with no full line shows it ending a game that
  can go on.

In the hook, the tray refill and the game-over test run in React effects,
and the full lines are emptied by a 200 ms timer. `PlaceShape` folds all of
it into one synchronous step, in this order:

1. write the blocks;
2. detect the full lines and clear them;
3. add to the score;
4. take the shape off the tray by id;
5. refill an empty tray with three shapes;
6. decide game over, on the non-empty tray.

The source writes no membership check for the placed shape. It filters the
tray by id, which removes nothing when the id is absent. The model does the
same: `PlaceShape` neither requires nor checks that the shape is on the tray.

## Model

| member | source | states |
|---|---|---|
| Shapes.TemplatesWellFormed | src/utils/shapes.ts:21-51 | there are exactly 16 templates; each matrix is a non-empty rectangle with rows of equal, non-zero length, holds only 0s and 1s, has at least one 1, and is at most 4x4 |
| Shapes.TemplateBlockCounts | src/utils/shapes.ts:22-50 | the templates have 1, 2, 2, 3, 3, 4, 4, 4, 3, 3, 3, 3, 4, 4, 4, 4 blocks: 1 for the single, 2/3/4 for the lines in both orientations, 4 for the square, 3 for each L, 4 for each T |
| Shapes.BlockCountOf | src/utils/shapes.ts:22-50 | the block count of template t is entry t of that table |
| Shapes.GetRandomShapes | src/utils/shapes.ts:53-63 | returns exactly `count` shapes; the k-th carries the k-th drawn id and the matrix and color of the k-th drawn template, and nothing else; the result is `Sampled(count, draws)` |
| Shapes.DrawnFromDetermines | src/utils/shapes.ts:53-63 | the draws decide the sample: every sequence of shapes drawn from them equals the sample of its length, so two samples of the same draws are equal |
| Shapes.DrawnShapesWellFormed | src/utils/shapes.ts:53-63 | every sampled shape has a well-formed template matrix, so it has at least one block |
| Board.EmptyGrid | src/hooks/useGameLogic.ts:18-20 | the initial board is 8x8 with every cell empty |
| Board.OutOfBoundsBlockRejects | src/hooks/useGameLogic.ts:47-55 | a placement is illegal when any 1-entry of the matrix lands outside the board |
| Board.OverlapRejects | src/hooks/useGameLogic.ts:49-58 | a placement is illegal when any 1-entry lands on an occupied cell |
| Board.FitsIgnoresZeros | src/hooks/useGameLogic.ts:47-49 | only the 1-entries matter: two matrices with the same 1-entries fit at the same offsets, whatever their 0-entries, in bounds or not |
| Board.PlaceWritesBlocks | src/hooks/useGameLogic.ts:127-134 | placing a fitting shape writes its color exactly under its 1-entries, each of which was empty before; every other cell keeps its value |
| Board.FullLinesBelowSpec | src/hooks/useGameLogic.ts:90-109 | index k is listed among the first n lines iff k < n and line k is full; the list is strictly increasing |
| Board.FullLinesSpec | src/hooks/useGameLogic.ts:86-112 | a row (column) is listed iff it is full; the list is strictly increasing and has at most 8 entries |
| Board.FullLinesBelowSkips | src/hooks/useGameLogic.ts:91-95 | lines that are not full add nothing to the list |
| Board.ListedLinesBound | src/hooks/useGameLogic.ts:86-112 | a strictly increasing list of indices below n has at most n entries |
| Board.ClearedNothing | src/hooks/useGameLogic.ts:187-190 | clearing no line leaves the board as it was |
| Board.NoFullLineAfterClear | src/hooks/useGameLogic.ts:142-181 | after every full row and column is cleared, no row or column is full |
| Board.FitsSurvivesClearing | src/hooks/useGameLogic.ts:172-181 | clearing only empties cells, so a shape that fitted still fits |
| Board.FittingShapeKeepsGameAlive | src/hooks/useGameLogic.ts:70-81 | one tray shape that fits at one in-board offset means the game is not over |
| Board.TemplateFitsEmptyGrid | src/utils/shapes.ts:21-51 | every template fits on the empty board at offset (0, 0) |
| Board.EmptyGridNotOver | src/hooks/useGameLogic.ts:226-231 | a fresh tray of sampled shapes is never game over on the empty board |
| Board.ClearingNeverEndsGame | src/hooks/useGameLogic.ts:65-84 | if no tray shape fits on a board after clearing lines, none fitted before the clear either |
| GameLogic.FullRowExample | src/hooks/useGameLogic.ts:137-166 | a 1x8 line at (0, 0) on the empty board completes row 0 and no column; it earns 8 + 10 = 18 points, reports rows [0], cols [], combo 1, bonus 10, and leaves the board empty |
| GameLogic.CanPlaceShape | src/hooks/useGameLogic.ts:46-63 | returns true iff every 1-entry of the matrix lands in bounds on an empty cell; reads the board and writes nothing |
| GameLogic.CheckLines | src/hooks/useGameLogic.ts:86-112 | row r is listed iff r < 8 and every cell of row r is occupied, and likewise for the columns; both lists are strictly increasing and equal `FullLines` |
| GameLogic.CheckGameOver | src/hooks/useGameLogic.ts:65-84 | false on an empty tray; otherwise true iff no tray shape fits at any of the 8x8 offsets |
| GameLogic.CopyGrid | src/hooks/useGameLogic.ts:124 | the copy is a new array holding the same board |
| GameLogic.WriteShape | src/hooks/useGameLogic.ts:125-134 | after the loop the copy holds `Place` of the old board, and the block counter equals the number of 1-entries of the matrix |
| GameLogic.WriteRow | src/hooks/useGameLogic.ts:128-133 | writes the color under each 1-entry of one matrix row, changes no other cell, and counts the 1-entries of that row |
| GameLogic.BlocksOfLongerPrefix | src/hooks/useGameLogic.ts:127-134 | the blocks of the first r + 1 matrix rows are those of the first r rows plus those of row r |
| GameLogic.CellsToClear | src/hooks/useGameLogic.ts:145-152 | cell (r, c) is in the set iff r is a listed row and c is on the board, or c is a listed column and r is on the board |
| GameLogic.ClearCells | src/hooks/useGameLogic.ts:172-181 | every listed cell becomes empty and every other cell keeps its value |
| GameLogic.ClearLines | src/hooks/useGameLogic.ts:145-181 | a cell is emptied iff its row or its column is listed (the union the cell set collects), and every other cell keeps its value: the board becomes `Cleared` of the old board by the given rows and columns |
| GameLogic.ClearFullLinesOf | src/hooks/useGameLogic.ts:137-190 | the board becomes the old board with its full lines emptied; the bonus is 10 per full line; the report is present iff some line was full, with rows, cols, combo = their count, score = combo * 10, and the placed shape's color |
| GameLogic.PlaceOnCopy | src/hooks/useGameLogic.ts:122-190 | a new board holding the old board with the shape written and its full lines cleared; earned points = blocks + 10 per full line; the clear report as above |
| GameLogic.RemoveById | src/hooks/useGameLogic.ts:197 | never lengthens the tray, and leaves it unchanged when no shape carries the id |
| GameLogic.RemoveByIdMembers | src/hooks/useGameLogic.ts:197 | a shape survives removal iff it was on the tray and its id differs |
| GameLogic.RemoveUniqueId | src/hooks/useGameLogic.ts:197 | when exactly one tray shape carries the id, removal leaves the shapes before it followed by the shapes after it, in order |
| GameLogic.Settle | src/hooks/useGameLogic.ts:114-224 | the new board, the points, the report, the tray without the shape (three sampled shapes if it emptied, so one to three shapes) and the game-over verdict on the new board and tray |
| GameLogic.Game.constructor | src/hooks/useGameLogic.ts:18-36 | a new session: empty board, score 0, not over, no clear report, three sampled shapes |
| GameLogic.Game.PlaceShape | src/hooks/useGameLogic.ts:114-224 | accepts iff the game is not over and the shape fits; a rejection changes nothing; an acceptance installs the placed-and-cleared board, adds blocks + 10 per full line to the score (which never decreases), records the report when lines were cleared, removes the shape by id, refills an empty tray with three shapes, and sets the over flag exactly when no tray shape fits on the new board; the session invariant is kept |
| GameLogic.Game.ResetGame | src/hooks/useGameLogic.ts:226-231 | empty board, score 0, not over, three freshly sampled shapes; the last clear report is left as it was |
| GameLogic.RejectedPlacementIsIdempotent | src/hooks/useGameLogic.ts:115-120 | a rejected placement asked twice changes nothing at all |
| HookGameOverTiming.PlacedTrayIsJudged | src/hooks/useGameLogic.ts:197-214 | the tray the game-over effect judges (the tray without the placed shape, or the three shapes the refill effect of lines 32-36 draws when that leaves nothing) is exactly the tray `Game.PlaceShape` leaves |
| HookGameOverTiming.StaircaseHasNoFullLine | src/hooks/useGameLogic.ts:86-112 | the board of the example below has no full row or column, so a player can be left with it once every clear has run |
| HookGameOverTiming.PreClearGameOverExample | src/hooks/useGameLogic.ts:168-224 | on that board, with a single block and a 1x4 line on the tray, the game is going on and the single fits at (0, 0); dropping it into row 0 fills only row 0; judged before the clear, the line fits nowhere and the hook ends the game, while on the cleared board it fits at (0, 0) |
| HookGameOverTiming.ClearedJudgementIsWeaker | src/hooks/useGameLogic.ts:210-224 | for every board, tray, placement and refill: whenever the engine, judging the cleared board, ends the game, the hook, judging the board before the clear, ends it too |

## Left out

- React state and effect scheduling: five of the hook's six `useState` cells
  (all but `highScore`) become the fields of class `Game`. The refill effect
  and the game-over effect run inside `PlaceShape`, in the order given above.
- The 200 ms clearing timer: lines are cleared inside `PlaceShape`. The timer
  clears the cells of whatever board is current when it fires. The model does
  not capture a second placement landing inside that 200 ms window.
- The 800 ms timer that resets `clearedLines` to null: not modelled. The
  report of the last clear stays until the next clearing placement replaces it.
- High-score persistence through `localStorage`: browser storage I/O.
- `Math.random` and the generated string ids: the sampler takes them as
  `draws`. Uniform choice and the uniqueness of ids are not modelled.
  `RemoveUniqueId` states its result for a tray where the id is unique.
- The sound effects (`playSnap`, `playClear`, `playCombo`, `playGameOver`):
  Web Audio calls with no effect on the game state.
- The particle effects, the board, tray and block components, and the app
  shell: presentation around `canPlaceShape` and `placeShape`.
- Cell objects `{ color }` are deep-copied in the source. The model stores
  the color directly (`Some(color)`), so copying a cell is copying a value.
- GameLogic.Game.PlaceShape: the tray membership of the placed shape is
  neither checked nor required, as in the source. A shape that is not on the
  tray is placed, and the tray stays as it was.
- Matrix entries: the source types them as numbers. Any integer is
  admitted, and only entries equal to 1 are blocks, as in the source's
  `=== 1` tests.

## Findings

| source | as written | input that shows it | evidently intended | confidence | as-written member | corrected member |
|---|---|---|---|---|---|---|
| src/hooks/useGameLogic.ts:168-181, 210-224 | After a placement that completes lines, the board is set with the completed lines still on it. The cells are emptied only by a 200 ms timer. The game-over effect runs on the render in between, so it judges the board before the clear. Once the flag is set, only `resetGame` clears it again. | a board with no full line: cell (r, c) is empty iff c = 0, or r > 0 and c = r. The tray holds a single block and a 1x4 line; the single is dropped at (0, 0). Only row 0 becomes full. Before the clear no row has four empty cells in a run, so the line fits nowhere and the game ends. After the clear row 0 is empty and the line fits at (0, 0). | game over is judged on the board the player continues on, after the full lines are emptied | not executed; React batches the four state updates of a clearing placement (lines 160, 169, 194, 205) into one render, which the effect follows | HookGameOverTiming.GameOverBeforeClear | GameLogic.Game.PlaceShape |
