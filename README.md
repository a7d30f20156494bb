# Minesweeper board engine

This project models the board engine of the `Game` class in the QAPT12 browser
Minesweeper, and proves properties of that model. A game is created from one of
three difficulty presets. It builds a grid of cells, places the preset's number of
mines, and writes into every other cell how many of its eight neighbours are mines.
After that the player has two moves:

- a left click reveals a cell, and cascades outward from a cell numbered zero;
- a right click puts a flag on a hidden cell, or takes it off again.

The game keeps three counters: the safe cells still to reveal, the cells revealed
so far, and the mine count shown to the player (mines less flags).

The project has two modules.

- `Board` (`board.dfy`) holds the values:
  - cells, presets and the eight directions;
  - the neighbour count and its properties;
  - the sets of positions that a board, a revealed grid or a flag grid describes;
  - the predicates the cascade proof uses.
- `Minesweeper` (`game.dfy`) holds `class Game`. Its fields are the board, the
  revealed grid, the flagged grid and the three counters, and its methods change them
  in place as the JavaScript does.

The class invariant `Valid()` holds after construction and after every click. It is
the conjunction of three parts:

- the board matches its preset, holds exactly the preset's number of mines, and every
  safe cell holds its neighbour count;
- the two reveal counters agree with the revealed grid;
- the shown mine count agrees with the flag grid.

`Valid()` also requires that every revealed zero cell has all its neighbours
revealed. This is the closure property of the cascade.

The source keeps the revealed and flagged state on DOM button properties. Here that
state is the two boolean grids `revealed` and `flagged`. Both start all `false`,
because a fresh button carries neither property.

The two endings, `winGame` and `loseGame`, are modelled by their triggers only: the
click methods return `won` and `lost`. `won` is true when some decrement in the click
brings the cells still to reveal to exactly zero. Every decrement is by one, so this
amounts to "the counter went from positive to zero or below". `lost` is true when the
clicked cell is a mine.

The model follows the code in these points, some of which a player might not expect:

- Revealing a mine also decrements the cells still to reveal and increments the
  revealed count. The decrement happens before the mine check, and it can trigger the
  win as well.
- The cascade reveals neighbours whether or not they are flagged. It checks only that
  a neighbour is not yet revealed (Game.js:246). So a flag is not a barrier to the
  flood fill; the model proves instead that the cascade never reveals a mine, and
  that it reveals only cells next to a zero cell it has itself revealed (or next to
  the cell it started from).
- There is no game-over guard and no out-of-bounds error. Clicks after the end of a
  game are modelled like any other click.
- fillGameBoard pushes the string `"0"`, not the number 0. calculateNumbers then
  overwrites every non-mine cell with a number, so the filler is modelled as
  `Num(0)`, and no run of the constructor can tell the two apart.

## Model

| member | source | states |
|---|---|---|
| `Board.PresetOf` | Game.js:17-31 | beginner is 9×9 with 10 mines, intermediate 16×16 with 40, expert 20 wide and 24 high with 99; every preset has at least one mine and fewer mines than cells, so placing mines always finds a free cell |
| `Board.Grid` | Game.js:37-39 | the grid of h rows of w entries holding one value everywhere |
| `Minesweeper.Game.constructor` | Game.js:13-44 | the new game satisfies the invariant: the preset's dimensions, exactly `mines` mines, correct numbers, nothing revealed or flagged, cells to reveal = h·w − mines, mine counter = mines, revealed = 0 |
| `Minesweeper.Game.SetUpBoard` | Game.js:37-43 | after pushing the empty rows, filling, placing mines and computing numbers, the board is h×w, has exactly `mines` mines, and every safe cell holds its neighbour count |
| `Minesweeper.Game.FillGameBoard` | Game.js:60-66 | every existing row gains exactly `width` zero cells at its end; the number of rows is unchanged |
| `Minesweeper.Game.PlaceMines` | Game.js:71-80 | exactly `mines` new mine cells are added (the set of mines only grows, by that many distinct positions); no non-mine cell changes |
| `Board.FreeCellExists` | Game.js:74-77 | while fewer than h·w cells are mined, a non-mine cell exists, so the retry loop has a cell to find |
| `Board.LayMine` | Game.js:78 | writing a mine into a free cell keeps the board's shape and adds exactly one mine position |
| `Minesweeper.Game.CountAdjacentMines` | Game.js:104-123 | the loop over the eight directions, with its bounds check, returns the neighbour count `AdjacentMines` |
| `Board.DirectionIndex` | Game.js:105-109 | every offset in −1..1 × −1..1 other than (0,0) is one of the eight directions |
| `Board.DirectionAt` | Game.js:105-109 | each direction leads to an adjacent cell, and no two directions lead to the same one |
| `Board.MinesAmongIsSize` | Game.js:111-120 | the count after k directions is the number of distinct mined cells those directions reach |
| `Board.AdjacentMinesCountsNeighbours` | Game.js:104-123 | the count equals the number of mines among the in-bounds neighbours of the cell |
| `Board.ZeroMeansNoMinedNeighbour` | Game.js:104-123 | a count of zero holds exactly when no in-bounds neighbour is a mine (both directions) |
| `Board.SameMinesSameCount` | Game.js:104-123 | the count depends only on where the mines are, so writing numbers does not change later counts |
| `Board.NeighbourCount` | Game.js:115 | a cell has Span(h,r)·Span(w,c) − 1 in-bounds neighbours: 3 in a corner, 5 on the other edge cells, 8 inside, never more than 8; the count is at most the number of neighbours |
| `Board.NeighbourBox` | Game.js:115 | the number of neighbours is the size of the clipped 3×3 box less one |
| `Board.RectSize` | Game.js:37-39 | an r×c block of positions has r·c elements; the board has h·w cells |
| `Minesweeper.Game.CalculateNumbers` | Game.js:86-94 | every mine cell is left as it is and every other cell holds its neighbour count on the board as it was |
| `Board.NumberingIsNumbered` | Game.js:86-94 | numbering keeps the mines where they are; afterwards each number is right for the numbered board itself, and is at most 8 |
| `Minesweeper.Game.GetMineCounter` | Game.js:51-53 | the counter returned is the number of mines less the number of flagged cells |
| `Minesweeper.Game.Uncover` | Game.js:169-179 | reveals exactly the target cell, adds one to the revealed count, takes one from the cells still to reveal, and `won` is true exactly when that count has reached 0; the invariant holds, except that a zero cell still owes its cascade |
| `Board.FlipCount` | Game.js:173-176 | flipping one cell of a grid changes the number of marked cells by exactly one |
| `Board.RevealKeepsZeroClosed` | Game.js:169 | revealing a cell keeps every finished zero cell closed; a newly revealed zero cell is owed its cascade |
| `Minesweeper.Game.HandleButtonClick` | Game.js:162-190 | a flagged or revealed target changes nothing; otherwise the target is revealed. A non-zero target is the only cell revealed. Revealed cells stay revealed, and no cell other than the target that becomes revealed is a mine. Both counters move by the number of newly revealed cells. `won` holds exactly when the cells still to reveal went from positive to zero or below; `lost` holds exactly when the target was an unflagged, unrevealed mine. Every cell revealed besides the target has a zero neighbour that is the target or was revealed by the same click. The invariant, with cascade closure, holds after |
| `Minesweeper.Game.RevealZeroCells` | Game.js:232-263 | from a revealed zero cell all eight directions are visited: every in-bounds neighbour ends revealed, the cascade reveals no mine and unreveals nothing, the counters stay consistent, every zero cell it reveals is closed in turn, and `won` reports reaching zero. As an upper bound, every cell it reveals has a zero neighbour that is (row, col) or was revealed by the cascade. It terminates because each step reveals a new cell of a finite grid |
| `Minesweeper.Game.RevealNeighbour` | Game.js:246-259 | a neighbour in a cascade ends revealed, flag or no flag. If it was already revealed, nothing changes at all. If it was hidden and is non-zero, exactly it is revealed. Every cell revealed leans on a zero cell: the parent cell of the cascade or a cell revealed by this call |
| `Board.ZeroCellHasSafeNeighbours` | Game.js:239-243 | on a numbered board no neighbour of a zero cell is a mine, so the cascade never reveals one |
| `Board.CoveredAll` | Game.js:239-242 | once all eight directions are handled, every in-bounds neighbour is revealed |
| `Board.MarkThenGrow` | Game.js:169-183 | revealing the target and then cascading keeps all earlier reveals, and adds no mine other than the target |
| `Board.WinMeansAllSafeRevealed` | Game.js:176-179 | with no mine revealed, the revealed count equals h·w − mines exactly when every safe cell is revealed |
| `Minesweeper.Game.WonMeansCleared` | Game.js:176-179 | in a valid game with no mine revealed, the cells still to reveal are 0 exactly when every safe cell is revealed |
| `Minesweeper.Game.HandleRightButtonClick` | Game.js:198-212 | on a revealed cell nothing changes; on a hidden cell exactly that cell's flag flips, and the mine counter goes down by 1 when a flag is placed and up by 1 when one is removed, with no clamping, so it may go below zero; the invariant holds after |
| `Minesweeper.ToggleTwice` | Game.js:198-212 | two right clicks on the same cell restore the flags and the mine counter, and change neither the revealed grid nor the board |
| `Board.SupportedTrans` | Game.js:239-262 | two steps of a cascade from one zero cell, each revealing only cells next to an already-revealed zero cell, make one such step |
| `Board.SupportedByParent` | Game.js:246-259 | a neighbour of a zero cell, revealed and then cascaded from, reveals only cells next to a zero cell revealed in this step or to the parent |
| `Board.SupportedAfterMark` | Game.js:169-183 | a click that reveals the target and then cascades from it reveals, besides the target, only cells next to the target or to a zero cell it revealed |

## Left out

- The DOM work: building buttons (`constructButtons`), button labels, colours, and
  the counter displays (`updateMineCounterDisplay`, `updateRevealedButtonsCount`).
  These only present state the model already holds.
- The bodies of `winGame` and `loseGame`, which show a message and reload the page.
  Only their trigger is modelled, as the `won`/`lost` results.
- MineSweeper.js, the page script that picks a difficulty and runs the timer, is not
  part of this model. The timer has no effect on the game state.
- `Minesweeper.Game.PlaceMines`: it does not model the random distribution of
  `Math.random`. Each mine goes on an arbitrary free cell, which is the only thing the
  retry loop guarantees. The probabilistic termination of that loop is replaced by
  the proof that a free cell exists.
- `Board.Difficulty`: it has only the three recognised names. With any other string,
  the source leaves `width`, `height` and `mines` undefined. Then `buttonsToReveal`
  becomes NaN, `mineCounter` is undefined, `revealedButtons` is 0, and the board has
  no rows.
- `Minesweeper.Game.HandleButtonClick` and `Minesweeper.Game.HandleRightButtonClick`:
  they require the coordinates to be on the board. constructButtons makes `height`
  columns per row (its inner loop runs to `board.length`). On the expert board
  (20 wide, 24 high) that means buttons in columns 20 to 23, which lie off the board.
  Clicks on those buttons are not modelled.
- How the game behaves after it has been won or lost is not modelled separately. The
  source has no guard, and the page reloads after the message, so a further click is
  modelled as an ordinary click.
- `Minesweeper.Game.RevealZeroCells`: the source recurses on the call stack, and the
  model proves only that the recursion terminates. Stack depth is not modelled.
- `Minesweeper.Game.RevealZeroCells`: its upper bound says that every revealed cell
  is next to the start cell or to a zero cell the same cascade revealed. It does not
  give a chain of zero cells back to the start, so it does not by itself exclude a
  group of zero cells that lean only on each other. The exact region (all cells
  reachable from the start through zero cells) is not stated as a set.
- `Minesweeper.Game.HandleButtonClick`: it states the counter arithmetic through the
  set of newly revealed cells. For a zero target it does not name that set
  explicitly. What it does state is the closure invariant, that no mine is revealed,
  that earlier reveals are kept, and the zero-neighbour bound of the cascade, which
  carries the same gap as for `Minesweeper.Game.RevealZeroCells`.
