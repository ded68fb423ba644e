# Super tic-tac-toe game logic, modelled in Dafny

This project models the game logic of a super ("ultimate") tic-tac-toe
board written in TypeScript. The master board is a 3×3 grid of sub-boards,
and each sub-board is a 3×3 grid of cells. The model has three parts,
separated from the DOM classes that carry them in the program:

- **the line-win detector** (`src/utils.ts`). Three scans run over a 3×3
  grid of `null | "X" | "O"`: rows 0→2, then columns 0→2, then the main
  diagonal before the anti-diagonal. Each returns the winner and the two
  endpoints of the line it found, or no winner and no endpoints. The same
  functions serve the sub-board check (cell values) and the master check
  (sub-board values).
- **the sub-board check** (`src/masterCell.ts`). It picks horizontal, else
  vertical, else diagonal. On a line it records the sub-board's value and
  runs the master check. The class's private copies of the scans are
  modelled loop for loop and proved equal to the shared detector.
- **the move and turn state machine** (`src/cell.ts`, `src/board.ts`). A
  click on an occupied cell is ignored. A click on an empty cell writes the
  current player, records the cell as the last placed cell, runs the
  sub-board check and switches the turn. Switching the turn toggles X/O and
  applies the forwarding rule: the last cell's own coordinates select the
  only enabled sub-board, unless that sub-board already has a value, in
  which case all nine are enabled.

The earlier single-file revision (`src/main.ts`) is modelled beside it
(module `SingleFile`). On every sequence of clicks the modular board
accepts, starting from a new board, the single-file board accepts the same
clicks and ends with the same marks, sub-board values and turn
(`NewGamesAgree`, by induction on the one-click `RevisionsAgree`). The
converse does not hold: the single-file board has no forwarding, so it also
accepts clicks the modular board blocks (`LegacyAcceptsBlockedClick`).

Modules: `Common` (the optional value, the two players and the turn
toggle), `Grids` (3×3 grids and coordinates), and then one per source
file: `Lines` (`utils.ts`), `Cells` (`cell.ts`), `SubBoards` (`masterCell.ts`),
`MasterBoard` (`board.ts`, plus the game-level halves of
`MasterCell.checkWin` and `Cell.onClick`), `BoardProperties` (lemmas about
the state machine) and `SingleFile` (`main.ts`).

Modelling choices:

- A grid is a `seq<seq<T>>` of three rows of three entries. Entries are
  addressed by `Coord(row, col)`, where `row` is the source's
  `coordinates.x` and `col` its `coordinates.y`.
- The `{winner, firstCell, lastCell}` record is `Line(winner, first, last)`.
  The source's `winner: false` is `None`, and a cell reference is replaced
  by that cell's coordinates.
- `enable`/`disable` become a boolean `enabled` field of the sub-board. The
  DOM lets a click reach a cell only when its sub-board is enabled (no
  `pointer-events: none`, no cover) and shows no big-value overlay, that is,
  when its value is `null`. `OnClick` takes this as its precondition
  (`Open`). In `main.ts` the big-value overlay is the only thing that blocks
  a click, so there the precondition is just "the value is `null`".
- `Board.lastPlacedCell` is a reference to a `Cell`, but only its
  coordinates are ever read. The model stores those coordinates.
- All the checks are pure functions, so "the checks only read the grid"
  holds by construction.

Where the code departs from the usual rules of ultimate tic-tac-toe, the
model follows the code:

- The code has no draw detection, no game-over state and no typed move
  errors. A master-board line only enables all nine sub-boards.
- Forwarding tests only the target's `.value`. A full but undecided target
  is therefore still the only enabled sub-board, and the game is stuck
  (`FullUndecidedTargetIsDeadEnd`). The usual rules would instead
  send the next player to any open sub-board.
- After a click, the turn always switches, even after a master-board line.

## Model

| member | source | states |
|---|---|---|
| `Common.Other` | src/board.ts:35 | the turn toggle maps each player to the other one |
| `Lines.ScanRows` | src/utils.ts:49-62 | from row i on: a winner exists iff some row k ≥ i holds three equal non-null values; the lowest such row is reported with endpoints (k,0),(k,2); otherwise no winner and both endpoints null |
| `Lines.ScanCols` | src/utils.ts:76-89 | the column analogue of ScanRows, with endpoints (0,k),(2,k) |
| `Lines.CheckHorizontal` | src/utils.ts:44-69 | a winner iff some row is complete; the lowest-index complete row is reported with endpoints (i,0),(i,2); the winner is the value at both endpoints; no winner comes with both endpoints null |
| `Lines.CheckVertical` | src/utils.ts:71-96 | a winner iff some column is complete; the lowest-index complete column is reported with endpoints (0,i),(2,i); the winner is the value at both endpoints; no winner comes with both endpoints null |
| `Lines.CheckDiagonal` | src/utils.ts:98-136 | a winner iff a diagonal is complete; the main diagonal (0,0)-(2,2) wins over the anti-diagonal (0,2)-(2,0); the winner is the value at both endpoints; no winner comes with both endpoints null |
| `Lines.PickWin` | src/masterCell.ts:59-65 | a line is found iff some row, column or diagonal is complete; any row line beats any column line, which beats any diagonal; a found line always has a winner |
| `Lines.EmptyCellsNeverWin` | src/utils.ts:50-51 | a line whose first value is null is skipped: an empty cell is never a reported endpoint, and an all-empty grid holds no line |
| `Lines.VerticalIsTransposedHorizontal` | src/utils.ts:71-96 | checkVertical equals checkHorizontal on the transposed grid, with the endpoints transposed back |
| `Lines.DiagonalTransposeInvariant` | src/utils.ts:98-136 | transposing the grid does not change what checkDiagonal reports |
| `Lines.HorizontalSwapSymmetry` | src/utils.ts:44-69 | swapping X and O in the grid swaps the winner of checkHorizontal and leaves its endpoints unchanged |
| `Lines.VerticalSwapSymmetry` | src/utils.ts:71-96 | swapping X and O in the grid swaps the winner of checkVertical and leaves its endpoints unchanged |
| `Lines.DiagonalSwapSymmetry` | src/utils.ts:98-136 | swapping X and O in the grid swaps the winner of checkDiagonal and leaves its endpoints unchanged |
| `Lines.CrossingLinesAgree` | src/utils.ts:44-136 | whenever two checks of different kinds both find a line, they report the same winner |
| `Cells.NewCell` | src/cell.ts:10-16 | a new cell keeps the coordinates it was given and has value null |
| `Cells.Reset` | src/cell.ts:54-60 | reset sets the value back to null, so the cell is as freshly constructed |
| `Cells.ResetIdempotent` | src/cell.ts:54-60 | resetting twice is the same as resetting once, and resetting a fresh cell changes nothing |
| `SubBoards.NewSubBoard` | src/masterCell.ts:14-27 | a new sub-board has value null, no cover (enabled) and nine empty cells, the cell at (i,j) constructed with coordinates (i,j) |
| `SubBoards.Enable` | src/masterCell.ts:199-202 | enable sets the enabled flag and changes nothing else |
| `SubBoards.Disable` | src/masterCell.ts:194-197 | disable clears the enabled flag and changes nothing else |
| `SubBoards.ScanHorizontal` | src/masterCell.ts:75-100 | the private nested-loop checkHorizontal returns exactly what the shared checkHorizontal returns on the cell values |
| `SubBoards.ScanVertical` | src/masterCell.ts:102-127 | the private checkVertical returns exactly what the shared checkVertical returns on the cell values |
| `SubBoards.ScanDiagonal` | src/masterCell.ts:129-167 | the private checkDiagonal returns exactly what the shared checkDiagonal returns on the cell values |
| `MasterBoard.NewBoard` | src/board.ts:15-28 | a new board has X to move, no last placed cell and nine fresh sub-boards, the one at (i,j) constructed with coordinates (i,j) |
| `MasterBoard.SwitchTurn` | src/board.ts:34-56 | the turn toggles and nothing but the enabled flags changes; with no last placed cell nothing else changes; if the sub-board at the last cell's coordinates has a value, all nine become enabled; otherwise exactly that one is enabled, even when it is full |
| `MasterBoard.CheckWin` | src/board.ts:58-78 | on a line among the sub-board values, all nine sub-boards become enabled; no winner is recorded, the turn and last placed cell stay, and without a line nothing changes |
| `MasterBoard.SubCheckWin` | src/masterCell.ts:54-73 | without a line in its cells nothing changes; with one, the sub-board's value becomes that line's winner, no other value or cell changes, and the master check's enabling follows |
| `MasterBoard.Place` | src/cell.ts:45-46 | placing on an empty cell writes the current turn into that cell and records its coordinates as the last placed cell; no other cell, no sub-board value or flag and not the turn changes |
| `MasterBoard.OnClick` | src/cell.ts:43-52 | a click on an occupied cell changes nothing; a click on an empty cell writes the current turn into it, makes it the last placed cell and switches the turn, because the sub-board check returns nothing |
| `BoardProperties.NewBoardInvariants` | src/board.ts:15-25 | the fresh board has every coordinate in its place, and every sub-board value equals the winner of its cells |
| `BoardProperties.PlacementsAreFinal` | src/cell.ts:43-52 | a click changes no cell other than the clicked one, an occupied clicked cell keeps its value, and a sub-board that has a value keeps it (the overlay blocks its cells and only the clicked sub-board is checked) |
| `BoardProperties.OnClickPreservesWellFormed` | src/cell.ts:43-52 | clicks keep every sub-board's and cell's coordinates equal to its position |
| `BoardProperties.OnClickPreservesConsistent` | src/masterCell.ts:54-73 | if every sub-board value equals the winner of its cells before a click, it does after the click |
| `BoardProperties.ClickForwards` | src/cell.ts:46-51 | after a placement the last placed cell is the clicked cell's coordinates; a sub-board is enabled iff the target at those coordinates has a value or it is the target, overriding the master check's enable-all |
| `BoardProperties.SwitchTurnTwice` | src/board.ts:34-56 | switching twice restores the turn and leaves the enabled flags as one switch set them |
| `BoardProperties.FullUndecidedTargetIsDeadEnd` | src/board.ts:37-54 | when the last placed cell's coordinates name a full sub-board with no value, switching the turn leaves that sub-board the only open one, and every click the next player can make leaves the board unchanged |
| `BoardProperties.FullWithoutLine` | src/utils.ts:44-136 | a sub-board can have all nine cells filled and no line, so the dead end is possible |
| `BoardProperties.SomeBoardStaysOpen` | src/board.ts:37-54 | after a placement, if any sub-board has no value, some sub-board is open |
| `BoardProperties.FirstMoveScenario` | src/cell.ts:43-52 | on a new board, X clicking cell (0,0) of sub-board (1,1) writes X, gives O the turn, and enables only sub-board (0,0) |
| `SingleFile.NewSubBoard` | src/main.ts:68-81 | a new single-file sub-board has value null and nine empty cells at their own coordinates |
| `SingleFile.NewBoard` | src/main.ts:287-300 | a new single-file board has X to move and nine fresh sub-boards |
| `SingleFile.DecidingLine` | src/main.ts:101-115 | of the three results with a winner, the one applied last: a diagonal line beats any column line, which beats any row line (the reverse of the modular priority) |
| `SingleFile.CheckWin` | src/main.ts:96-116 | the value becomes the winner of the last applied line; without a line it is unchanged; cells are untouched |
| `SingleFile.SwitchTurn` | src/main.ts:306-308 | a plain toggle: the turn flips and no sub-board changes |
| `SingleFile.OnClick` | src/main.ts:52-58 | an occupied cell ignores the click; otherwise the cell takes the current turn, the turn toggles, no other cell of the sub-board changes, no other sub-board changes (there is no master check), and the sub-board's value becomes the deciding line's winner, staying null without a line |
| `SingleFile.DecidingWinnerAgrees` | src/main.ts:101-115 | on every grid with a line, the reversed priority yields the same winner as the modular priority |
| `SingleFile.PrioritiesReportDifferentLines` | src/main.ts:101-115 | some grid makes the two priorities report different lines |
| `SingleFile.InitialBoardsAgree` | src/main.ts:287-300 | with enabled flags and last placed cell forgotten, the modular new board is the single-file new board |
| `SingleFile.SubCheckAgrees` | src/main.ts:96-116 | on an undecided sub-board, both revisions' sub-board checks leave the same value |
| `SingleFile.RevisionsAgree` | src/main.ts:52-58 | for every click the modular board accepts, forgetting flags and last placed cell commutes with the click: both revisions produce the same cells, sub-board values and turn |
| `SingleFile.GamesAgree` | src/main.ts:52-58 | every sequence of clicks the modular board accepts is accepted by the single-file board from the forgotten state, and both end with the same cells, sub-board values and turn |
| `SingleFile.NewGamesAgree` | src/main.ts:287-300 | from a new board, every game the modular board allows is played by the single-file board to the same cells, sub-board values and turn |
| `SingleFile.LegacyAcceptsBlockedClick` | src/main.ts:52-58 | without forwarding, the single-file board accepts a second click in sub-board (2,2) after X plays cell (0,0) of the centre, which the modular board blocks |

## Left out

- `drawLine` (src/utils.ts:6-42, src/main.ts:212-243): DOM offsets and floating-point `Math.sqrt`/`Math.atan2`. The endpoints it receives are modelled; the drawing is not.
- `putBigValue`, `initElement`, `updateElement`, CSS class lists, the cover element, `document.getElementById` and the event-listener wiring: presentation and I/O. Only the facts they imply for the logic are kept: a sub-board that is disabled or has a value receives no clicks.
- The re-adding of the click listener in `Cell.reset` (src/cell.ts:59): a DOM side effect.
- `Board.disable`/`Board.enable` (src/board.ts:80-86): they only set the master element's `pointer-events`, and nothing in src/ calls them.
- src/constants.ts: colour class names and SVG icon strings, with no logic.
- Draw detection, a game-over state and typed move errors: the code has none, so the model adds none.
- The object references in the check results and in `lastPlacedCell`: replaced by coordinates, which is all the logic reads.
