# Minesweeper rules engine in Dafny

This project models the game rules of a single-file pygame Minesweeper
(`Minesweeper.py`) and proves properties of them. The board is a flat list
of `Columns * Rows` = 100 cells. Cell `i` lies at column `i % Columns`, row
`i // Columns`. Two lists describe a game:

- `Field` holds the hidden contents: a hint 0..8 or a mine (9).
- `Cover` holds what the player sees: the field value once a cell is
  uncovered, or cover (10), flag (11), question mark (12) or an exploded
  mine (13).

The modules follow the program's structure:

- `Board` (`board.dfy`) holds the settings, the tile values,
  `next_to_field` and the list of eight neighbour offsets.
- `Tally` (`tally.dfy`) holds `sum` over a list and the count of one value
  in a list.
- `Generate` (`generate.dfy`) models `create_field`:
  - the placement loop runs on an array;
  - the nested hint loops run on the same array;
  - a field is proved to hold exactly the drawn mines, with every non-mine
    cell equal to the number of its mine neighbours.
- `FloodFill` (`floodfill.dfy`) models `clear_tile`:
  - the forward and the reverse sweep run in place on the cover array;
  - the checksum loop ends the fill;
  - the list of cleared cells is built alongside.

  Once the checksum stops dropping, the cover is proved to be a fixpoint:
  every neighbour of a cell showing 0 shows its field value. Every cell
  the fill uncovers is proved to be connected, through neighbouring cells
  that show 0, to a cell that showed 0 before the fill. Together these say
  that the fill uncovers exactly the region around the connected 0 cells.
- `Play` (`play.dfy`) holds `count_mines`, the win test and a `Game` class.
  The class holds the globals `Field`, `Cover`, `Mines_Found`, `Game_Lost`
  and `Game_Won`. Its methods model the left-click and right-click
  handlers and the win test of the main loop.

  Its invariant (`GameOk`) covers:
  - generated fields;
  - well-formed cells;
  - no unfinished flood fill;
  - `Game_Lost` exactly when a mine exploded;
  - `Mines_Found` equal to the number of flagged mines plus the "stale"
    flags (defined below).

At the following points the program's behaviour differs from the usual
Minesweeper rules or is easy to misread; the model follows the program:

- **Flood fill overwrites marks.** `clear_tile` gives every neighbour of a
  0 cell its field value, including flagged and question-marked cells
  (Minesweeper.py:125-130). Such a neighbour is never a mine.
- **A left click ignores flags.** The handler reveals even a flagged cell
  (Minesweeper.py:254).
  - When that cell is a mine, `Mines_Found` is not lowered, although the
    flag is gone.
  - The model keeps those cells in the ghost set `StaleFlags`, the stale
    flags.
  - Before any mine explodes, this set is empty (`WinTestInPlay`).
- **The win test.** It is `Mines_Found == Num_Mines` with no plain cover
  left (Minesweeper.py:287). It is not "every non-mine cell revealed":
  - question-marked cells do not block a win;
  - flags on non-mine cells do not block a win (`WinTestMeans`);
  - the test does not look at `Game_Lost`.
- **Mine placement.** The placement loop tests `sum(field)` against
  `Num_Mines * Mine_ID` (Minesweeper.py:92) and does not count mines
  directly. While the field holds only 0 and 9, the two tests agree, and
  `PlaceMines` proves that.
- **Clicks after the game ends.** Clicks are handled whether or not the
  game is over, so the model's methods do not require a running game.

## Model

| member | source | states |
|---|---|---|
| Board.NextToField | Minesweeper.py:72-84 | the pixel-range test holds exactly when the columns and the rows of the two cells each differ by at most one |
| Board.NextToFieldSymmetric | Minesweeper.py:72-84 | the neighbour test is symmetric and every cell lies next to itself |
| Board.NeighbourOffsets | Minesweeper.py:96-103 | for a cell on the board, the eight offsets give exactly its geometric neighbours once combined with the index-range test and `next_to_field` |
| Board.OffsetsDistinct | Minesweeper.py:96 | the eight offsets are distinct and non-zero, so no neighbour is visited twice |
| Board.NoRowWrap | Minesweeper.py:72-84 | the offsets that would wrap round a row are rejected by `next_to_field`: +1, -Columns+1 and +Columns+1 from the last column, -1, -Columns-1 and +Columns-1 from the first |
| Tally.SumPointwise | Minesweeper.py:122-146 | a list nowhere above another has a sum no greater, and an equal sum only when the lists are equal; a pass that does not lower the checksum therefore changed nothing |
| Generate.AdjacentMinesViaOffsets | Minesweeper.py:96-105 | counting mines over the geometric neighbours equals counting them over the eight offsets that pass the range and `next_to_field` tests |
| Generate.AdjacentMinesAtMost8 | Minesweeper.py:98-105 | a cell has at most eight neighbouring mines |
| Generate.HintRange | Minesweeper.py:98-105 | in a field with correct hints every cell holds 0..9 |
| Generate.ZeroHasNoMineNeighbour | Minesweeper.py:98-105 | no neighbour of a 0 cell is a mine |
| Generate.PlaceMines | Minesweeper.py:89-93 | after the loop, cells hold 0 or 9 and a cell holds a mine exactly when it was drawn; the loop stops with ten mines, or with fewer only once the draws run out |
| Generate.HintStep | Minesweeper.py:100-105 | one offset of one mine: the neighbour's count rises by one exactly when it is on the board, next to the mine and not a mine |
| Generate.HintsAround | Minesweeper.py:100-105 | after the offsets of cell m, every non-mine cell counts the neighbouring mines among cells 0..m; mines stay mines |
| Generate.PlaceHints | Minesweeper.py:98-105 | every non-mine cell ends up holding the number of its neighbouring mines; mine cells are unchanged |
| Generate.CreateField | Minesweeper.py:87-106 | the field has 100 cells, mines exactly on the drawn cells and correct hints; it is a full board with ten mines exactly when placement finished |
| FloodFill.VisitStep | Minesweeper.py:124-130 | one offset of cell i: when i shows 0 and the offset passes the range and `next_to_field` tests, that neighbour gets its field value and, if it was above `Mine_ID` and not yet listed, is appended to the cleared list; otherwise cover and list are unchanged; every change is supported by a 0 cell |
| FloodFill.Visit | Minesweeper.py:124-130 | the eight offsets of cell i: afterwards each cell shows its field value if i showed 0 and it is a neighbour of i, and is unchanged otherwise |
| FloodFill.ForwardSweep | Minesweeper.py:123-130 | after the forward sweep, every neighbour of a cell that showed 0 before the sweep is uncovered; only covered cells change; a fixpoint is left unchanged |
| FloodFill.ReverseSweep | Minesweeper.py:135-142 | after the reverse sweep, every neighbour of a cell that showed 0 before the sweep is uncovered; only covered cells change; a fixpoint is left unchanged |
| FloodFill.ClearTile | Minesweeper.py:109-147 | only covered cells change, each to its non-mine field value, and each is connected to a cell that showed 0 before the call by a chain of neighbours that show 0; the cleared list holds each changed cell once; from any cover summing below the first checksum it stops at a fixpoint; from a cover summing to the first checksum or more, and on a fixpoint, it changes nothing and lists nothing |
| FloodFill.UncoverOne | Minesweeper.py:127-130 | uncovering one neighbour of a 0 cell keeps the fill's progress: only covered cells change, each to its field value, the cleared list records each once, and each change is supported by a 0 cell |
| FloodFill.Pass | Minesweeper.py:123-142 | one round of both sweeps uncovers every neighbour of a cell that showed 0 when it began and changes nothing else but covered cells; if it does not lower the checksum it changed nothing and left a fixpoint; on a fixpoint it changes nothing |
| FloodFill.ChecksumLoop | Minesweeper.py:116-147 | the checksum loop ends; from a cover summing below the first checksum it stops at a fixpoint, and from one summing to it or more it changes nothing; throughout, only covered cells change, the cleared list records them, and each changed cell is supported by a 0 cell at a smaller depth or by a 0 of the starting cover |
| FloodFill.PassSettles | Minesweeper.py:122-147 | two sweeps that each uncover the neighbours of the 0 cells they start from together uncover the neighbours of the 0 cells of the pass start; if the checksum did not drop, nothing changed and a fixpoint was reached |
| FloodFill.ChangesJustified | Minesweeper.py:109-130 | each uncovered cell is a non-mine at the end of a chain of neighbours showing 0 that starts from a cell showing 0 before the fill |
| FloodFill.UncoverKeepsWitnesses | Minesweeper.py:127-130 | a cell uncovered from a 0 neighbour is supported by it one step deeper, and no earlier support is disturbed |
| FloodFill.SupportChain | Minesweeper.py:109-113 | following the supports back from a changed cell gives a chain of neighbours showing 0 from a cell that showed 0 at the start, ending at that cell |
| FloodFill.VisitedStep | Minesweeper.py:124-130 | one more offset extends the exact description of a visit's effect from the first k offsets to the first k + 1 |
| FloodFill.ClearedStep | Minesweeper.py:123-142 | visiting the cell just above or just below the range already handled extends "every neighbour of a starting 0 is uncovered" to that cell |
| FloodFill.NothingListed | Minesweeper.py:118-129 | when the cover is unchanged, the cleared list is empty |
| Play.CountMines | Minesweeper.py:193-199 | the counter is the number of mines less the number of flags, in any state of the cover |
| Play.RemainingZeroWhenMinesFlagged | Minesweeper.py:193-199 | with flags on exactly the mine cells, the counter shows 0 |
| Play.MarkCycle | Minesweeper.py:272-280 | a right click moves cover, flag and question mark round a three-step cycle and leaves every other value alone |
| Play.MarkDelta | Minesweeper.py:272-282 | a right click changes `Mines_Found` by +1 when a mine becomes flagged and by -1 when a mine's flag turns into a question mark |
| Play.FlaggedMinesAtMost | Minesweeper.py:287 | at most every mine is flagged, and the count of flagged mines equals the mine count exactly when all mines are flagged |
| Play.WinTestMeans | Minesweeper.py:287 | for a counter equal to the flagged mines, the win test holds exactly when every mine is flagged and no cell is plainly covered |
| Play.WinTestInPlay | Minesweeper.py:287 | in a game that is not lost, the win test means that every mine is flagged and no cell is plainly covered |
| Play.ShownHints | Minesweeper.py:254-259 | an uncovered cell shows the number of mines around it |
| Play.CoverSumBelowFirstChecksum | Minesweeper.py:116-122 | after a 0 cell is revealed, the cover sums to less than the first checksum, so the fill loop runs |
| Play.RevealedEmpty | Minesweeper.py:254-259 | revealing a 0 cell and filling from it keeps the game invariant |
| Play.FromClick | Minesweeper.py:254-259 | since nothing was left to uncover before the click, a chain of 0 cells from a 0 of the revealed cover to a newly uncovered cell passes through the clicked cell, and its tail from there starts at the clicked cell |
| Play.RevealedMine | Minesweeper.py:260-262 | revealing a mine shows the explosion, loses the game and turns a flag on that mine into a stale flag |
| Play.RevealedNumber | Minesweeper.py:254 | revealing a hint 1..8 keeps the game invariant |
| Play.Remarked | Minesweeper.py:272-282 | a right click keeps the game invariant, with the counter changed by `MarkDelta` |
| Play.NewGame | Minesweeper.py:214-216 | when placement finishes, a new game on a field with mines exactly on the drawn cells, every cell covered and nothing found, lost or won, keeping the invariant; no game only when all the draws together mark fewer than ten cells |
| Play.Game.constructor | Minesweeper.py:215-216 | a new game covers every cell of a generated field with nothing found, lost or won |
| Play.Game.LeftClick | Minesweeper.py:254-262 | the clicked cell shows its field value, or the explosion on a mine, which loses the game; other cells change only for a 0, and then only from covered to a non-mine value, each connected to the clicked cell by a chain of neighbours showing 0; the invariant is kept |
| Play.Game.RightClick | Minesweeper.py:272-282 | the clicked cell takes the next mark of the cycle; no other cell changes; `Mines_Found` moves by `MarkDelta`; the invariant is kept |
| Play.Game.CheckWin | Minesweeper.py:287-288 | `Game_Won` becomes set when all ten mines are found with no plain cover left, and is never cleared |

## Left out

- Drawing is not modelled, being pygame output: tiles, `fill_screen`, the
  info row and the end screens (Minesweeper.py:57-69, 150-189, 226-232,
  298-347).
- The mouse position is not modelled, being pygame input. The handlers
  take the cell index directly. The source computes that index from the
  pixel position, always as a cell of the board (Minesweeper.py:243-253,
  266-271). So `LeftClick` and `RightClick` require `0 <= index < Cells`,
  and a click on the info row is not modelled.
- The timer and `datetime` are not modelled, being clock input
  (Minesweeper.py:47-54, 202-205, 289-295).
- The high-score file is not modelled, being file I/O
  (Minesweeper.py:313-326).
- `rnd.randrange` is replaced by a supplied sequence of draws. The model
  reports whether ten mines were placed before the draws ran out, and
  `NewGame` returns no game when they were not; the source loops until they
  are.
- Generate.PlaceMines: does not model the unbounded loop of the source,
  because a finite draw sequence stands in for the random generator; when
  the draws run out before ten mines are placed, it stops and says so.
- FloodFill.ClearTile: the source sums the global `Cover` rather than its
  parameter. The game always passes `Cover`, so the model sums the array
  it is given.
- The settings are the constants of the source (10 x 10, ten mines) and
  are not parameters.
