# MineField engine of minesweeper2, in Dafny

This project models the game engine of minesweeper2: the `MineField` class in
`src/minesweeper2.cpp`, with the status and action codes and the state layout
declared in `include/minesweeper2.h`.

A mine field is a square grid of side `size` (1..10) holding `mines` mines.
The engine keeps two grids and updates both in place:

- `field`: -1 marks a mine. Any other value is the cached number of mines in
  the cell's 3x3 block, clipped to the grid.
- `status`: each cell is NEW, REVEALED, FLAGGED or QUESTION.

The player changes state only through `act(x, y, action)`:

- A coordinate or action code out of range is ignored.
- CLEAR, FLAG and QUESTION set the status of a cell that is not yet revealed.
- REVEAL on a mine first moves the mine to a randomly chosen hidden safe cell
  and recounts the grid, so the player cannot lose. The cell is then revealed.
  A zero count floods into its neighbours.
- When a mine is revealed and no hidden safe cell is left, every mine is shown
  and `act` returns true. This is the only way to win.

The Dafny modules follow the program:

- `Codes` (codes.dfy): the header constants.
- `Grid` (grid.dfy): pure geometry. It covers cells, the clipped 3x3 block,
  the scan order of the counting loops, and the flood predicates
  `FloodClosed`, `FloodChain` (with `Reached`) and `FloodFrom` that say what a
  flood opens.
- `Engine` (minefield.dfy): the class `MineField`. Its two `array2` fields
  are updated by methods with `modifies` clauses. Its ghost predicate
  `Valid()` is the state between two actions:
  - every status is one of the four codes;
  - every cached count equals the live neighbour count;
  - exactly `mines` cells hold a mine.
  `size` and `mines` are `const` fields, because the header marks them
  "not to be modified".
- `Report` (report.dfy): the glyph that `print_field` shows for one cell.

Coordinates follow the source: `x` is the first index (the row) and `y` the
second (the column).

## Model

| member | source | states |
|---|---|---|
| Codes.CodesWellFormed | include/minesweeper2.h:4-13 | the range check CLEAR <= a <= QUESTION accepts exactly the four action codes; the four status codes are pairwise distinct |
| Codes.MarkFor | src/minesweeper2.cpp:123-141 | CLEAR, FLAG and QUESTION each write one status code, never REVEALED; CLEAR gives NEW and FLAG gives FLAGGED exactly, and QUESTION gives QUESTION |
| Engine.ClampSize | src/minesweeper2.cpp:8-11 | the size always lies in 1..10; a request in 1..10 is kept, and anything else becomes 10 |
| Engine.ClampMines | src/minesweeper2.cpp:13-16 | the mine count is at least 1; a request in 1..size*size-1 is kept, and anything else becomes 20 |
| Engine.FallbackOverfills | src/minesweeper2.cpp:13-16 | on a grid of side at most 4, the request size*size falls back to 20 mines, which is more mines than cells |
| Engine.MineField.constructor | src/minesweeper2.cpp:6-22 | size and mines are the clamped requests; the new field is Valid and every cell is NEW |
| Engine.MineField.Reset | src/minesweeper2.cpp:24-77 | fresh grids; every cell is NEW; exactly `mines` distinct cells hold a mine; every count is correct |
| Engine.MineField.PlaceMine | src/minesweeper2.cpp:66-74 | one placement adds exactly one new mine cell to the layout, and every cell still holds 0 or -1 |
| Grid.FreeCellExists | src/minesweeper2.cpp:66-74 | while fewer than size*size cells are mined, a free cell exists, so the placement loop can always place its next mine |
| Engine.MineField.CountMinesAround | src/minesweeper2.cpp:235-244 | the nested count loop returns the number of mined cells in the grid-clipped 3x3 block |
| Engine.MineField.CountRowAround | src/minesweeper2.cpp:237-243 | one pass of the inner count loop over row x of the block adds the mines of that row, in scan order, to the counter |
| Grid.BlockCountAround | src/minesweeper2.cpp:236-243 | the running counter of the row-major block scan ends equal to the number of mines in the clipped block |
| Grid.CountInSet | src/minesweeper2.cpp:236-243 | a counter that visits pairwise different cells and adds one for each mined grid cell ends equal to the number of mined grid cells among them |
| Grid.BlockSeqAround | src/minesweeper2.cpp:236-238 | the nine positions the nested loops visit are pairwise different, and the grid cells among them are exactly the clipped block |
| Grid.AroundCard | src/minesweeper2.cpp:236-238 | a cell lies in its own block, and the block holds at most eight other cells |
| Engine.MineField.Refresh | src/minesweeper2.cpp:230-249 | mine cells stay -1, so the layout is unchanged; every other cell receives the number of mines around it, so every count is correct |
| Engine.MineField.RefreshRow | src/minesweeper2.cpp:233-247 | one row is recounted against the fixed layout; the other rows are untouched |
| Engine.MineField.ZerosAreClear | src/minesweeper2.cpp:209-216 | in a valid state, a cell whose count is 0 has no mined cell in its block |
| Engine.MineField.RevealAll | src/minesweeper2.cpp:220-228 | every mine becomes REVEALED and every other status is kept; the hidden cells afterwards are the hidden safe cells |
| Engine.MineField.Reveal | src/minesweeper2.cpp:204-218 | a no-op on a revealed cell; otherwise the cell becomes REVEALED, and a cell whose count is not 0 opens alone; the ghost result lists the opened cells in opening order, each cell after the first lying in the block of an earlier opened zero cell, so nothing is opened that the recursion does not reach; every opened zero cell leaves no neighbour hidden; statuses only change to REVEALED; `field` is untouched; the recursion terminates on the number of hidden cells |
| Engine.MineField.RevealAround | src/minesweeper2.cpp:209-217 | after the flood step from a zero cell, none of its neighbours is hidden, and the opening order starting at that cell covers exactly the cells opened since Reveal began |
| Engine.MineField.RevealRow | src/minesweeper2.cpp:211-215 | after one row of the flood step, the block cells in that row are revealed, and the opening order is extended by exactly the cells the recursive calls opened |
| Grid.ChainAppend | src/minesweeper2.cpp:209-216 | the cells opened by a recursive call on a neighbour of an opened zero cell extend the caller's opening order, so reachability from the origin is kept |
| Grid.NumberedOriginAlone | src/minesweeper2.cpp:208-209 | a flood whose origin has a nonzero count opens the origin alone |
| Grid.FloodAvoidsMines | src/minesweeper2.cpp:204-218 | when zero-count cells really have no mined neighbour, a flood opens no mine except possibly its origin |
| Engine.MineField.RevealSafe | src/minesweeper2.cpp:122 | on a revealed target nothing changes; otherwise the opened cells are those reached from the target through opened zero cells, a numbered target opens alone, no mine is opened, the state stays Valid, and a game with no mine shown stays so |
| Engine.MineField.CollectCandidates | src/minesweeper2.cpp:94-105 | the candidate list holds exactly the hidden safe cells, in row-major order |
| Engine.MineField.MoveMine | src/minesweeper2.cpp:107-114 | the mine leaves the target and lands on the chosen hidden safe cell; the number of mines is conserved and the counts are recomputed |
| Engine.MineField.RevealMine | src/minesweeper2.cpp:92-120 | the game is won exactly when no hidden safe cell is left, and then every mine is shown and nothing is hidden; otherwise the mine moved to one hidden safe cell and no status changed |
| Engine.MineField.RevealAction | src/minesweeper2.cpp:92-122 | REVEAL wins exactly when it hits a mine with no hidden safe cell left; on a revealed safe cell it changes nothing, and on a revealed cell that is not a win no status changes, even when a mine moves away from it; otherwise the target ends safe and revealed, the layout changes only by the one relocation, and the opened cells are exactly those the flood reaches from the target |
| Engine.MineField.Act | src/minesweeper2.cpp:81-144 | invalid input changes nothing and returns false; marks change only the target's status and only if it is not revealed; REVEAL returns true exactly on the win path and changes nothing on a revealed safe cell and no status on any revealed cell short of the win; a reveal opens only what the flood reaches from the target, and a numbered target alone; Valid is kept; REVEALED is terminal; no mine is shown before the win |
| Report.Glyph | src/minesweeper2.cpp:174-188 | X exactly for a revealed mine; blank, F and ? exactly for NEW, FLAGGED and QUESTION; E exactly for a status outside the four codes; a revealed count prints as its decimal digits |
| Report.Digits | src/minesweeper2.cpp:178 | a natural number prints as at least one decimal digit, and as exactly one digit when it is below 10, with a leading 0 only for 0 itself |
| Report.DigitsRoundTrip | src/minesweeper2.cpp:178 | reading the printed digits back gives the number |
| Report.ReportAlphabet | src/minesweeper2.cpp:174-188 | in a valid state, every cell prints as one character out of blank, F, ?, X and 0..8; E never appears |

## Left out

- Console output: the `std::cout` rendering in `print_field` is not modelled. This covers the A-J column header, the row labels and the space after each glyph. Only the glyph choice is.
- `src/main.cpp` is not part of this model. It parses the arguments, runs the input prompt loop and prints messages; it holds no game logic.
- Randomness is left out. `srand(time(NULL))` and the distribution of `rand()` are not modelled.
  - In `act`, the value of `rand()` becomes the parameter `rand` of `Act`. The source's index `rand % |candidates|` is kept.
  - In `reset`, each placement takes some free cell.
- Engine.MineField.PlaceMine: abstracts the source's retry loop. The source draws random coordinates and steps `i` back on a collision; the model picks a free cell directly. So the model does not capture which cell a given random sequence yields, or how many draws are needed.
- Engine.MineField.constructor: requires the clamped mine count to be at most size*size. With the fallback of 20 mines, the source's `reset` would search forever for a free cell on a grid of side 4 or less. `Engine.FallbackOverfills` shows that `MineField(2, 4)` is such a call, and the command line accepts it. The model leaves these calls out instead of modelling the endless loop.
- Manual memory management is not modelled. This is the `new[]`/`delete[]` of the row arrays in `reset`. The grids are Dafny `array2` objects, allocated afresh on every reset.
- Header-only members are left out, because no body for them exists. They are `reset(safe_x, safe_y)`, `flag`, `reveal`, `field_report`, `_reveal_all_mines_unless_flagged`, `_recount`, and the fields `_unrevealed` and `_mine_move_count`.
- The model follows the `.cpp` where the header declares something else:
  - `reset(safe_x, safe_y)` (include/minesweeper2.h:25-31) promises a safe first cell; the `.cpp` defines only `reset()`, with no safe cell.
  - `flag` and `reveal` returning the relocation count (include/minesweeper2.h:33-42) have no body; `act` returns only whether the game is won.
  - The counters `_unrevealed` and `_mine_move_count` (include/minesweeper2.h:55, 59) are never maintained.
  - `_reveal_all_mines_unless_flagged` (include/minesweeper2.h:69-72) is replaced by `_reveal_all`, which reveals every mine, flagged or not.
  - The comment at src/minesweeper2.cpp:79-81 says the user wins once every safe cell is revealed; the code detects the win only when a mine is revealed with no hidden safe cell left, so revealing the last safe cell returns false.
- Machine integers are not modelled. Sizes are at most 10 and counts at most 8, so no `int` arithmetic in the source can overflow, and unbounded integers change nothing.
