# grandrounds nonogram core, modelled in Dafny

This project models the game logic of the grandrounds terminal nonogram. A
puzzle is a black-and-white solution image plus a photo. The solution
becomes a grid of cells, and every row and column gets a run-length clue.
The player fills, clears or marks squares with the mouse until the board
matches the solution, at which point the photo is revealed.

Modules, one per file:

- `Board` (`board.dfy`): the data model. It holds the three-valued
  `BoardCell`, colours, the terminal, canvas and board coordinate systems,
  the puzzle metadata, the `Puzzle` record and a `Game` (a puzzle paired with
  the player's board). It also defines the value-initialised board a new game
  starts from.
- `Grid` (`grid.dfy`): the row-major chunk and stride views that cut a flat
  grid into rows and columns. It also has reference definitions of row y and
  column x by index, and the lemmas that tie the two together.
- `Hints` (`hints.dfy`): the clue of one line. `Runs` lists the lengths of
  the maximal runs of filled cells. `Clue` is what an 8-bit counter stores:
  each length modulo 256, with zeros dropped. `CalculateHints` is the
  scanning loop itself, proved to compute `Clue`. Its two inner loops are
  the methods `SkipClear` and `CountRun`, each with its own contract.
- `Nonogram` (`nonogram.dfy`): puzzle assembly from decoded images,
  including the narrowing error path. It proves what a constructed puzzle
  satisfies (`WellFormed`), and holds the win check with its properties.
- `NonogramUi` (`component.dfy`): the non-drawing part of the terminal
  component. A class holds the board, the selected square and the win latch.
  Its methods are `OnEvent` (its press branch is `PressSelected`), `Solve`
  and `Reset`. The module also has the mouse-to-square mapping with C++
  truncating division, the board position, `term2canvas` and the square
  colour as an abstract tag.

Inputs the program reads from files are parameters here. A decoded PNG
image is a `DecodedImage` (width, height and RGBA bytes), and the puzzle
metadata is an opaque `PuzzleData`.

Two places where the code decides a question that a plain description of a
nonogram leaves open. The model follows the code in both:

- `calculate_hints` only steps over clear and filled cells. On a line
  holding a marked cell its outer loop never advances, so `CalculateHints`
  requires a line without marked cells. Every solution built from an image
  meets this (`SolutionCells`).
- The run counter is a `std::uint8_t`. A run of 256 or more filled cells is
  stored modulo 256, and a run whose length is a multiple of 256 leaves no
  clue at all (`WrappedRunVanishes`). A clue is its list of runs if and
  only if every run is shorter than 256 (`ClueIsRuns`, `HintsAreRuns`),
  which holds on every line shorter than 256 cells
  (`ShortLineClueIsRuns`).

## Model

| member | source | states |
|---|---|---|
| Board.Underlying | src/nonogram.hpp:33 | the enum's underlying byte is 0 exactly for `clear` and below 3 for every enumerator |
| Board.ValueInitialised | src/game.cpp:65 | a resized board has the requested length and every cell has underlying value 0, i.e. is `clear` |
| Board.NewGame | src/game.cpp:65 | a new game keeps the puzzle and has a board as long as the solution, every cell clear |
| Grid.GridRowsCount | src/grid.hpp:16-19 | `GridRows` (`rv::chunk(width)`) is empty exactly for an empty grid, and the number of chunks is the length divided by the width, rounded up |
| Grid.GridRowsSlice | src/grid.hpp:16-19 | chunk y of `GridRows` is the slice of the grid from y * width to the next multiple of the width or the end |
| Grid.GridRowsAt | src/grid.hpp:16-19 | element x of chunk y of `GridRows` is element y * width + x of the grid |
| Grid.GridRow | src/grid.hpp:22-25 | row `row` of the chunk view is the slice starting at row * width |
| Grid.StrideLength | src/grid.hpp:29-31 | `Stride` (`rv::stride(n)`) over a non-empty sequence has its length divided by n, rounded up, elements |
| Grid.StrideAt | src/grid.hpp:29-31 | element k of `Stride(s, n)` is element k * n of s |
| Grid.DropStride | src/grid.hpp:29-31 | `Stride` after dropping `col` elements, with step `width`, gives elements col, col + width, ... and nothing when col is past the end |
| Grid.GridCol | src/grid.hpp:28-31 | column `col` is empty past the end of the grid, its length is bounded by the grid length, and its element k is element col + k * width |
| Grid.Row | src/grid.hpp:16-19 | reference row y of a width * height grid: `width` elements, element x at y * width + x |
| Grid.Column | src/grid.hpp:28-31 | reference column x of a width * height grid: `height` elements, element y at y * width + x |
| Grid.GridRowsAreRows | src/grid.hpp:16-19 | for a full width * height grid the chunk view has exactly `height` rows, each the reference row |
| Grid.GridColIsColumn | src/grid.hpp:28-31 | for a full grid the stride view of column x is the reference column x |
| Grid.GridColsAreColumns | src/grid.hpp:33-38 | `GridCols` (`grid_cols`) yields exactly `width` columns, column x being the reference column x |
| Grid.ColumnsTransposeRows | src/grid.hpp:18-30 | element y of column x equals element x of row y, with `width` columns of `height` cells and `height` rows of `width` cells |
| Grid.CellIndexUnique | src/nonogram_ftxui.cpp:90-91 | two squares of a width-wide grid share a row-major index exactly when they are the same square |
| Grid.RowCellsInGrid | src/grid.hpp:16-19 | every cell of a row is a cell of the grid |
| Grid.ColumnCellsInGrid | src/grid.hpp:28-31 | every cell of a column is a cell of the grid |
| Hints.FilledPrefix | src/nonogram.cpp:77-80 | the count of the leading filled cells: all of them filled, and the cell after them (if any) not filled |
| Hints.Runs | src/nonogram.cpp:67-88 | reference clue: lengths of maximal runs of filled cells, each at least 1 |
| Hints.Stored | src/nonogram.cpp:76-83 | storing run lengths in an 8-bit counter keeps at most as many entries, each between 1 and 255 |
| Hints.RunBlock | src/nonogram.cpp:77-83 | a maximal leading block of k filled cells contributes k before the runs of the rest |
| Hints.RunsSum | src/nonogram.cpp:72-84 | the run lengths add up to the number of filled cells |
| Hints.ClueSum | src/nonogram.cpp:72-84 | when every run is shorter than 256, `Clue` (the stored clue) adds up to the number of filled cells |
| Hints.RunsEmptyIff | src/nonogram.cpp:67-88 | a line has no runs exactly when it has no filled cell |
| Hints.NoFilledNoClue | src/nonogram.cpp:81-83 | an empty or all-clear line gives the empty clue, never [0] |
| Hints.AllFilledRuns | src/nonogram.cpp:77-80 | a line of n filled cells has the single run n |
| Hints.RunsSplit | src/nonogram.cpp:72-84 | a cell that is not filled separates the runs on its two sides |
| Hints.StoredAppend | src/nonogram.cpp:81-83 | the 8-bit storing acts on each run independently |
| Hints.StoredExact | src/nonogram.cpp:76-83 | run lengths between 1 and 255 are stored unchanged |
| Hints.RunsBounded | src/nonogram.cpp:77-80 | no run is longer than the line |
| Hints.ClueIsRuns | src/nonogram.cpp:76-83 | `Clue`, the stored clue, equals the list of runs if and only if every run is shorter than 256 |
| Hints.ShortLineClueIsRuns | src/nonogram.cpp:76-83 | on a line shorter than 256 cells every run fits and `Clue` is exactly the list of runs |
| Hints.WrappedRunVanishes | src/nonogram.cpp:76-83 | a run of 256 filled cells wraps the counter to 0 and leaves no `Clue` entry |
| Hints.ClueSkipClear | src/nonogram.cpp:73-75 | skipping clear cells does not change the `Clue` of the rest |
| Hints.ClueStep | src/nonogram.cpp:76-83 | one counted block adds its counter to the clue when the counter is not 0 |
| Hints.ScanStep | src/nonogram.cpp:72-84 | one pass of the outer loop keeps "clue so far + clue of the rest = clue of the line" |
| Hints.SkipClear | src/nonogram.cpp:73-75 | the first inner loop stops at the first cell from `from` on that is not clear, or at the end, having passed only clear cells |
| Hints.CountRun | src/nonogram.cpp:76-80 | the second inner loop stops at the first cell from `from` on that is not filled, or at the end, having passed only filled cells, and its 8-bit counter holds their number modulo 256 |
| Hints.MarkedCellStalls | src/nonogram.cpp:72-80 | an outer pass begun on a marked cell moves neither inner loop and counts nothing, so it ends where it began |
| Hints.CalculateHints | src/nonogram.cpp:67-88 | on a line without marked cells the loop terminates and returns exactly `Clue(line)` |
| Nonogram.PixelCell | src/nonogram.cpp:108-111 | a pixel is filled exactly when its R, G and B are all 0, and never marked |
| Nonogram.SolutionCells | src/nonogram.cpp:107-113 | one cell per 4-byte chunk, filled exactly when bytes 0, 1 and 2 of the chunk are 0, never marked |
| Nonogram.PhotoColors | src/nonogram.cpp:115-119 | one colour per 4-byte chunk, holding bytes 0, 1 and 2 of the chunk |
| Nonogram.AlphaIgnored | src/nonogram.cpp:107-119 | buffers differing only in alpha bytes give the same solution and photo |
| Nonogram.LineHints | src/nonogram.cpp:124-133 | one clue per line |
| Nonogram.MaxLen | src/nonogram.cpp:135-139 | on a non-empty list of clues, the result is a clue length that no clue exceeds |
| Nonogram.DerivedHints | src/nonogram.cpp:123-133 | the clues derived through `grid_cols`/`grid_rows` are `width` column clues and `height` row clues, each the clue of the reference column or row |
| Nonogram.BuildWellFormed | src/nonogram.cpp:101-139 | `Build` (the constructor's field initialisation) on a solution without marked cells and a full photo gives a well-formed puzzle: derived clues, cached maxima, matching sizes |
| Nonogram.Assemble | src/nonogram.cpp:101-139 | fails exactly when a dimension exceeds the `int` range; otherwise the puzzle is well formed and carries the dimensions, cells, photo and metadata of its inputs |
| Nonogram.EmptySolutionNoHints | src/nonogram.cpp:135-139 | an all-clear solution gives cached maxima of 0 |
| Nonogram.HintsAreRuns | src/nonogram.cpp:123-133 | a row or column clue equals its list of runs if and only if every run is shorter than 256; on a grid less than 256 wide every row clue does, on one less than 256 high every column clue does |
| Nonogram.SmallPuzzleHints | src/nonogram.cpp:123-139 | the 3 * 2 puzzle filled, clear, filled / clear, filled, clear has row clues [1, 1] and [1], column clues [1], [1], [1], maxima 2 and 1 |
| Nonogram.Projected | src/nonogram.cpp:145-149 | the projected board has no marked cell and is filled exactly where the board is |
| Nonogram.CheckSolution | src/nonogram.cpp:142-151 | true exactly when board and solution have equal length and agree cell by cell on being filled (the solution holding no marked cell); total |
| Nonogram.SolutionWins | src/nonogram.cpp:142-151 | a board equal to the solution wins |
| Nonogram.MarkingKeepsOutcome | src/nonogram.cpp:144-149 | marking a clear cell never changes the outcome |
| Nonogram.FlipLoses | src/nonogram.cpp:142-151 | on a winning board, changing whether one cell is filled loses |
| Nonogram.NewGameWinsIff | src/nonogram.cpp:142-151 | a fresh game is already won exactly when the solution has no filled cell |
| NonogramUi.TruncDiv | src/nonogram_ftxui.cpp:84-85 | division rounding toward zero, as C++ `/` on `int` |
| NonogramUi.SelectionOnBoardIff | src/nonogram_ftxui.cpp:84-87 | `Selection`, the square under the pointer, is on the board exactly when it lies in the 2 * width columns from the board position or the column just left of them, and in the `height` rows from it |
| NonogramUi.SelectionColumns | src/nonogram_ftxui.cpp:84-85 | `Selection` maps both terminal columns of a square to it, and the column left of the board to square 0 |
| NonogramUi.ButtonCell | src/nonogram_ftxui.cpp:92-100 | left fills, right clears, middle marks |
| NonogramUi.Press | src/nonogram_ftxui.cpp:90-100 | a press changes only square y * width + x, to the button's cell, and other buttons change nothing |
| NonogramUi.PressCommutes | src/nonogram_ftxui.cpp:90-100 | presses on two different squares give the same board in either order |
| NonogramUi.CluesFitBesideBoard | src/nonogram_ftxui.cpp:64-69 | `BoardPosition` leaves room left of the board for the longest row clue and above it for the longest column clue |
| NonogramUi.TermToCanvas | src/nonogram_ftxui.cpp:168-172 | a terminal position maps to a canvas position with x even and y a multiple of 4 |
| NonogramUi.TermToCanvasInjective | src/nonogram_ftxui.cpp:168-172 | distinct terminal positions map to distinct canvas positions, neighbours 2 sub-pixels apart across and 4 down |
| NonogramUi.SquareColor | src/nonogram_ftxui.cpp:138-156 | the colour shows the square's cell (white, almost black, gray), is a highlighted variant exactly when the square shares a row or column with the selection, and is never red or black |
| NonogramUi.NonogramComponent.constructor | src/nonogram_ftxui.cpp:64-69 | the component holds the game, nothing selected, not solved, and the board position (3 * row max + 1, column max + 1) |
| NonogramUi.NonogramComponent.OnEvent | src/nonogram_ftxui.cpp:76-111 | selection by truncating division; a press on an in-range square of an unsolved board writes that square by button and sets the latch to the win check; otherwise the selection is (-1, -1) and the board is untouched; once solved, the board never changes; never consumes the event |
| NonogramUi.NonogramComponent.PressSelected | src/nonogram_ftxui.cpp:89-102 | the press branch: the selected square's index lies in the board, the board becomes `Press` of the old board by the button, the latch becomes the win check, and the selection is kept |
| NonogramUi.NonogramComponent.Solve | src/nonogram_ftxui.cpp:113-116 | the board becomes the solution, which wins; the latch and the selection are unchanged |
| NonogramUi.NonogramComponent.Reset | src/nonogram_ftxui.cpp:118-122 | every cell becomes clear, the length is kept and the latch is released |
| NonogramUi.ResetTwice | src/nonogram_ftxui.cpp:118-122 | resetting twice leaves the same state as resetting once |
| NonogramUi.SmallPuzzlePresses | src/nonogram_ftxui.cpp:90-102 | on the 3 * 2 puzzle, left presses on the three filled squares of a fresh board win only after the last |
| NonogramUi.PressesOnFreshBoard | src/nonogram_ftxui.cpp:90-100 | the three left presses of the small puzzle, from a fresh board, give the boards written out cell by cell |
| NonogramUi.SmallPuzzleOutcomes | src/nonogram.cpp:142-151 | on the small puzzle the boards after the first and second press lose and the board after the third wins |
| NonogramUi.UnfilledLoses | src/nonogram.cpp:142-151 | a board that leaves a filled square of the solution unfilled does not win |
| NonogramUi.SmallPuzzleAnyOrder | src/nonogram_ftxui.cpp:90-100 | the three winning left presses of the small puzzle reach its solution in each of their six orders |
| NonogramUi.PlaySmallPuzzle | src/nonogram_ftxui.cpp:64-111 | playing the 3 * 2 puzzle through the component: board drawn at (7, 2), three presses make the board the solution and set the latch |

## Left out

- Loading files: the puzzle directory search, PNG decoding, JSON parsing of the metadata and file reading (`find_puzzles_dir`, `load_image`, `slurp`, `load_puzzle_data`). The decoded image and the metadata are inputs; `Decoded` states what the decoder delivers (a non-empty image with four bytes per pixel).
- Drawing: the canvas, text layout of clues, the photo and `draw_rect`, `draw_board`, `draw_photo`. Only the arithmetic they rely on is modelled (`TermToCanvas`, `CluesFitBesideBoard`, `SquareColor`).
- Terminal colours: their runtime values depend on the environment, so colours are tags, with the nominal RGB triple of each in `Rgb`.
- Sharing: the game sits behind a shared pointer; the model gives the component its own board, which is the only writer in the code modelled.
- The component's `Render` and `IsSolved`, the buttons and event loop around it, and the command line.
- `src/nonogram_component.cpp`: an older copy of the component over a byte board and a puzzle field that the current data model no longer has; the current component in `src/nonogram_ftxui.cpp` is the one modelled.
- Default member values (zero colour channels, zero clue maxima, selection (-1, -1), latch false): only the constructed values are modelled, since every path sets them.
- Hints.CalculateHints: requires a line without marked cells; on a line holding one, the source does not terminate, which a terminating method cannot express.
- NonogramUi.NonogramComponent.OnEvent: the mouse arithmetic uses unbounded integers; `int` overflow for pointer positions near 2^31 is not modelled.
- NonogramUi.SquareColor: the `default` branch yielding red is unreachable with a three-valued enum and is not modelled; the contract states red is never produced.
- Nonogram.Assemble: requires the decoder's guarantees on both images (`Decoded`) instead of modelling decoder failures, which happen in file loading.
