/**
 The nonogram data model: cells, colours, the three coordinate systems,
 puzzle metadata, the puzzle itself and a game in progress.

 Boards and solutions are flat sequences in row-major order: the cell at
 column x and row y of a board `width` cells wide sits at index y * width + x.
 */
module Board {

  /** An 8-bit unsigned value (`std::uint8_t`). */
  type Byte = x: int | 0 <= x < 256

  /** A closed three-valued cell; `Clear` is the enumerator with value 0. */
  datatype BoardCell = Clear | Filled | Marked

  /** The underlying `std::uint8_t` of each enumerator, in declaration order. */
  function Underlying(c: BoardCell): (v: Byte)
    ensures v == 0 <==> c == Clear
    ensures v < 3
  {
    match c
    case Clear => 0
    case Filled => 1
    case Marked => 2
  }

  /**
   A board of n value-initialised cells, as `std::vector::resize` produces:
   every cell is the enumerator whose underlying value is 0.
   */
  function ValueInitialised(n: nat): (b: seq<BoardCell>)
    ensures |b| == n
    ensures forall i :: 0 <= i < n ==> Underlying(b[i]) == 0
  {
    seq(n, _ => Clear)
  }

  /** An RGB colour; alpha is not kept. */
  datatype Color = Color(r: Byte, g: Byte, b: Byte)

  /** A terminal character position; the top-left character is (1, 1). */
  datatype TermCoords = TermCoords(x: int, y: int)

  /** A canvas sub-pixel position, indexed from (0, 0). */
  datatype CanvasCoords = CanvasCoords(x: int, y: int)

  /** A square of the board, indexed from (0, 0). */
  datatype BoardCoords = BoardCoords(x: int, y: int)

  /** The puzzle's descriptive text, carried as opaque strings. */
  datatype PuzzleData = PuzzleData(
    title: string,
    description: string,
    author: string,
    date: string,
    license: string,
    wikipedia: string)

  /**
   A puzzle: the solution grid with its dimensions, the reference photo with
   its own dimensions, the metadata, the clues of every row and column and
   the length of the longest row and column clue.
   */
  datatype Puzzle = Puzzle(
    dimensions: BoardCoords,
    solution: seq<BoardCell>,
    photoDimensions: CanvasCoords,
    photo: seq<Color>,
    data: PuzzleData,
    rowHints: seq<seq<Byte>>,
    colHints: seq<seq<Byte>>,
    rowHintsMax: int,
    colHintsMax: int)

  /**
   A game: a shared, read-only puzzle and the player's own board, which uses
   the same row-major index as the puzzle's solution.
   */
  datatype Game = Game(puzzle: Puzzle, board: seq<BoardCell>)

  /** A fresh game: the board is resized to the solution's length. */
  function NewGame(p: Puzzle): (g: Game)
    ensures g.puzzle == p
    ensures |g.board| == |p.solution|
    ensures forall i :: 0 <= i < |g.board| ==> g.board[i] == Clear
  {
    Game(p, ValueInitialised(|p.solution|))
  }
}
