/**
 The interactive board: the non-drawing part of the terminal component.

 The component keeps the player's board, the square under the mouse and a
 latch that records a win. A mouse event selects the square under the
 pointer; a press on a square of an unsolved board sets that square
 according to the button and re-runs the win check. Solve copies the
 solution onto the board; Reset clears it. Colours are tags; `Rgb` gives
 the nominal triple of each.
 */
module NonogramUi {
  import opened Board
  import opened Grid
  import opened Nonogram

  /** Mouse buttons as the terminal library reports them; `NoButton` is its `None`. */
  datatype MouseButton = Left | Middle | Right | NoButton | WheelUp | WheelDown

  datatype MouseMotion = Released | Pressed | Moved

  datatype Event =
    | MouseEvent(x: int, y: int, button: MouseButton, motion: MouseMotion)
    | OtherEvent

  datatype ColorTag = Black | AlmostBlack | BlackSelect | White | WhiteSelect | Gray | GraySelect | Red

  /** The nominal RGB triple of each colour. */
  function Rgb(c: ColorTag): Color
  {
    match c
    case Black => Color(0, 0, 0)
    case AlmostBlack => Color(32, 32, 32)
    case BlackSelect => Color(32, 32, 64)
    case White => Color(255, 255, 255)
    case WhiteSelect => Color(223, 223, 255)
    case Gray => Color(128, 128, 128)
    case GraySelect => Color(128, 128, 160)
    case Red => Color(255, 0, 0)
  }

  /** Integer division rounding toward zero, as C++ `/` does. */
  function TruncDiv(a: int, d: int): (q: int)
    requires d > 0
    ensures a >= 0 ==> 0 <= a - q * d < d
    ensures a < 0 ==> 0 <= q * d - a < d
  {
    if a >= 0 then a / d else -((-a) / d)
  }

  /** The square under the mouse: each square is two terminal columns wide and one row high. */
  function Selection(mouseX: int, mouseY: int, boardPosition: TermCoords): BoardCoords
  {
    BoardCoords(TruncDiv(mouseX - boardPosition.x, 2), mouseY - boardPosition.y)
  }

  predicate OnBoard(s: BoardCoords, dimensions: BoardCoords)
  {
    0 <= s.x < dimensions.x && 0 <= s.y < dimensions.y
  }

  /**
   The mouse selects a square exactly when it lies in the 2 * width columns
   from the board position on, or in the column just left of them: rounding
   toward zero maps that column to square 0 as well.
   */
  lemma SelectionOnBoardIff(mouseX: int, mouseY: int, boardPosition: TermCoords, dimensions: BoardCoords)
    requires dimensions.x > 0
    ensures OnBoard(Selection(mouseX, mouseY, boardPosition), dimensions) <==>
              boardPosition.x - 1 <= mouseX < boardPosition.x + 2 * dimensions.x &&
              boardPosition.y <= mouseY < boardPosition.y + dimensions.y
  {
    var d := mouseX - boardPosition.x;
    var q := TruncDiv(d, 2);
    if d < -1 {
      assert q < 0;
    } else if d >= 2 * dimensions.x {
      assert q >= dimensions.x;
    }
  }

  /** Both columns of square x select it; so does the column left of the board for square 0. */
  lemma SelectionColumns(x: int, mouseY: int, boardPosition: TermCoords)
    requires x >= 0
    ensures Selection(boardPosition.x + 2 * x, mouseY, boardPosition).x == x
    ensures Selection(boardPosition.x + 2 * x + 1, mouseY, boardPosition).x == x
    ensures Selection(boardPosition.x - 1, mouseY, boardPosition).x == 0
  {
  }

  /** The cell each button writes: left fills, right clears, middle marks, any other writes nothing. */
  function ButtonCell(b: MouseButton): (c: BoardCell)
    requires b == Left || b == Right || b == Middle
    ensures (c == Filled <==> b == Left) && (c == Clear <==> b == Right) && (c == Marked <==> b == Middle)
  {
    match b
    case Left => Filled
    case Right => Clear
    case Middle => Marked
  }

  /** The board after a press of `button` on square s: only that square can change. */
  function Press(board: seq<BoardCell>, width: int, s: BoardCoords, button: MouseButton): (b: seq<BoardCell>)
    requires 0 <= s.x < width && 0 <= s.y && s.y * width + s.x < |board|
    ensures |b| == |board|
    ensures forall i :: 0 <= i < |b| && i != s.y * width + s.x ==> b[i] == board[i]
    ensures button == Left || button == Right || button == Middle ==> b[s.y * width + s.x] == ButtonCell(button)
    ensures !(button == Left || button == Right || button == Middle) ==> b == board
  {
    if button == Left || button == Right || button == Middle
    then board[s.y * width + s.x := ButtonCell(button)]
    else board
  }

  /** Presses on two different squares commute: either order leaves the same board. */
  lemma PressCommutes(board: seq<BoardCell>, width: int, s: BoardCoords, t: BoardCoords, bs: MouseButton, bt: MouseButton)
    requires 0 <= s.x < width && 0 <= s.y && s.y * width + s.x < |board|
    requires 0 <= t.x < width && 0 <= t.y && t.y * width + t.x < |board|
    requires s != t
    ensures Press(Press(board, width, s, bs), width, t, bt) == Press(Press(board, width, t, bt), width, s, bs)
  {
    CellIndexUnique(s.x, s.y, t.x, t.y, width);
  }

  /** Where the board is drawn: right of the row clues (three columns each), below the column clues. */
  function BoardPosition(p: Puzzle): TermCoords
  {
    TermCoords(p.rowHintsMax * 3 + 1, p.colHintsMax + 1)
  }

  /**
   Every clue number is drawn at a non-negative canvas position: the i-th
   number from the right of a row clue starts at column
   (board x - 3 * (i + 1) - 1) * 2 and the i-th from the bottom of a column
   clue at row (board y - (i + 1)) * 4, so the board position leaves room
   for the longest row clue on the left and the longest column clue above.
   */
  lemma CluesFitBesideBoard(p: Puzzle)
    requires WellFormed(p)
    ensures forall y :: 0 <= y < |p.rowHints| ==> (BoardPosition(p).x - 3 * |p.rowHints[y]| - 1) * 2 >= 0
    ensures forall x :: 0 <= x < |p.colHints| ==> (BoardPosition(p).y - |p.colHints[x]|) * 4 >= 0
  {
    assert IsMaxLen(p.rowHints, p.rowHintsMax) && IsMaxLen(p.colHints, p.colHintsMax);
  }

  /** `term2canvas`: a terminal character is two canvas sub-pixels wide and four high. */
  function TermToCanvas(boardPosition: TermCoords, term: TermCoords): (c: CanvasCoords)
    ensures c.x % 2 == 0 && c.y % 4 == 0
  {
    CanvasCoords((boardPosition.x + term.x - 1) * 2, (boardPosition.y + term.y - 1) * 4)
  }

  /** Distinct terminal characters land on distinct canvas positions, one character apart. */
  lemma TermToCanvasInjective(boardPosition: TermCoords, t: TermCoords, u: TermCoords)
    ensures TermToCanvas(boardPosition, t) == TermToCanvas(boardPosition, u) <==> t == u
    ensures TermToCanvas(boardPosition, TermCoords(t.x + 1, t.y)).x == TermToCanvas(boardPosition, t).x + 2
    ensures TermToCanvas(boardPosition, TermCoords(t.x, t.y + 1)).y == TermToCanvas(boardPosition, t).y + 4
  {
  }

  predicate IsSelectTag(c: ColorTag)
  {
    c == WhiteSelect || c == BlackSelect || c == GraySelect
  }

  /** The cell a square colour shows. */
  function ShownCell(c: ColorTag): BoardCell
    requires c != Red
  {
    match c
    case White | WhiteSelect => Clear
    case Black | AlmostBlack | BlackSelect => Filled
    case Gray | GraySelect => Marked
  }

  /**
   `square_color`: white, near-black or gray for a clear, filled or marked
   square, in the highlighted variant when the square shares a row or a
   column with the selected one. The colour tells the cell and the
   highlight apart, and red is never produced.
   */
  function SquareColor(g: Game, selected: BoardCoords, square: BoardCoords): (c: ColorTag)
    requires 0 <= square.y * g.puzzle.dimensions.x + square.x < |g.board|
    ensures c != Red && c != Black
    ensures ShownCell(c) == g.board[square.y * g.puzzle.dimensions.x + square.x]
    ensures IsSelectTag(c) <==> selected.x == square.x || selected.y == square.y
  {
    var cell := g.board[square.y * g.puzzle.dimensions.x + square.x];
    var isSelected := selected.x == square.x || selected.y == square.y;
    match cell
    case Clear => if isSelected then WhiteSelect else White
    case Filled => if isSelected then BlackSelect else AlmostBlack
    case Marked => if isSelected then GraySelect else Gray
  }

  class NonogramComponent {
    const puzzle: Puzzle
    const boardPosition: TermCoords
    var board: seq<BoardCell>
    var selected: BoardCoords
    var solved: bool

    /** The win latch never claims a win the board does not have. */
    ghost predicate Valid()
      reads this
    {
      && WellFormed(puzzle)
      && |board| == |puzzle.solution|
      && (solved ==> CheckSolution(Game(puzzle, board)))
    }

    constructor (game: Game)
      requires WellFormed(game.puzzle) && |game.board| == |game.puzzle.solution|
      ensures Valid()
      ensures puzzle == game.puzzle && board == game.board
      ensures boardPosition == BoardPosition(game.puzzle)
      ensures selected == BoardCoords(-1, -1) && !solved
    {
      puzzle := game.puzzle;
      board := game.board;
      boardPosition := BoardPosition(game.puzzle);
      selected := BoardCoords(-1, -1);
      solved := false;
    }

    /**
     `OnEvent`: a mouse event selects the square under the pointer, or no
     square when the pointer is off the board or the puzzle is solved; a
     press on a selected square sets it by button and re-runs the win check.
     The event is never consumed.
     */
    method OnEvent(event: Event) returns (handled: bool)
      requires Valid()
      modifies this
      ensures Valid() && !handled
      ensures !event.MouseEvent? ==> board == old(board) && selected == old(selected) && solved == old(solved)
      ensures event.MouseEvent? ==>
                var s := Selection(event.x, event.y, boardPosition);
                var accepted := OnBoard(s, puzzle.dimensions) && !old(solved);
                && selected == (if accepted then s else BoardCoords(-1, -1))
                && (accepted && event.motion == Pressed ==>
                      && s.y * puzzle.dimensions.x + s.x < |old(board)|
                      && board == Press(old(board), puzzle.dimensions.x, s, event.button)
                      && solved == CheckSolution(Game(puzzle, board)))
                && (!(accepted && event.motion == Pressed) ==> board == old(board) && solved == old(solved))
      ensures old(solved) ==> solved && board == old(board)
    {
      if event.MouseEvent? {
        var width := puzzle.dimensions.x;
        var height := puzzle.dimensions.y;
        selected := Selection(event.x, event.y, boardPosition);
        var inRange := 0 <= selected.x < width && 0 <= selected.y < height;
        if inRange && !solved {
          if event.motion == Pressed {
            PressSelected(event.button);
          }
        } else {
          selected := BoardCoords(-1, -1);
        }
      }
      handled := false;
    }

    /**
     The press branch of `OnEvent`: the selected square is set by button
     (left fills, right clears, middle marks, any other leaves it) and the
     win check runs again.
     */
    method PressSelected(button: MouseButton)
      requires Valid() && OnBoard(selected, puzzle.dimensions) && !solved
      modifies this
      ensures Valid() && selected == old(selected)
      ensures selected.y * puzzle.dimensions.x + selected.x < |old(board)|
      ensures board == Press(old(board), puzzle.dimensions.x, selected, button)
      ensures solved == CheckSolution(Game(puzzle, board))
    {
      var width := puzzle.dimensions.x;
      CellIndexInGrid(selected.x, selected.y, width, puzzle.dimensions.y);
      var index := selected.y * width + selected.x;
      ghost var before := board;
      if button == Left {
        board := board[index := Filled];
        assert board == before[index := ButtonCell(button)];
      } else if button == Right {
        board := board[index := Clear];
        assert board == before[index := ButtonCell(button)];
      } else if button == Middle {
        board := board[index := Marked];
        assert board == before[index := ButtonCell(button)];
      }
      solved := CheckSolution(Game(puzzle, board));
    }

    /** `Solve`: the board becomes a copy of the solution; the latch is left alone. */
    method Solve()
      requires Valid()
      modifies this
      ensures Valid()
      ensures board == puzzle.solution
      ensures solved == old(solved) && selected == old(selected)
      ensures CheckSolution(Game(puzzle, board))
    {
      board := puzzle.solution;
      SolutionWins(puzzle);
    }

    /** `Reset`: every cell becomes clear, the length is kept, and the latch is released. */
    method Reset()
      requires Valid()
      modifies this
      ensures Valid()
      ensures board == ValueInitialised(|old(board)|)
      ensures !solved && selected == old(selected)
    {
      board := ValueInitialised(|board|);
      solved := false;
    }
  }

  /** Resetting twice leaves the same component state as resetting once. */
  method ResetTwice(c: NonogramComponent)
    requires c.Valid()
    modifies c
    ensures c.Valid()
    ensures c.board == ValueInitialised(|old(c.board)|) && !c.solved && c.selected == old(c.selected)
  {
    c.Reset();
    ghost var once := c.board;
    c.Reset();
    assert c.board == once;
  }

  /** The boards after each of the three left presses of the small puzzle, written out. */
  lemma PressesOnFreshBoard()
    ensures Press(ValueInitialised(6), 3, BoardCoords(0, 0), Left) == [Filled, Clear, Clear, Clear, Clear, Clear]
    ensures Press([Filled, Clear, Clear, Clear, Clear, Clear], 3, BoardCoords(2, 0), Left)
            == [Filled, Clear, Filled, Clear, Clear, Clear]
    ensures Press([Filled, Clear, Filled, Clear, Clear, Clear], 3, BoardCoords(1, 1), Left)
            == [Filled, Clear, Filled, Clear, Filled, Clear]
  {
    assert ValueInitialised(6) == [Clear, Clear, Clear, Clear, Clear, Clear];
  }

  /** A board that leaves a filled square of the solution unfilled does not win. */
  lemma UnfilledLoses(g: Game, i: nat)
    requires i < |g.board| && i < |g.puzzle.solution|
    requires g.puzzle.solution[i] == Filled && g.board[i] != Filled
    ensures !CheckSolution(g)
  {
  }

  /** The win check on the boards of the small puzzle: only the last one wins. */
  lemma SmallPuzzleOutcomes(p: Puzzle)
    requires p.solution == [Filled, Clear, Filled, Clear, Filled, Clear]
    ensures !CheckSolution(Game(p, [Filled, Clear, Clear, Clear, Clear, Clear]))
    ensures !CheckSolution(Game(p, [Filled, Clear, Filled, Clear, Clear, Clear]))
    ensures CheckSolution(Game(p, [Filled, Clear, Filled, Clear, Filled, Clear]))
  {
    UnfilledLoses(Game(p, [Filled, Clear, Clear, Clear, Clear, Clear]), 2);
    UnfilledLoses(Game(p, [Filled, Clear, Filled, Clear, Clear, Clear]), 4);
    SolutionWins(p);
  }

  /**
   On the 3 * 2 puzzle filled, clear, filled / clear, filled, clear, left
   presses on squares (0, 0), (2, 0) and (1, 1) of a fresh board win only
   with the last of the three.
   */
  lemma SmallPuzzlePresses(p: Puzzle)
    requires p.solution == [Filled, Clear, Filled, Clear, Filled, Clear]
    ensures var b0 := ValueInitialised(6);
            var b1 := Press(b0, 3, BoardCoords(0, 0), Left);
            var b2 := Press(b1, 3, BoardCoords(2, 0), Left);
            var b3 := Press(b2, 3, BoardCoords(1, 1), Left);
            && !CheckSolution(Game(p, b1)) && !CheckSolution(Game(p, b2))
            && b3 == p.solution && CheckSolution(Game(p, b3))
  {
    PressesOnFreshBoard();
    SmallPuzzleOutcomes(p);
  }

  /** Left presses on squares a, then b, then c of a fresh 3 * 2 board. */
  function SmallPlay(a: BoardCoords, b: BoardCoords, c: BoardCoords): seq<BoardCell>
    requires OnBoard(a, BoardCoords(3, 2)) && OnBoard(b, BoardCoords(3, 2)) && OnBoard(c, BoardCoords(3, 2))
  {
    Press(Press(Press(ValueInitialised(6), 3, a, Left), 3, b, Left), 3, c, Left)
  }

  /** The three presses that win that puzzle win in each of their six orders. */
  lemma SmallPuzzleAnyOrder(p: Puzzle)
    requires p.solution == [Filled, Clear, Filled, Clear, Filled, Clear]
    ensures var a, b, c := BoardCoords(0, 0), BoardCoords(2, 0), BoardCoords(1, 1);
            && SmallPlay(a, b, c) == p.solution && SmallPlay(a, c, b) == p.solution
            && SmallPlay(b, a, c) == p.solution && SmallPlay(b, c, a) == p.solution
            && SmallPlay(c, a, b) == p.solution && SmallPlay(c, b, a) == p.solution
  {
    var a, b, c := BoardCoords(0, 0), BoardCoords(2, 0), BoardCoords(1, 1);
    var b0 := ValueInitialised(6);
    PressesOnFreshBoard();
    assert SmallPlay(a, b, c) == p.solution;
    PressCommutes(Press(b0, 3, a, Left), 3, b, c, Left, Left);
    assert SmallPlay(a, c, b) == p.solution;
    PressCommutes(b0, 3, a, b, Left, Left);
    assert SmallPlay(b, a, c) == p.solution;
    PressCommutes(Press(b0, 3, b, Left), 3, a, c, Left, Left);
    assert SmallPlay(b, c, a) == p.solution;
    PressCommutes(b0, 3, a, c, Left, Left);
    assert SmallPlay(c, a, b) == p.solution;
    PressCommutes(Press(b0, 3, c, Left), 3, a, b, Left, Left);
  }

  /**
   Playing that puzzle: the board is drawn right of clues two numbers long
   and below clues one number high, and three left presses on the filled
   squares win.
   */
  method PlaySmallPuzzle(p: Puzzle) returns (c: NonogramComponent)
    requires WellFormed(p)
    requires p.dimensions == BoardCoords(3, 2)
    requires p.solution == [Filled, Clear, Filled, Clear, Filled, Clear]
    ensures fresh(c) && c.Valid()
    ensures c.boardPosition == TermCoords(7, 2)
    ensures c.board == p.solution && c.solved
  {
    SmallPuzzleHints(p);
    SmallPuzzlePresses(p);
    var b0 := ValueInitialised(6);
    var b1 := Press(b0, 3, BoardCoords(0, 0), Left);
    var b2 := Press(b1, 3, BoardCoords(2, 0), Left);
    c := new NonogramComponent(NewGame(p));
    assert c.boardPosition == TermCoords(7, 2) && c.board == b0 && !c.solved;
    assert Selection(7, 2, c.boardPosition) == BoardCoords(0, 0);
    var handled := c.OnEvent(MouseEvent(7, 2, Left, Pressed));
    assert c.board == b1 && !c.solved;
    assert Selection(11, 2, c.boardPosition) == BoardCoords(2, 0);
    handled := c.OnEvent(MouseEvent(11, 2, Left, Pressed));
    assert c.board == b2 && !c.solved;
    assert Selection(9, 3, c.boardPosition) == BoardCoords(1, 1);
    handled := c.OnEvent(MouseEvent(9, 3, Left, Pressed));
  }
}
