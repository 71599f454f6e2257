/**
 Puzzle assembly and the win check.

 `Assemble` turns a decoded solution image and a decoded photo (each a
 width, a height and RGBA bytes, four per pixel, row-major) plus the parsed
 metadata into a puzzle: black pixels become filled cells, every other
 pixel a clear one; photo pixels keep their RGB channels; the clue of every
 column and every row is derived, and the longest clue lengths are cached.
 `CheckSolution` compares a game's board with the solution, reading a marked
 cell as a clear one.
 */
module Nonogram {
  import opened Board
  import opened Grid
  import opened Hints

  /** The largest `int`; `gsl::narrow<int>` of a larger dimension fails. */
  const IntMax: int := 0x7fff_ffff

  /** A decoded image: dimensions and four bytes (R, G, B, A) per pixel. */
  datatype DecodedImage = DecodedImage(width: nat, height: nat, rgba: seq<Byte>)

  datatype LoadError = NarrowingError

  datatype Result<T> = Ok(value: T) | Err(error: LoadError)

  /** What the image decoder delivers: a non-empty image, four bytes for each of its pixels. */
  predicate Decoded(img: DecodedImage)
  {
    img.width > 0 && img.height > 0 && |img.rgba| % 4 == 0 && |img.rgba| / 4 == img.width * img.height
  }

  /** A solution pixel is filled exactly when its red, green and blue channels are all 0. */
  function PixelCell(r: Byte, g: Byte, b: Byte): (c: BoardCell)
    ensures c == Filled <==> r == 0 && g == 0 && b == 0
    ensures c != Marked
  {
    if r == 0 && g == 0 && b == 0 then Filled else Clear
  }

  /** One cell per four-byte chunk of the solution image; the alpha byte is not read. */
  function SolutionCells(rgba: seq<Byte>): (cells: seq<BoardCell>)
    requires |rgba| % 4 == 0
    ensures |cells| == |rgba| / 4
    ensures forall i :: 0 <= i < |cells| ==>
              4 * i + 3 < |rgba| &&
              cells[i] != Marked &&
              (cells[i] == Filled <==> rgba[4 * i] == 0 && rgba[4 * i + 1] == 0 && rgba[4 * i + 2] == 0)
  {
    seq(|rgba| / 4, i requires 0 <= i < |rgba| / 4 => PixelCell(rgba[4 * i], rgba[4 * i + 1], rgba[4 * i + 2]))
  }

  /** One colour per four-byte chunk of the photo: its R, G and B channels, alpha dropped. */
  function PhotoColors(rgba: seq<Byte>): (photo: seq<Color>)
    requires |rgba| % 4 == 0
    ensures |photo| == |rgba| / 4
    ensures forall i :: 0 <= i < |photo| ==>
              4 * i + 3 < |rgba| && photo[i] == Color(rgba[4 * i], rgba[4 * i + 1], rgba[4 * i + 2])
  {
    seq(|rgba| / 4, i requires 0 <= i < |rgba| / 4 => Color(rgba[4 * i], rgba[4 * i + 1], rgba[4 * i + 2]))
  }

  /** Two buffers that differ at most in their alpha bytes. */
  predicate SameButAlpha(a: seq<Byte>, b: seq<Byte>)
  {
    |a| == |b| && forall i :: 0 <= i < |a| && i % 4 != 3 ==> a[i] == b[i]
  }

  /** The alpha byte never influences the solution or the photo. */
  lemma AlphaIgnored(a: seq<Byte>, b: seq<Byte>)
    requires |a| % 4 == 0 && SameButAlpha(a, b)
    ensures SolutionCells(a) == SolutionCells(b)
    ensures PhotoColors(a) == PhotoColors(b)
  {
    forall i | 0 <= i < |a| / 4
      ensures SolutionCells(a)[i] == SolutionCells(b)[i] && PhotoColors(a)[i] == PhotoColors(b)[i]
    {
      assert (4 * i) % 4 == 0 && (4 * i + 1) % 4 == 1 && (4 * i + 2) % 4 == 2;
    }
  }

  /** The clue of every line. */
  function LineHints(lines: seq<seq<BoardCell>>): (hints: seq<seq<Byte>>)
    ensures |hints| == |lines|
  {
    seq(|lines|, i requires 0 <= i < |lines| => Clue(lines[i]))
  }

  /** m is the length of the longest of the clues. */
  predicate IsMaxLen(hints: seq<seq<Byte>>, m: int)
  {
    && (forall i :: 0 <= i < |hints| ==> |hints[i]| <= m)
    && (exists i :: 0 <= i < |hints| && |hints[i]| == m)
  }

  /** `r::max` over the clue lengths: the length of the longest clue. */
  function MaxLen(hints: seq<seq<Byte>>): (m: nat)
    requires |hints| > 0
    ensures IsMaxLen(hints, m)
  {
    if |hints| == 1 then |hints[0]|
    else
      var rest := MaxLen(hints[1..]);
      assert forall i :: 1 <= i < |hints| ==> hints[i] == hints[1..][i - 1];
      if |hints[0]| >= rest then |hints[0]| else rest
  }

  /** A non-empty grid whose solution has one clear or filled cell per square. */
  ghost predicate SolutionShape(p: Puzzle)
  {
    && p.dimensions.x > 0 && p.dimensions.y > 0
    && |p.solution| == p.dimensions.x * p.dimensions.y
    && (forall i :: 0 <= i < |p.solution| ==> p.solution[i] != Marked)
  }

  /** The clue of each row and each column, computed from the solution by index. */
  ghost predicate HintsDerived(p: Puzzle)
    requires SolutionShape(p)
  {
    var w, h := p.dimensions.x, p.dimensions.y;
    && |p.rowHints| == h && |p.colHints| == w
    && (forall y :: 0 <= y < h ==> p.rowHints[y] == Clue(Row(p.solution, w, h, y)))
    && (forall x :: 0 <= x < w ==> p.colHints[x] == Clue(Column(p.solution, w, h, x)))
  }

  /**
   Everything a constructed puzzle satisfies: its solution shape, its derived
   clues, the cached longest clue lengths, and one photo colour per photo
   pixel.
   */
  ghost predicate WellFormed(p: Puzzle)
  {
    && SolutionShape(p)
    && HintsDerived(p)
    && IsMaxLen(p.rowHints, p.rowHintsMax)
    && IsMaxLen(p.colHints, p.colHintsMax)
    && p.photoDimensions.x >= 0 && p.photoDimensions.y >= 0
    && |p.photo| == p.photoDimensions.x * p.photoDimensions.y
  }

  /** The clues derived through the row and column views are the clues of the rows and columns by index. */
  lemma DerivedHints(s: seq<BoardCell>, w: nat, h: nat)
    requires w > 0 && |s| == w * h
    ensures |LineHints(GridRows(s, w))| == h && |LineHints(GridCols(s, w))| == w
    ensures forall y :: 0 <= y < h ==> LineHints(GridRows(s, w))[y] == Clue(Row(s, w, h, y))
    ensures forall x :: 0 <= x < w ==> LineHints(GridCols(s, w))[x] == Clue(Column(s, w, h, x))
  {
    GridRowsAreRows(s, w, h);
    GridColsAreColumns(s, w, h);
  }

  /**
   The puzzle built from a solution grid `w` cells wide and a photo: the
   clues of every column and every row come from the column and row views,
   and the longest clue lengths are cached.
   */
  function Build(w: nat, h: nat, solution: seq<BoardCell>, photoDimensions: CanvasCoords, photo: seq<Color>, data: PuzzleData): (p: Puzzle)
    requires w > 0 && h > 0 && |solution| == w * h
    ensures p.dimensions == BoardCoords(w, h) && p.solution == solution
    ensures p.photoDimensions == photoDimensions && p.photo == photo && p.data == data
  {
    DerivedHints(solution, w, h);
    var colHints := LineHints(GridCols(solution, w));
    var rowHints := LineHints(GridRows(solution, w));
    Puzzle(BoardCoords(w, h), solution, photoDimensions, photo, data,
           rowHints, colHints, MaxLen(rowHints), MaxLen(colHints))
  }

  /** A built puzzle is well formed when its solution has no marked cell and its photo has one colour per pixel. */
  lemma BuildWellFormed(w: nat, h: nat, solution: seq<BoardCell>, photoDimensions: CanvasCoords, photo: seq<Color>, data: PuzzleData)
    requires w > 0 && h > 0 && |solution| == w * h
    requires forall i :: 0 <= i < |solution| ==> solution[i] != Marked
    requires photoDimensions.x >= 0 && photoDimensions.y >= 0
    requires |photo| == photoDimensions.x * photoDimensions.y
    ensures WellFormed(Build(w, h, solution, photoDimensions, photo, data))
  {
    var p := Build(w, h, solution, photoDimensions, photo, data);
    DerivedHints(solution, w, h);
    assert SolutionShape(p);
    assert HintsDerived(p);
  }

  /**
   The puzzle constructor, from already decoded images and parsed metadata.
   Fails only when a dimension does not fit an `int`.
   */
  function Assemble(solutionImage: DecodedImage, photoImage: DecodedImage, data: PuzzleData): (r: Result<Puzzle>)
    requires Decoded(solutionImage) && Decoded(photoImage)
    ensures r.Ok? <==>
              solutionImage.width <= IntMax && solutionImage.height <= IntMax &&
              photoImage.width <= IntMax && photoImage.height <= IntMax
    ensures r.Ok? ==>
              && WellFormed(r.value)
              && r.value.dimensions == BoardCoords(solutionImage.width, solutionImage.height)
              && r.value.photoDimensions == CanvasCoords(photoImage.width, photoImage.height)
              && r.value.solution == SolutionCells(solutionImage.rgba)
              && r.value.photo == PhotoColors(photoImage.rgba)
              && r.value.data == data
  {
    if solutionImage.width > IntMax || solutionImage.height > IntMax ||
       photoImage.width > IntMax || photoImage.height > IntMax
    then Err(NarrowingError)
    else
      var solution := SolutionCells(solutionImage.rgba);
      var photoDimensions := CanvasCoords(photoImage.width, photoImage.height);
      var photo := PhotoColors(photoImage.rgba);
      BuildWellFormed(solutionImage.width, solutionImage.height, solution, photoDimensions, photo, data);
      Ok(Build(solutionImage.width, solutionImage.height, solution, photoDimensions, photo, data))
  }

  /** The clue lengths reserve no display space when the solution has no filled cell. */
  lemma EmptySolutionNoHints(p: Puzzle)
    requires WellFormed(p)
    requires forall i :: 0 <= i < |p.solution| ==> p.solution[i] == Clear
    ensures p.rowHintsMax == 0 && p.colHintsMax == 0
  {
    var y :| 0 <= y < |p.rowHints| && |p.rowHints[y]| == p.rowHintsMax;
    EmptyRowClue(p, y);
    var x :| 0 <= x < |p.colHints| && |p.colHints[x]| == p.colHintsMax;
    EmptyColumnClue(p, x);
  }

  lemma EmptyRowClue(p: Puzzle, y: nat)
    requires SolutionShape(p) && HintsDerived(p) && y < p.dimensions.y
    requires forall i :: 0 <= i < |p.solution| ==> p.solution[i] == Clear
    ensures p.rowHints[y] == []
  {
    var row := Row(p.solution, p.dimensions.x, p.dimensions.y, y);
    RowCellsInGrid(p.solution, p.dimensions.x, p.dimensions.y, y);
    NoFilledNoClue(row);
  }

  lemma EmptyColumnClue(p: Puzzle, x: nat)
    requires SolutionShape(p) && HintsDerived(p) && x < p.dimensions.x
    requires forall i :: 0 <= i < |p.solution| ==> p.solution[i] == Clear
    ensures p.colHints[x] == []
  {
    var col := Column(p.solution, p.dimensions.x, p.dimensions.y, x);
    ColumnCellsInGrid(p.solution, p.dimensions.x, p.dimensions.y, x);
    NoFilledNoClue(col);
  }

  /**
   A stored clue is the exact list of runs of its line if and only if every
   run fits the 8-bit counter; so on a grid less than 256 squares wide every
   row clue is, and on one less than 256 squares high every column clue is.
   */
  lemma HintsAreRuns(p: Puzzle)
    requires WellFormed(p)
    ensures forall y :: 0 <= y < p.dimensions.y ==>
              var row := Row(p.solution, p.dimensions.x, p.dimensions.y, y);
              (p.rowHints[y] == Runs(row) <==> RunsFit(Runs(row)))
    ensures forall x :: 0 <= x < p.dimensions.x ==>
              var col := Column(p.solution, p.dimensions.x, p.dimensions.y, x);
              (p.colHints[x] == Runs(col) <==> RunsFit(Runs(col)))
    ensures p.dimensions.x < 256 ==> forall y :: 0 <= y < p.dimensions.y ==>
              p.rowHints[y] == Runs(Row(p.solution, p.dimensions.x, p.dimensions.y, y))
    ensures p.dimensions.y < 256 ==> forall x :: 0 <= x < p.dimensions.x ==>
              p.colHints[x] == Runs(Column(p.solution, p.dimensions.x, p.dimensions.y, x))
  {
    var w, h := p.dimensions.x, p.dimensions.y;
    forall y | 0 <= y < h
      ensures var row := Row(p.solution, w, h, y);
              (p.rowHints[y] == Runs(row) <==> RunsFit(Runs(row))) && (w < 256 ==> RunsFit(Runs(row)))
    {
      var row := Row(p.solution, w, h, y);
      ClueIsRuns(row);
      if w < 256 {
        ShortLineClueIsRuns(row);
      }
    }
    forall x | 0 <= x < w
      ensures var col := Column(p.solution, w, h, x);
              (p.colHints[x] == Runs(col) <==> RunsFit(Runs(col))) && (h < 256 ==> RunsFit(Runs(col)))
    {
      var col := Column(p.solution, w, h, x);
      ClueIsRuns(col);
      if h < 256 {
        ShortLineClueIsRuns(col);
      }
    }
  }

  /** The rows and columns of the 3 * 2 grid filled, clear, filled / clear, filled, clear. */
  lemma SmallGridLines(s: seq<BoardCell>)
    requires s == [Filled, Clear, Filled, Clear, Filled, Clear]
    ensures Row(s, 3, 2, 0) == [Filled, Clear, Filled] && Row(s, 3, 2, 1) == [Clear, Filled, Clear]
    ensures Column(s, 3, 2, 0) == [Filled, Clear] && Column(s, 3, 2, 1) == [Clear, Filled]
    ensures Column(s, 3, 2, 2) == [Filled, Clear]
  {
    var r0, r1 := Row(s, 3, 2, 0), Row(s, 3, 2, 1);
    assert r0[0] == s[0] && r0[1] == s[1] && r0[2] == s[2];
    assert r1[0] == s[3] && r1[1] == s[4] && r1[2] == s[5];
    var c0, c1, c2 := Column(s, 3, 2, 0), Column(s, 3, 2, 1), Column(s, 3, 2, 2);
    assert c0[0] == s[0] && c0[1] == s[3];
    assert c1[0] == s[1] && c1[1] == s[4];
    assert c2[0] == s[2] && c2[1] == s[5];
  }

  /** The stored clues of the lines of that grid. */
  lemma SmallLineClues()
    ensures Clue([Filled, Clear, Filled]) == [1, 1] && Clue([Clear, Filled, Clear]) == [1]
    ensures Clue([Filled, Clear]) == [1] && Clue([Clear, Filled]) == [1]
  {
    var fc := [Filled, Clear];
    AllFilledRuns([Filled]);
    assert [Filled, Clear, Filled] == [Filled] + [Clear] + [Filled];
    RunsSplit([Filled], Clear, [Filled]);
    assert fc == [Filled] + [Clear] + [];
    RunsSplit([Filled], Clear, []);
    assert [Clear, Filled] == [] + [Clear] + [Filled];
    RunsSplit([], Clear, [Filled]);
    assert [Clear, Filled, Clear] == [] + [Clear] + fc;
    RunsSplit([], Clear, fc);
    ShortLineClueIsRuns([Filled, Clear, Filled]);
    ShortLineClueIsRuns([Clear, Filled, Clear]);
    ShortLineClueIsRuns(fc);
    ShortLineClueIsRuns([Clear, Filled]);
  }

  /**
   A 3 * 2 puzzle whose solution is filled, clear, filled / clear, filled,
   clear has row clues [1, 1] and [1], column clues [1], [1] and [1], and
   longest clues of 2 and 1.
   */
  lemma SmallPuzzleHints(p: Puzzle)
    requires WellFormed(p)
    requires p.dimensions == BoardCoords(3, 2)
    requires p.solution == [Filled, Clear, Filled, Clear, Filled, Clear]
    ensures p.rowHints == [[1, 1], [1]]
    ensures p.colHints == [[1], [1], [1]]
    ensures p.rowHintsMax == 2 && p.colHintsMax == 1
  {
    SmallPuzzleRowClues(p);
    SmallPuzzleColClues(p);
    assert IsMaxLen(p.rowHints, p.rowHintsMax) && IsMaxLen(p.colHints, p.colHintsMax);
    assert |p.rowHints[0]| == 2 && |p.rowHints[1]| == 1;
  }

  lemma SmallPuzzleRowClues(p: Puzzle)
    requires SolutionShape(p) && HintsDerived(p)
    requires p.dimensions == BoardCoords(3, 2)
    requires p.solution == [Filled, Clear, Filled, Clear, Filled, Clear]
    ensures p.rowHints == [[1, 1], [1]]
  {
    SmallGridLines(p.solution);
    SmallLineClues();
  }

  lemma SmallPuzzleColClues(p: Puzzle)
    requires SolutionShape(p) && HintsDerived(p)
    requires p.dimensions == BoardCoords(3, 2)
    requires p.solution == [Filled, Clear, Filled, Clear, Filled, Clear]
    ensures p.colHints == [[1], [1], [1]]
  {
    SmallGridLines(p.solution);
    SmallLineClues();
  }

  /** A board cell as the win check sees it: filled stays filled, anything else is clear. */
  function Projected(board: seq<BoardCell>): (view: seq<BoardCell>)
    ensures |view| == |board|
    ensures forall i :: 0 <= i < |board| ==> view[i] != Marked && (view[i] == Filled <==> board[i] == Filled)
  {
    seq(|board|, i requires 0 <= i < |board| => if board[i] == Filled then Filled else Clear)
  }

  /**
   `check_solution`: the board, with marked cells read as clear, equals the
   solution. Total: boards of another length simply do not match.
   */
  function CheckSolution(g: Game): (won: bool)
    ensures won <==>
              |g.board| == |g.puzzle.solution| &&
              forall i :: 0 <= i < |g.board| ==>
                g.puzzle.solution[i] != Marked && (g.board[i] == Filled <==> g.puzzle.solution[i] == Filled)
  {
    var view := Projected(g.board);
    assert view == g.puzzle.solution ==> forall i :: 0 <= i < |g.board| ==> view[i] == g.puzzle.solution[i];
    view == g.puzzle.solution
  }

  /** A board that is a copy of a solution without marked cells wins. */
  lemma SolutionWins(p: Puzzle)
    requires forall i :: 0 <= i < |p.solution| ==> p.solution[i] != Marked
    ensures CheckSolution(Game(p, p.solution))
  {
  }

  /** Marking a clear cell never changes the outcome of the win check. */
  lemma MarkingKeepsOutcome(g: Game, i: nat)
    requires i < |g.board| && g.board[i] == Clear
    ensures CheckSolution(g.(board := g.board[i := Marked])) == CheckSolution(g)
  {
  }

  /** On a winning board, changing whether any one cell is filled loses. */
  lemma FlipLoses(g: Game, i: nat, c: BoardCell)
    requires CheckSolution(g)
    requires i < |g.board| && (c == Filled <==> g.board[i] != Filled)
    ensures !CheckSolution(g.(board := g.board[i := c]))
  {
    var g' := g.(board := g.board[i := c]);
    assert g'.board[i] == c;
  }

  /** A fresh game is already won exactly when the solution has no filled cell. */
  lemma NewGameWinsIff(p: Puzzle)
    requires forall i :: 0 <= i < |p.solution| ==> p.solution[i] != Marked
    ensures CheckSolution(NewGame(p)) <==> forall i :: 0 <= i < |p.solution| ==> p.solution[i] == Clear
  {
  }
}
