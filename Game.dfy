/**
  The game loop with its console stripped away. The player's typed entries
  come in as a sequence of integers; `get_player_move` keeps reading until an
  entry names an empty cell. The player plays 'X', the computer 'O', and
  after every placement the loop asks for a win and then for a draw.
 */
module Game {
  import opened Board
  import opened Heuristic

  /**
    The cell an entry n names: row (n - 1) // 3 and column (n - 1) % 3, with
    Python's floor division and its negative list indices. Entries 1..9 name
    the cells in row-major order; entries -8..0 wrap round to the same cells
    as n + 9; every other entry indexes outside the board.
   */
  function Decode(n: int): (s: Option<Square>)
    ensures s.Some? <==> -8 <= n <= 9
    ensures s.Some? ==> OnBoard(s.value) && Index(s.value) == (n - 1) % 9
  {
    var row := (n - 1) / 3;
    if -3 <= row < 3 then Some((row % 3, (n - 1) % 3)) else None
  }

  /** Entry Index(s) + 1 names square s. */
  lemma DecodeIndex(s: Square)
    requires OnBoard(s)
    ensures Decode(Index(s) + 1) == Some(s)
  {
  }

  /** A non-positive entry in range names the same cell as the entry nine above it. */
  lemma DecodeWraps(n: int)
    requires -8 <= n <= 0
    ensures Decode(n) == Decode(n + 9)
  {
    RowMajorIndex(Decode(n).value);
    RowMajorIndex(Decode(n + 9).value);
  }

  /** What reading the player's move can end in. */
  datatype Read =
    | Got(square: Square, rest: seq<int>)   // an empty cell and the entries after it
    | NoInput                               // the entries ran out first
    | BadIndex                              // an entry indexed outside the board

  /**
    The player's next move: entries naming an occupied cell are passed over,
    the first naming an empty cell is taken, and an entry outside the board
    stops the game.
   */
  function NextMove(g: Grid, input: seq<int>): (r: Read)
    ensures r.Got? ==> OnBoard(r.square) && At(g, r.square) == Empty
                       && |r.rest| < |input| && r.rest == input[|input| - |r.rest|..]
  {
    if input == [] then NoInput
    else match Decode(input[0])
      case None => BadIndex
      case Some(s) => if At(g, s) == Empty then Got(s, input[1..]) else NextMove(g, input[1..])
  }

  /** The entries before position k all name occupied cells. */
  predicate PassedOver(g: Grid, input: seq<int>, k: nat)
    requires k <= |input|
  {
    forall j :: 0 <= j < k ==> Decode(input[j]).Some? && At(g, Decode(input[j]).value) != Empty
  }

  /** The move read is the first entry naming an empty cell, when every entry before it names an occupied one. */
  lemma {:induction false} NextMoveFirstFree(g: Grid, input: seq<int>, k: nat)
    requires k < |input| && PassedOver(g, input, k)
    requires Decode(input[k]).Some? && At(g, Decode(input[k]).value) == Empty
    ensures NextMove(g, input) == Got(Decode(input[k]).value, input[k + 1..])
  {
    if k > 0 {
      assert PassedOver(g, input[1..], k - 1) by {
        forall j | 0 <= j < k - 1 ensures input[1..][j] == input[j + 1] {}
      }
      NextMoveFirstFree(g, input[1..], k - 1);
      assert input[1..][k - 1..] == input[k..];
      assert input[1..][k - 1 + 1..] == input[k + 1..];
    }
  }

  /** An entry outside the board, reached before any free cell, ends the reading. */
  lemma {:induction false} NextMoveBadIndex(g: Grid, input: seq<int>, k: nat)
    requires k < |input| && PassedOver(g, input, k) && Decode(input[k]).None?
    ensures NextMove(g, input) == BadIndex
  {
    if k > 0 {
      assert PassedOver(g, input[1..], k - 1) by {
        forall j | 0 <= j < k - 1 ensures input[1..][j] == input[j + 1] {}
      }
      NextMoveBadIndex(g, input[1..], k - 1);
    }
  }

  /** The entries run out exactly when every one of them names an occupied cell. */
  lemma {:induction false} NextMoveNoInput(g: Grid, input: seq<int>)
    ensures NextMove(g, input) == NoInput <==> PassedOver(g, input, |input|)
  {
    if input != [] {
      NextMoveNoInput(g, input[1..]);
      if Decode(input[0]).Some? && At(g, Decode(input[0]).value) != Empty {
        assert PassedOver(g, input, |input|) <==> PassedOver(g, input[1..], |input| - 1) by {
          forall j | 0 <= j < |input| - 1 ensures input[1..][j] == input[j + 1] {}
        }
      } else {
        assert !PassedOver(g, input, |input|) by {
          assert !(Decode(input[0]).Some? && At(g, Decode(input[0]).value) != Empty);
        }
      }
    }
  }

  /** The game's input loop over the entries: it only reads the board. */
  method GetPlayerMove(board: array2<Cell>, input: seq<int>) returns (r: Read)
    requires IsBoard(board)
    ensures r == NextMove(Cells(board), input)
  {
    var rest := input;
    while true
      invariant NextMove(Cells(board), rest) == NextMove(Cells(board), input)
      decreases |rest|
    {
      if rest == [] {
        return NoInput;
      }
      var cell := Decode(rest[0]);
      if cell.None? {
        return BadIndex;
      }
      var (row, col) := cell.value;
      if board[row, col] == Empty {
        return Got((row, col), rest[1..]);
      }
      rest := rest[1..];
    }
  }

  /** How a game ends: with the game's score (1, 0 or -1), or with the entries running out or indexing outside the board. */
  datatype Result = Finished(score: int) | NoMoreInput | IndexError

  /** The end of a game: its result, the final grid and the number of marks placed. */
  datatype Ending = Ending(result: Result, grid: Grid, placed: nat)

  /**
    The game from grid g with the player to move: place 'X', score 1 on a
    win and 0 on a full grid; otherwise place the computer's 'O', score -1
    on a win and 0 on a full grid; otherwise play on. Every round reads at
    least one entry, and a game can only stop for want of a usable entry
    when the player is to move, so after an even number of placements.
   */
  function Play(g: Grid, input: seq<int>): (e: Ending)
    ensures e.placed <= 2 * |input|
    ensures !e.result.Finished? ==> e.placed % 2 == 0
    decreases |input|
  {
    match NextMove(g, input)
    case NoInput => Ending(NoMoreInput, g, 0)
    case BadIndex => Ending(IndexError, g, 0)
    case Got(s, rest) =>
      var g1 := Place(g, s, X);
      if Wins(g1, X) then Ending(Finished(1), g1, 1)
      else if Full(g1) then Ending(Finished(0), g1, 1)
      else
        var g2 := Place(g1, Choose(g1).square, O);
        if Wins(g2, O) then Ending(Finished(-1), g2, 2)
        else if Full(g2) then Ending(Finished(0), g2, 2)
        else
          var e := Play(g2, rest);
          assert !e.result.Finished? ==> (e.placed + 2) % 2 == 0;
          Ending(e.result, e.grid, e.placed + 2)
  }

  /** Writing the same mark twice into a square is writing it once. */
  lemma PlaceTwice(g: Grid, s: Square, mark: Cell)
    requires OnBoard(s)
    ensures Place(Place(g, s, mark), s, mark) == Place(g, s, mark)
  {
    SameSquares(Place(Place(g, s, mark), s, mark), Place(g, s, mark));
  }

  /**
    The game loop on the board array: it resets the board, then
    alternates the player's and the computer's placements until a win, a
    full board or the end of the player's entries.
   */
  method PlayGame(board: array2<Cell>, input: seq<int>) returns (result: Result)
    requires IsBoard(board)
    modifies board
    ensures result == Play(EmptyGrid, input).result
    ensures Cells(board) == Play(EmptyGrid, input).grid
  {
    var b := InitialiseBoard(board);
    var rest := input;
    while true
      invariant Play(Cells(b), rest).result == Play(EmptyGrid, input).result
      invariant Play(Cells(b), rest).grid == Play(EmptyGrid, input).grid
      decreases |rest|
    {
      ghost var g := Cells(b);
      var read := GetPlayerMove(b, rest);
      if read.NoInput? {
        return NoMoreInput;
      }
      if read.BadIndex? {
        return IndexError;
      }
      var (row, col) := read.square;
      Put(b, row, col, X);
      if CheckForWin(b, X) {
        return Finished(1);
      }
      if CheckForDraw(b) {
        return Finished(0);
      }
      ghost var g1 := Cells(b);
      row, col := ChooseComputerMove(b);
      Put(b, row, col, O);
      if Choose(g1).tier == WinNow || Choose(g1).tier == BlockPlayer {
        PlaceTwice(g1, (row, col), O);
      }
      if CheckForWin(b, O) {
        return Finished(-1);
      }
      if CheckForDraw(b) {
        return Finished(0);
      }
      rest := read.rest;
    }
  }

  /** Placing one mark cannot give the other mark three in a row. */
  lemma PlaceKeepsNoWin(g: Grid, s: Square, mark: Cell, other: Cell)
    requires OnBoard(s) && mark != other && !Wins(g, other)
    ensures !Wins(Place(g, s, mark), other)
  {
    WinsByLine(g, other);
    WinsByLine(Place(g, s, mark), other);
  }

  /** The freshly initialised grid has no line for either side. */
  lemma EmptyGridNoWin(mark: Cell)
    requires mark != Empty
    ensures !Wins(EmptyGrid, mark)
  {
    WinsByLine(EmptyGrid, mark);
  }

  /** The number of squares of the grid holding `mark`. */
  function MarkCount(g: Grid, mark: Cell): (n: nat)
    ensures n <= 9
  {
    Count(g[0], mark) + Count(g[1], mark) + Count(g[2], mark)
  }

  /** Changing one element of a list changes its count of `mark` by what left and what came in. */
  lemma {:induction false} CountUpdate(s: seq<Cell>, i: nat, m: Cell, mark: Cell)
    requires i < |s|
    ensures Count(s[i := m], mark) == Count(s, mark) - (if s[i] == mark then 1 else 0) + (if m == mark then 1 else 0)
  {
    if i > 0 {
      CountUpdate(s[1..], i - 1, m, mark);
      assert s[i := m][1..] == s[1..][i - 1 := m];
    }
  }

  /** Writing `m` into square s changes the count of `mark` by what left s and what came in. */
  lemma MarkCountPlace(g: Grid, s: Square, m: Cell, mark: Cell)
    requires OnBoard(s)
    ensures MarkCount(Place(g, s, m), mark)
            == MarkCount(g, mark) - (if At(g, s) == mark then 1 else 0) + (if m == mark then 1 else 0)
  {
    CountUpdate(g[s.0], s.1, m, mark);
  }

  /**
    What an ending's result says about its grid: 1 means 'X' has a line and
    'O' none, with an odd number of placements (the player moved last); -1
    means 'O' has a line and 'X' none, after an even number; 0 means the grid
    is full with no line; an ending without a score has no line on its grid.
   */
  predicate Scored(e: Ending)
  {
    && (e.result.Finished? ==> e.result.score in {1, 0, -1})
    && (e.result == Finished(1) <==> Wins(e.grid, X))
    && (e.result == Finished(1) ==> !Wins(e.grid, O) && e.placed % 2 == 1)
    && (e.result == Finished(-1) <==> Wins(e.grid, O))
    && (e.result == Finished(-1) ==> !Wins(e.grid, X) && e.placed % 2 == 0 && e.placed > 0)
    && (e.result == Finished(0) <==> Full(e.grid) && !Wins(e.grid, X) && !Wins(e.grid, O))
  }

  /** The endings a single turn can produce are `Scored`. */
  lemma ScoredEnding(e: Ending)
    requires !Wins(e.grid, X) || !Wins(e.grid, O)
    requires e.result == NoMoreInput || e.result == IndexError ==> !Wins(e.grid, X) && !Wins(e.grid, O) && !Full(e.grid)
    requires e.result == Finished(1) ==> Wins(e.grid, X) && e.placed % 2 == 1
    requires e.result == Finished(-1) ==> Wins(e.grid, O) && e.placed % 2 == 0 && e.placed > 0
    requires e.result == Finished(0) ==> Full(e.grid) && !Wins(e.grid, X) && !Wins(e.grid, O)
    requires e.result.Finished? ==> e.result.score in {1, 0, -1}
    ensures Scored(e)
  {
  }

  /** Two more placements before an ending keep it `Scored`. */
  lemma ScoredShift(e: Ending)
    requires Scored(e)
    ensures Scored(Ending(e.result, e.grid, e.placed + 2))
  {
  }

  /** Every game started on a grid that is not full and has no line ends as `Scored` describes. */
  lemma {:induction false} PlayOutcome(g: Grid, input: seq<int>)
    requires !Wins(g, X) && !Wins(g, O) && !Full(g)
    ensures Scored(Play(g, input))
    decreases |input|
  {
    var e := Play(g, input);
    match NextMove(g, input)
    case NoInput =>
      ScoredEnding(e);
    case BadIndex =>
      ScoredEnding(e);
    case Got(s, rest) =>
      var g1 := Place(g, s, X);
      PlaceKeepsNoWin(g, s, X, O);
      if Wins(g1, X) || Full(g1) {
        ScoredEnding(e);
      } else {
        var g2 := Place(g1, Choose(g1).square, O);
        PlaceKeepsNoWin(g1, Choose(g1).square, O, X);
        if Wins(g2, O) || Full(g2) {
          ScoredEnding(e);
        } else {
          var e2 := Play(g2, rest);
          PlayOutcome(g2, rest);
          assert e == Ending(e2.result, e2.grid, e2.placed + 2);
          ScoredShift(e2);
        }
      }
  }

  /**
    Turns alternate with the player first: of the marks a game places, the
    player's are half rounded up and the computer's half rounded down, and
    each goes into a cell that was empty.
   */
  lemma {:induction false} PlayCounts(g: Grid, input: seq<int>)
    ensures var e := Play(g, input);
            && MarkCount(e.grid, X) == MarkCount(g, X) + (e.placed + 1) / 2
            && MarkCount(e.grid, O) == MarkCount(g, O) + e.placed / 2
            && MarkCount(e.grid, Empty) + e.placed == MarkCount(g, Empty)
    decreases |input|
  {
    match NextMove(g, input)
    case NoInput =>
    case BadIndex =>
    case Got(s, rest) =>
      var g1 := Place(g, s, X);
      MarkCountPlace(g, s, X, X);
      MarkCountPlace(g, s, X, O);
      MarkCountPlace(g, s, X, Empty);
      if !Wins(g1, X) && !Full(g1) {
        var c := Choose(g1).square;
        var g2 := Place(g1, c, O);
        MarkCountPlace(g1, c, O, X);
        MarkCountPlace(g1, c, O, O);
        MarkCountPlace(g1, c, O, Empty);
        if !Wins(g2, O) && !Full(g2) {
          PlayCounts(g2, rest);
        }
      }
  }

  /** A game from the initialised board ends within nine placements. */
  lemma GameLength(input: seq<int>)
    ensures Play(EmptyGrid, input).placed <= 9
  {
    PlayCounts(EmptyGrid, input);
    assert MarkCount(EmptyGrid, Empty) == 9;
  }

  /** No mark is ever overwritten: a square taken before the game holds the same mark at its end. */
  lemma {:induction false} PlayKeepsMarks(g: Grid, input: seq<int>, t: Square)
    requires OnBoard(t) && At(g, t) != Empty
    ensures At(Play(g, input).grid, t) == At(g, t)
    decreases |input|
  {
    match NextMove(g, input)
    case NoInput =>
    case BadIndex =>
    case Got(s, rest) =>
      var g1 := Place(g, s, X);
      if !Wins(g1, X) && !Full(g1) {
        var g2 := Place(g1, Choose(g1).square, O);
        if !Wins(g2, O) && !Full(g2) {
          PlayKeepsMarks(g2, rest, t);
        }
      }
  }

  /** The outcome of a game from the initialised board. */
  lemma GameOutcome(input: seq<int>)
    ensures var e := Play(EmptyGrid, input);
            && (e.result.Finished? ==> e.result.score in {1, 0, -1})
            && (e.result == Finished(1) <==> Wins(e.grid, X) && !Wins(e.grid, O))
            && (e.result == Finished(-1) <==> Wins(e.grid, O) && !Wins(e.grid, X))
            && (e.result == Finished(0) <==> Full(e.grid) && !Wins(e.grid, X) && !Wins(e.grid, O))
            && MarkCount(e.grid, X) == MarkCount(e.grid, O) + e.placed % 2
  {
    EmptyGridNoWin(X);
    EmptyGridNoWin(O);
    assert !Full(EmptyGrid) by { assert EmptyGrid[0][0] == Empty; }
    PlayOutcome(EmptyGrid, input);
    PlayCounts(EmptyGrid, input);
    assert MarkCount(EmptyGrid, X) == 0 && MarkCount(EmptyGrid, O) == 0;
  }
}
