/**
  The board engine of the noughts-and-crosses game: the 3x3 grid, the test
  for three in a row and the test for a full board.

  The game keeps its board as a list of three rows of three cells that it
  updates in place; here that board is an `array2<Cell>`, and `Cells` reads
  its contents as a `Grid` value, row by row.
 */
module Board {

  /** An optional value: the result of a scan that may find nothing. */
  datatype Option<T> = None | Some(value: T)

  /** The three values a cell can hold: ' ', 'X' (the player) and 'O' (the computer). */
  datatype Cell = Empty | X | O

  /** Three rows of three cells. */
  type Grid = g: seq<seq<Cell>> | |g| == 3 && |g[0]| == 3 && |g[1]| == 3 && |g[2]| == 3
    witness [[Empty, Empty, Empty], [Empty, Empty, Empty], [Empty, Empty, Empty]]

  /** A (row, column) coordinate. */
  type Square = (nat, nat)

  /** The square lies on the 3x3 board. */
  predicate OnBoard(s: Square)
  {
    s.0 < 3 && s.1 < 3
  }

  /** The contents of square `s`. */
  function At(g: Grid, s: Square): Cell
    requires OnBoard(s)
  {
    g[s.0][s.1]
  }

  /** The grid with `mark` written into square `s`, every other square as it was. */
  function Place(g: Grid, s: Square, mark: Cell): (h: Grid)
    requires OnBoard(s)
    ensures At(h, s) == mark
    ensures forall t :: OnBoard(t) && t != s ==> At(h, t) == At(g, t)
  {
    g[s.0 := g[s.0][s.1 := mark]]
  }

  /** Two grids with the same contents in every square are the same grid. */
  lemma SameSquares(g: Grid, h: Grid)
    requires forall r, c :: 0 <= r < 3 && 0 <= c < 3 ==> g[r][c] == h[r][c]
    ensures g == h
  {
    assert g[0] == h[0] && g[1] == h[1] && g[2] == h[2];
  }

  /** A board as the game allocates it: three rows of three cells. */
  predicate IsBoard(b: array2<Cell>)
  {
    b.Length0 == 3 && b.Length1 == 3
  }

  /** The contents of a board, row by row. */
  function Cells(b: array2<Cell>): (g: Grid)
    reads b
    requires IsBoard(b)
  {
    seq(3, r requires 0 <= r < 3 reads b => seq(3, c requires 0 <= c < 3 reads b => b[r, c]))
  }

  /** The grid of a freshly initialised board. */
  const EmptyGrid: Grid := [[Empty, Empty, Empty], [Empty, Empty, Empty], [Empty, Empty, Empty]]

  /** A winning line: three squares. */
  type Line = (Square, Square, Square)

  /** The eight winning lines in the order the game tests them: three rows, three columns, two diagonals. */
  const LineList: seq<Line> :=
    [((0, 0), (0, 1), (0, 2)), ((1, 0), (1, 1), (1, 2)), ((2, 0), (2, 1), (2, 2)),
     ((0, 0), (1, 0), (2, 0)), ((0, 1), (1, 1), (2, 1)), ((0, 2), (1, 2), (2, 2)),
     ((0, 0), (1, 1), (2, 2)), ((0, 2), (1, 1), (2, 0))]

  /** The set of winning lines. */
  const Lines: set<Line> := set l | l in LineList

  /** Every square of line `l` holds `mark`. */
  predicate Completed(g: Grid, l: Line, mark: Cell)
  {
    OnBoard(l.0) && OnBoard(l.1) && OnBoard(l.2)
    && At(g, l.0) == mark && At(g, l.1) == mark && At(g, l.2) == mark
  }

  /** Some line of `ls` is completed with `mark`. */
  predicate AnyCompleted(g: Grid, ls: seq<Line>, mark: Cell)
  {
    |ls| > 0 && (Completed(g, ls[0], mark) || AnyCompleted(g, ls[1..], mark))
  }

  /** `mark` has three in a row: one of the winning lines is completed with it. */
  predicate Wins(g: Grid, mark: Cell)
  {
    AnyCompleted(g, LineList, mark)
  }

  /** A line list has a completed line exactly when one of its members is completed. */
  lemma {:induction false} AnyCompletedIsSome(g: Grid, ls: seq<Line>, mark: Cell)
    ensures AnyCompleted(g, ls, mark) <==> exists i :: 0 <= i < |ls| && Completed(g, ls[i], mark)
  {
    if |ls| > 0 {
      AnyCompletedIsSome(g, ls[1..], mark);
      if !Completed(g, ls[0], mark) && exists i :: 0 <= i < |ls| && Completed(g, ls[i], mark) {
        var i :| 0 <= i < |ls| && Completed(g, ls[i], mark);
        assert Completed(g, ls[1..][i - 1], mark);
      }
    }
  }

  /** A win is membership in the set of winning lines: some line of `Lines` is completed with `mark`. */
  lemma WinsIsSomeLine(g: Grid, mark: Cell)
    ensures Wins(g, mark) <==> exists l :: l in Lines && Completed(g, l, mark)
  {
    AnyCompletedIsSome(g, LineList, mark);
  }

  /** No square of the grid is empty. */
  predicate Full(g: Grid)
  {
    forall r, c :: 0 <= r < 3 && 0 <= c < 3 ==> g[r][c] != Empty
  }

  /** The number of occurrences of `mark` in `s` (Python's `list.count`). */
  function Count(s: seq<Cell>, mark: Cell): (n: nat)
    ensures n <= |s|
    ensures n == |s| <==> forall k :: 0 <= k < |s| ==> s[k] == mark
  {
    if s == [] then 0 else (if s[0] == mark then 1 else 0) + Count(s[1..], mark)
  }

  /** `Count` is the multiplicity of `mark` in the list. */
  lemma {:induction false} CountIsMultiplicity(s: seq<Cell>, mark: Cell)
    ensures Count(s, mark) == multiset(s)[mark]
  {
    if s != [] {
      CountIsMultiplicity(s[1..], mark);
      assert s == [s[0]] + s[1..];
    }
  }

  /** The eight lines, one by one: `Wins` unfolded into the eight row, column and diagonal tests. */
  lemma WinsByLine(g: Grid, mark: Cell)
    ensures Wins(g, mark) <==>
      || (g[0][0] == mark && g[0][1] == mark && g[0][2] == mark)
      || (g[1][0] == mark && g[1][1] == mark && g[1][2] == mark)
      || (g[2][0] == mark && g[2][1] == mark && g[2][2] == mark)
      || (g[0][0] == mark && g[1][0] == mark && g[2][0] == mark)
      || (g[0][1] == mark && g[1][1] == mark && g[2][1] == mark)
      || (g[0][2] == mark && g[1][2] == mark && g[2][2] == mark)
      || (g[0][0] == mark && g[1][1] == mark && g[2][2] == mark)
      || (g[0][2] == mark && g[1][1] == mark && g[2][0] == mark)
  {
    var ls := LineList;
    assert AnyCompleted(g, ls, mark) <==> Completed(g, ls[0], mark) || AnyCompleted(g, ls[1..], mark);
    assert AnyCompleted(g, ls[1..], mark) <==> Completed(g, ls[1], mark) || AnyCompleted(g, ls[2..], mark);
    assert AnyCompleted(g, ls[2..], mark) <==> Completed(g, ls[2], mark) || AnyCompleted(g, ls[3..], mark);
    assert AnyCompleted(g, ls[3..], mark) <==> Completed(g, ls[3], mark) || AnyCompleted(g, ls[4..], mark);
    assert AnyCompleted(g, ls[4..], mark) <==> Completed(g, ls[4], mark) || AnyCompleted(g, ls[5..], mark);
    assert AnyCompleted(g, ls[5..], mark) <==> Completed(g, ls[5], mark) || AnyCompleted(g, ls[6..], mark);
    assert AnyCompleted(g, ls[6..], mark) <==> Completed(g, ls[6], mark) || AnyCompleted(g, ls[7..], mark);
    assert AnyCompleted(g, ls[7..], mark) <==> Completed(g, ls[7], mark) || AnyCompleted(g, ls[8..], mark);
    assert !AnyCompleted(g, ls[8..], mark);
  }

  /** Row `r` of the board, as a list of three cells. */
  function Row(b: array2<Cell>, r: nat): (row: seq<Cell>)
    reads b
    requires IsBoard(b) && r < 3
    ensures row == Cells(b)[r]
  {
    [b[r, 0], b[r, 1], b[r, 2]]
  }

  /**
    The game's three-in-a-row test: a row whose count of `mark` is three,
    then each column, then the two diagonals. It only reads the board.
   */
  function CheckForWin(b: array2<Cell>, mark: Cell): (won: bool)
    reads b
    requires IsBoard(b)
    ensures won <==> Wins(Cells(b), mark)
    ensures won <==> exists l :: l in Lines && Completed(Cells(b), l, mark)
  {
    WinsByLine(Cells(b), mark);
    WinsIsSomeLine(Cells(b), mark);
    Count(Row(b, 0), mark) == 3 || Count(Row(b, 1), mark) == 3 || Count(Row(b, 2), mark) == 3
    || (b[0, 0] == b[1, 0] == b[2, 0] == mark)
    || (b[0, 1] == b[1, 1] == b[2, 1] == mark)
    || (b[0, 2] == b[1, 2] == b[2, 2] == mark)
    || (b[0, 0] == b[1, 1] == b[2, 2] == mark)
    || (b[0, 2] == b[1, 1] == b[2, 0] == mark)
  }

  /**
    The game's draw test: no row contains ' '. It does not look for a win;
    the game asks for a win first.
   */
  function CheckForDraw(b: array2<Cell>): (draw: bool)
    reads b
    requires IsBoard(b)
    ensures draw <==> forall r, c :: 0 <= r < 3 && 0 <= c < 3 ==> b[r, c] != Empty
    ensures draw <==> Full(Cells(b))
  {
    Empty !in Row(b, 0) && Empty !in Row(b, 1) && Empty !in Row(b, 2)
  }

  /** Writes `mark` into square (row, col) of the board: `board[row][col] = mark`. */
  method Put(board: array2<Cell>, row: nat, col: nat, mark: Cell)
    requires IsBoard(board) && row < 3 && col < 3
    modifies board
    ensures Cells(board) == Place(old(Cells(board)), (row, col), mark)
  {
    ghost var g := Cells(board);
    board[row, col] := mark;
    SameSquares(Cells(board), Place(g, (row, col), mark));
  }

  /** Sets every cell to ' ' and hands back the same board object. */
  method InitialiseBoard(board: array2<Cell>) returns (same: array2<Cell>)
    requires IsBoard(board)
    modifies board
    ensures same == board
    ensures forall r, c :: 0 <= r < 3 && 0 <= c < 3 ==> board[r, c] == Empty
    ensures Cells(board) == EmptyGrid
  {
    for i := 0 to 3
      invariant forall r, c :: 0 <= r < i && 0 <= c < 3 ==> board[r, c] == Empty
    {
      for j := 0 to 3
        invariant forall r, c :: 0 <= r < i && 0 <= c < 3 ==> board[r, c] == Empty
        invariant forall c :: 0 <= c < j ==> board[i, c] == Empty
      {
        board[i, j] := Empty;
      }
    }
    SameSquares(Cells(board), EmptyGrid);
    same := board;
  }
}
