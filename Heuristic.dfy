/**
  The computer's move heuristic: a fixed cascade of five tiers (win now,
  block the player, take the centre, take a corner, take any square), each
  scanned in a fixed order. `Choose` states on values which square the
  cascade picks and why; `ChooseComputerMove` is the game's procedure on
  the board array, with its hypothetical placements and their undoing.
 */
module Heuristic {
  import opened Board

  /** The squares in the heuristic's scan order: index i - 1 holds ((i - 1) / 3, (i - 1) % 3) for i = 1..9. */
  const RowMajor: seq<Square> :=
    [(0, 0), (0, 1), (0, 2), (1, 0), (1, 1), (1, 2), (2, 0), (2, 1), (2, 2)]

  /** The corners in the order the heuristic tries them. */
  const Corners: seq<Square> := [(0, 0), (0, 2), (2, 0), (2, 2)]

  /** The centre square. */
  const Centre: Square := (1, 1)

  /** The position of square `s` in row-major order. */
  function Index(s: Square): nat
  {
    3 * s.0 + s.1
  }

  /** Scan position i - 1 of the heuristic's loops is the square ((i - 1) / 3, (i - 1) % 3), and back. */
  lemma ScanSquare(i: int)
    requires 1 <= i <= 9
    ensures OnBoard(((i - 1) / 3, (i - 1) % 3))
    ensures RowMajor[i - 1] == ((i - 1) / 3, (i - 1) % 3)
    ensures Index(RowMajor[i - 1]) == i - 1
  {
  }

  /** Every square of the board has its own place in the row-major order. */
  lemma RowMajorIndex(s: Square)
    requires OnBoard(s)
    ensures Index(s) < 9 && RowMajor[Index(s)] == s
  {
  }

  /** The scan lists hold squares of the board only. */
  lemma ScanListsOnBoard()
    ensures forall k :: 0 <= k < |RowMajor| ==> OnBoard(RowMajor[k])
    ensures forall i :: 0 <= i < |Corners| ==> OnBoard(Corners[i])
  {
  }

  /** A grid whose every square in row-major order is taken is full. */
  lemma ScannedFull(g: Grid)
    requires forall k :: 0 <= k < 9 ==> At(g, RowMajor[k]) != Empty
    ensures Full(g)
  {
    forall r, c | 0 <= r < 3 && 0 <= c < 3 ensures g[r][c] != Empty {
      RowMajorIndex((r, c));
    }
  }

  /** `mark` can go in square `s` (it is empty) and would give `mark` three in a row. */
  predicate Completes(g: Grid, s: Square, mark: Cell)
  {
    OnBoard(s) && At(g, s) == Empty && Wins(Place(g, s, mark), mark)
  }

  /** Some square completes a line for `mark`. */
  predicate CanComplete(g: Grid, mark: Cell)
  {
    exists k :: 0 <= k < 9 && Completes(g, RowMajor[k], mark)
  }

  /** `s` is the first square in row-major order that completes a line for `mark`. */
  predicate FirstCompleting(g: Grid, s: Square, mark: Cell)
  {
    OnBoard(s) && Completes(g, s, mark)
    && forall k :: 0 <= k < Index(s) ==> !Completes(g, RowMajor[k], mark)
  }

  /** The position, from `from` on in row-major order, of the first square that completes a line for `mark`. */
  function ScanCompleting(g: Grid, mark: Cell, from: nat): (r: Option<nat>)
    requires from <= 9
    ensures r.Some? ==> from <= r.value < 9 && Completes(g, RowMajor[r.value], mark)
                        && forall k :: from <= k < r.value ==> !Completes(g, RowMajor[k], mark)
    ensures r.None? ==> forall k :: from <= k < 9 ==> !Completes(g, RowMajor[k], mark)
    decreases 9 - from
  {
    if from == 9 then None
    else if Completes(g, RowMajor[from], mark) then Some(from)
    else ScanCompleting(g, mark, from + 1)
  }

  /** The position, from `from` on, of the first square of `squares` that is empty. */
  function ScanEmpty(g: Grid, squares: seq<Square>, from: nat): (r: Option<nat>)
    requires from <= |squares|
    requires forall i :: 0 <= i < |squares| ==> OnBoard(squares[i])
    ensures r.Some? ==> from <= r.value < |squares| && At(g, squares[r.value]) == Empty
                        && forall i :: from <= i < r.value ==> At(g, squares[i]) != Empty
    ensures r.None? ==> forall i :: from <= i < |squares| ==> At(g, squares[i]) != Empty
    decreases |squares| - from
  {
    if from == |squares| then None
    else if At(g, squares[from]) == Empty then Some(from)
    else ScanEmpty(g, squares, from + 1)
  }

  /** The tier of the cascade that made the choice. */
  datatype Tier = WinNow | BlockPlayer | TakeCentre | TakeCorner | TakeAny

  /** The square the heuristic picks and the tier that picked it. */
  datatype Choice = Choice(tier: Tier, square: Square)

  /**
    Tiers 3 to 5 of the cascade on a grid that still has an empty square: the
    centre if it is empty, else the first empty corner, else the first empty
    square in row-major order.
   */
  function Fallback(g: Grid): (c: Choice)
    requires !Full(g)
    ensures OnBoard(c.square) && At(g, c.square) == Empty
    ensures c.tier == TakeCentre || c.tier == TakeCorner || c.tier == TakeAny
  {
    ScanListsOnBoard();
    if At(g, Centre) == Empty then Choice(TakeCentre, Centre)
    else match ScanEmpty(g, Corners, 0)
      case Some(i) => Choice(TakeCorner, Corners[i])
      case None =>
        match ScanEmpty(g, RowMajor, 0)
        case Some(k) => Choice(TakeAny, RowMajor[k])
        case None =>
          ScannedFull(g);
          assert false;
          Choice(TakeAny, Centre)
  }

  /**
    The heuristic's choice on a grid that still has an empty square: a square
    that wins at once for 'O', else one that blocks a win for 'X', else the
    fallback tiers. Each tier takes the first square in its own scan order.
   */
  function Choose(g: Grid): (c: Choice)
    requires !Full(g)
    ensures OnBoard(c.square) && At(g, c.square) == Empty
  {
    ScanListsOnBoard();
    match ScanCompleting(g, O, 0)
    case Some(k) => Choice(WinNow, RowMajor[k])
    case None =>
      match ScanCompleting(g, X, 0)
      case Some(k) => Choice(BlockPlayer, RowMajor[k])
      case None => Fallback(g)
  }

  /** Tier 1: when some square wins at once for 'O', the first such square is chosen. */
  lemma ChooseWinNow(g: Grid, s: Square)
    requires FirstCompleting(g, s, O)
    ensures !Full(g) && Choose(g) == Choice(WinNow, s)
  {
    RowMajorIndex(s);
    assert Completes(g, RowMajor[Index(s)], O);
  }

  /** Tier 2: when 'O' cannot win at once but 'X' could, the first square completing a line for 'X' is chosen. */
  lemma ChooseBlockPlayer(g: Grid, s: Square)
    requires !CanComplete(g, O) && FirstCompleting(g, s, X)
    ensures !Full(g) && Choose(g) == Choice(BlockPlayer, s)
  {
    RowMajorIndex(s);
    assert Completes(g, RowMajor[Index(s)], X);
    assert ScanCompleting(g, O, 0).None?;
  }

  /** With neither a win nor a block available, the choice is the fallback's. */
  lemma ChooseFallback(g: Grid)
    requires !Full(g) && !CanComplete(g, O) && !CanComplete(g, X)
    ensures Choose(g) == Fallback(g)
  {
    assert ScanCompleting(g, O, 0).None? && ScanCompleting(g, X, 0).None?;
  }

  /** Tier 3: an empty centre is taken. */
  lemma FallbackCentre(g: Grid)
    requires At(g, Centre) == Empty
    ensures !Full(g) && Fallback(g) == Choice(TakeCentre, Centre)
  {
  }

  /** Tier 4: with the centre taken, the first empty corner in the order (0,0), (0,2), (2,0), (2,2). */
  lemma FallbackCorner(g: Grid, i: nat)
    requires At(g, Centre) != Empty
    requires i < 4 && At(g, Corners[i]) == Empty && forall j :: 0 <= j < i ==> At(g, Corners[j]) != Empty
    ensures !Full(g) && Fallback(g) == Choice(TakeCorner, Corners[i])
  {
    ScanListsOnBoard();
    assert ScanEmpty(g, Corners, 0) == Some(i);
  }

  /** Tier 5: with the centre and every corner taken, the first empty square in row-major order. */
  lemma FallbackAny(g: Grid, s: Square)
    requires At(g, Centre) != Empty
    requires forall i :: 0 <= i < 4 ==> At(g, Corners[i]) != Empty
    requires OnBoard(s) && At(g, s) == Empty && forall k :: 0 <= k < Index(s) ==> At(g, RowMajor[k]) != Empty
    ensures !Full(g) && Fallback(g) == Choice(TakeAny, s)
  {
    ScanListsOnBoard();
    RowMajorIndex(s);
    assert ScanEmpty(g, Corners, 0).None?;
    assert ScanEmpty(g, RowMajor, 0) == Some(Index(s));
  }

  /** The grid the heuristic leaves behind: an 'O' in the chosen square after a win or a block, otherwise untouched. */
  function LeftBehind(g: Grid, c: Choice): (h: Grid)
    requires OnBoard(c.square)
    ensures forall t :: OnBoard(t) && t != c.square ==> At(h, t) == At(g, t)
    ensures At(h, c.square) == (if c.tier == WinNow || c.tier == BlockPlayer then O else At(g, c.square))
  {
    if c.tier == WinNow || c.tier == BlockPlayer then Place(g, c.square, O) else g
  }

  /**
    One hypothetical placement of tiers 1 and 2: write `mark` into an empty
    square, ask whether it wins, and undo the write when it does not.
   */
  method PlaceAndTest(board: array2<Cell>, row: nat, col: nat, mark: Cell) returns (won: bool)
    requires IsBoard(board) && row < 3 && col < 3 && board[row, col] == Empty
    modifies board
    ensures won == Completes(old(Cells(board)), (row, col), mark)
    ensures Cells(board) == if won then Place(old(Cells(board)), (row, col), mark) else old(Cells(board))
  {
    ghost var g := Cells(board);
    Put(board, row, col, mark);
    won := CheckForWin(board, mark);
    if !won {
      Put(board, row, col, Empty);
      SameSquares(Cells(board), g);
    }
  }

  /**
    The scan of tiers 1 and 2: try `mark` in each empty square for i = 1..9,
    stop at the first that wins and leave `mark` there; otherwise the board
    ends as it began.
   */
  method FindCompleting(board: array2<Cell>, mark: Cell) returns (found: bool, row: nat, col: nat)
    requires IsBoard(board)
    modifies board
    ensures found <==> CanComplete(old(Cells(board)), mark)
    ensures found ==> FirstCompleting(old(Cells(board)), (row, col), mark)
                      && Cells(board) == Place(old(Cells(board)), (row, col), mark)
    ensures !found ==> Cells(board) == old(Cells(board))
  {
    ghost var g := Cells(board);
    for i := 1 to 10
      invariant Cells(board) == g
      invariant forall k :: 0 <= k < i - 1 ==> !Completes(g, RowMajor[k], mark)
    {
      row, col := (i - 1) / 3, (i - 1) % 3;
      ScanSquare(i);
      if board[row, col] == Empty {
        var won := PlaceAndTest(board, row, col, mark);
        if won {
          return true, row, col;
        }
      }
    }
    return false, 0, 0;
  }

  /** Tiers 3 to 5 on the board array: the centre, then the corners, then every square in row-major order. */
  method TakeFreeSquare(board: array2<Cell>) returns (row: nat, col: nat)
    requires IsBoard(board) && !Full(Cells(board))
    ensures (row, col) == Fallback(Cells(board)).square
  {
    ghost var g := Cells(board);
    // Tier 3: the centre
    if board[1, 1] == Empty {
      FallbackCentre(g);
      return 1, 1;
    }
    // Tier 4: the corners in order
    for j := 0 to 4
      invariant forall i :: 0 <= i < j ==> At(g, Corners[i]) != Empty
    {
      row, col := Corners[j].0, Corners[j].1;
      if board[row, col] == Empty {
        FallbackCorner(g, j);
        return;
      }
    }
    // Tier 5: the first empty square
    for r := 0 to 3
      invariant forall k :: 0 <= k < 3 * r ==> At(g, RowMajor[k]) != Empty
    {
      for c := 0 to 3
        invariant forall k :: 0 <= k < 3 * r + c ==> At(g, RowMajor[k]) != Empty
      {
        RowMajorIndex((r, c));
        if board[r, c] == Empty {
          FallbackAny(g, (r, c));
          return r, c;
        }
      }
    }
    ScannedFull(g);
    assert false;
  }

  /**
    The game's heuristic on the board array. Tiers 1 and 2 try each empty
    square in turn; on a win or a block the 'O' stays on the board, and every
    failed hypothesis is undone. Tiers 3 to 5 only read the board.
   */
  method ChooseComputerMove(board: array2<Cell>) returns (row: nat, col: nat)
    requires IsBoard(board) && !Full(Cells(board))
    modifies board
    ensures row < 3 && col < 3 && old(board[row, col]) == Empty
    ensures (row, col) == Choose(old(Cells(board))).square
    ensures Cells(board) == LeftBehind(old(Cells(board)), Choose(old(Cells(board))))
  {
    ghost var g := Cells(board);
    var found: bool;
    // Tier 1: win now
    found, row, col := FindCompleting(board, O);
    if found {
      ChooseWinNow(g, (row, col));
      return;
    }
    // Tier 2: block 'X'
    found, row, col := FindCompleting(board, X);
    if found {
      Put(board, row, col, O);
      SameSquares(Cells(board), Place(g, (row, col), O));
      ChooseBlockPlayer(g, (row, col));
      return;
    }
    ChooseFallback(g);
    row, col := TakeFreeSquare(board);
  }
}
