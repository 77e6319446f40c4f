# Noughts and crosses: board engine, computer heuristic and game loop

This project models the rule engine of a console noughts-and-crosses game. The
human player plays 'X' and the computer plays 'O'. The model has three modules.

- `Board` (Board.dfy) is the board engine.
  - The 3x3 board is an `array2<Cell>` with `Cell = Empty | X | O`, and `Cells`
    reads its contents as a `Grid` value.
  - `InitialiseBoard` resets the board in place.
  - `CheckForWin` is the three-in-a-row test over the rows, the columns and the
    two diagonals.
  - `CheckForDraw` is the "no cell is ' '" test.
- `Heuristic` (Heuristic.dfy) models the computer's move heuristic, a fixed
  cascade of five tiers: win now, block the player, take the centre, take a
  corner, take any cell. Each tier scans its squares in a fixed order.
  - `Choose` states on values which square the cascade picks. One lemma per
    tier says which square that is.
  - `ChooseComputerMove` is the procedure on the board array. It makes the
    hypothetical placements of tiers 1 and 2 and undoes the ones that fail.
    After a win or a block it leaves an 'O' in the chosen cell.
- `Game` (Game.dfy) models the game loop, with the console replaced by a
  sequence of typed integer entries.
  - `GetPlayerMove` reads entries until one names an empty cell.
  - `Play` is the game as a function of the starting grid and the entries.
  - `PlayGame` is the loop on the board array, proved to reach the ending
    `Play` describes.
  - Lemmas state what a score means, how turns alternate, that no mark is
    overwritten, and that a game places at most nine marks.

Python's `' '`, `'X'` and `'O'` cell strings are the constructors `Empty`, `X`
and `O`.

Python's `//` and `%` with divisor 3 agree with Dafny's Euclidean operators,
so `(i - 1) // 3` and `(i - 1) % 3` are written as they stand. The negative
list indices that `get_player_move` can produce are modelled explicitly (see
`Game.Decode`).

Two points of the program's behaviour are easy to get wrong:
- The heuristic is not pure. On the win and block paths it leaves an 'O' in
  the chosen cell (noughtsandcrosses_uniid_.py:72-74 and :83-84), and the model
  keeps that write.
- Out-of-range entries are not re-prompted. An entry below -8 or above 9
  raises `IndexError` at the board lookup, and an entry from -8 to 0 wraps
  round to a cell through Python's negative indices. Only an entry naming an
  occupied cell is re-prompted (noughtsandcrosses_uniid_.py:51-56).

## Model

| member | source | states |
|---|---|---|
| Board.InitialiseBoard | noughtsandcrosses_uniid_.py:36-39 | every one of the nine cells is ' ' afterwards, the grid is the empty grid, and the same board object is returned |
| Board.Count | noughtsandcrosses_uniid_.py:115 | `list.count` is at most the list's length, and equals it exactly when every element is the mark |
| Board.CheckForWin | noughtsandcrosses_uniid_.py:113-128 | true exactly when `mark` fills one of the lines in the set of eight winning lines (three rows, three columns, two diagonals); it only reads the board |
| Board.CountIsMultiplicity | noughtsandcrosses_uniid_.py:115 | the value `list.count` returns: the multiplicity of the mark in the row |
| Board.WinsIsSomeLine | noughtsandcrosses_uniid_.py:113-128 | a win is membership: some line of the set of winning lines is filled with the mark |
| Board.AnyCompletedIsSome | noughtsandcrosses_uniid_.py:113-128 | a list of lines has a filled line exactly when one of its members is filled |
| Board.WinsByLine | noughtsandcrosses_uniid_.py:113-128 | a win is the disjunction of the eight row, column and diagonal tests the game performs |
| Board.CheckForDraw | noughtsandcrosses_uniid_.py:140-143 | true exactly when no cell is ' ', i.e. the grid is full; it does not look for a win |
| Board.Place | noughtsandcrosses_uniid_.py:159 | writing a mark into a square puts it there and leaves every other square as it was |
| Board.Put | noughtsandcrosses_uniid_.py:159 | the assignment `board[row][col] = mark` changes the board's grid to exactly that placement |
| Heuristic.ScanSquare | noughtsandcrosses_uniid_.py:70 | scan index i names the on-board square ((i - 1) // 3, (i - 1) % 3), at row-major position i - 1 |
| Heuristic.ScanCompleting | noughtsandcrosses_uniid_.py:69-75 | the scan finds the first square, in row-major order, that is empty and completes a line for the mark, or reports that none does |
| Heuristic.ScanEmpty | noughtsandcrosses_uniid_.py:92-94 | the scan finds the first empty square of a list, or reports that every square is taken |
| Heuristic.Choose | noughtsandcrosses_uniid_.py:69-100 | on a grid with an empty cell the chosen square lies on the board and is empty |
| Heuristic.Fallback | noughtsandcrosses_uniid_.py:87-100 | the last three tiers always choose an empty on-board square, from the centre, corner or any-cell tier |
| Heuristic.ChooseWinNow | noughtsandcrosses_uniid_.py:69-75 | when some empty square gives 'O' three in a row, the first such square in row-major order is chosen |
| Heuristic.ChooseBlockPlayer | noughtsandcrosses_uniid_.py:78-85 | when 'O' cannot win at once but 'X' could, the first square completing a line for 'X' is chosen, ahead of the centre and corner tiers |
| Heuristic.ChooseFallback | noughtsandcrosses_uniid_.py:68-86 | with no win and no block available, the choice is made by the last three tiers |
| Heuristic.FallbackCentre | noughtsandcrosses_uniid_.py:88-89 | an empty centre (1,1) is taken |
| Heuristic.FallbackCorner | noughtsandcrosses_uniid_.py:92-94 | with the centre taken, the first empty corner in the order (0,0), (0,2), (2,0), (2,2) is taken |
| Heuristic.FallbackAny | noughtsandcrosses_uniid_.py:97-100 | with the centre and every corner taken, the first empty square in row-major order is taken |
| Heuristic.LeftBehind | noughtsandcrosses_uniid_.py:69-100 | the board the heuristic leaves behind differs from the board it was given at most in the chosen square, which holds 'O' after a win or a block and keeps its old contents after tiers 3 to 5 |
| Heuristic.PlaceAndTest | noughtsandcrosses_uniid_.py:71-75 | a hypothetical placement reports whether it completes a line for the mark; a failed one leaves the board exactly as it was, a successful one leaves the mark in place |
| Heuristic.FindCompleting | noughtsandcrosses_uniid_.py:69-75 | the scan of tiers 1 and 2 finds a square exactly when some square completes a line for the mark, and it finds the first; on success only that square changes, holding the mark, otherwise the board is unchanged |
| Heuristic.TakeFreeSquare | noughtsandcrosses_uniid_.py:87-100 | the centre, corner and any-cell scans on the board array return the square the last three tiers choose, without changing the board |
| Heuristic.ChooseComputerMove | noughtsandcrosses_uniid_.py:58-100 | given an empty cell, it returns an on-board cell that was empty on entry, the square the cascade chooses; afterwards the board holds an 'O' there after a win or a block and is exactly as on entry otherwise |
| Game.Decode | noughtsandcrosses_uniid_.py:53-55 | an entry names a cell exactly when it lies in -8..9, and then the cell at row-major position (n - 1) mod 9 |
| Game.DecodeIndex | noughtsandcrosses_uniid_.py:53-54 | entries 1..9 name the cells in row-major order |
| Game.DecodeWraps | noughtsandcrosses_uniid_.py:53-55 | an entry from -8 to 0 names the same cell as the entry nine above it |
| Game.NextMove | noughtsandcrosses_uniid_.py:51-56 | a move that is read names an empty on-board cell, and the entries left are a proper suffix of those given |
| Game.NextMoveFirstFree | noughtsandcrosses_uniid_.py:51-56 | the move read is the first entry that names an empty cell, once every entry before it names an occupied one |
| Game.NextMoveBadIndex | noughtsandcrosses_uniid_.py:51-55 | an entry outside the board, reached before any free cell, ends the reading with an index error |
| Game.NextMoveNoInput | noughtsandcrosses_uniid_.py:51-56 | the entries run out exactly when every one of them names an occupied cell |
| Game.GetPlayerMove | noughtsandcrosses_uniid_.py:51-56 | the input loop on the board array returns the move `NextMove` describes and only reads the board |
| Game.Play | noughtsandcrosses_uniid_.py:157-175 | the game round by round: one 'X' placement then one 'O' placement, stopping at the first line or full grid; each round reads at least one entry (at most two placements per entry), and a game that stops without a score stops with the player to move, after an even number of placements |
| Game.PlaceTwice | noughtsandcrosses_uniid_.py:168 | writing 'O' again into the cell the heuristic already marked changes nothing |
| Game.PlaceKeepsNoWin | noughtsandcrosses_uniid_.py:159-172 | placing one mark cannot give the other mark three in a row |
| Game.EmptyGridNoWin | noughtsandcrosses_uniid_.py:155 | the freshly initialised grid has no line for either side |
| Game.MarkCountPlace | noughtsandcrosses_uniid_.py:159 | a placement changes the number of squares holding each mark by what left the square and what came in |
| Game.PlayOutcome | noughtsandcrosses_uniid_.py:157-175 | from a grid that is not full and has no line: 1 means 'X' has a line and 'O' none, after an odd number of placements; -1 means 'O' has a line and 'X' none, after an even number; 0 means the grid is full with no line; no other score occurs |
| Game.PlayCounts | noughtsandcrosses_uniid_.py:157-175 | turns alternate with the player first: of the marks placed, 'X' gets half rounded up and 'O' half rounded down, and every one goes into an empty cell |
| Game.GameLength | noughtsandcrosses_uniid_.py:155-175 | a game from the initialised board places at most nine marks |
| Game.PlayKeepsMarks | noughtsandcrosses_uniid_.py:157-175 | a mark already on the board holds the same mark when the game ends |
| Game.GameOutcome | noughtsandcrosses_uniid_.py:155-175 | from the initialised board the score is 1, 0 or -1 with the meanings above, and at the end there are as many 'X' as 'O', or one more 'X' |
| Game.PlayGame | noughtsandcrosses_uniid_.py:155-175 | the loop on the board array returns the result `Play` describes from the initialised board and leaves the board holding its final grid |

## Left out

- `draw_board` and `welcome` only print the board and a greeting, and the `print` calls of `play_game` only report the outcome. Nothing is printed in the model.
- `menu` and the leaderboard functions (`load_scores`, `save_score`, `display_leaderboard`) are console and file I/O with JSON parsing. They are not part of this model.
- `random.seed()` only seeds a generator that nothing uses.
- Entries that are not integers make `int(move)` raise `ValueError`. The model's entries are integers, so this case does not arise.
- End of input makes `input()` raise `EOFError`. The model ends the game with the `NoMoreInput` result instead.
- An entry outside -8..9 makes the board lookup raise `IndexError`. The model ends the game with the `IndexError` result instead of an exception.
- Game.GetPlayerMove: for an entry from -8 to 0 the source returns a negative row, which names its row through Python's negative indexing. The model returns the equivalent row from 0 to 2. `play_game` uses the row only as an index, so the cell is the same.
- Heuristic.ChooseComputerMove: with no empty cell the source falls off the end and returns `None`. The model requires an empty cell, which `play_game` ensures by testing for a draw first.
- Game.PlayGame: the `board = initialise_board(board)` rebinding is modelled as a second reference to the same array. The array's identity is not otherwise tracked.
