# Tic-Tac-Toe game engine in Dafny

A model of the game-state engine of a console Tic-Tac-Toe program written in
C#. Two players, 'X' and 'O', take turns placing their mark on a 3x3 grid; a
player wins with three of their marks in a row, column or diagonal, and a
full grid with no such line is a draw.

The model has four modules:

- `Wrappers` (wrappers.dfy): an `Option` type, used for scan results and for
  console input that may fail to parse.
- `Board` (board.dfy): the grid as a row-major `seq<char>` of length 9, with
  `'-'` marking an empty cell as in the source. `InitializeGrid` mirrors the
  constructor's nested loops. `PlaceSymbol` is a pure function that returns the
  C# `bool` result together with the new grid.
- `GameOver` (game_over.dfy): the eight winning lines and the order in which
  the source scans them. `IsGameOver` returns the pair `(over, winner)`, which
  mirrors the C# `bool` result and its `out char winner`. Its body follows the
  source loop by loop: rows and columns interleaved, then the two diagonals,
  then the search for an empty cell. Its contract is stated against a
  declarative reference: "the first winning line in scan order", "no line
  wins" and "the grid is full". `Classify` reads the pair as the play loop
  does: a non-empty winner is a win and `'-'` means a draw. This gives the
  structured `InProgress | Draw | Win(mark)` view.
- `TicTacToe` (tic_tac_toe.dfy): the players and the game state. `NewGame`
  models the constructors. `Step` models one move of the play loop once row
  and column are known. `Turn` adds the range checks on already-parsed input.
  `Run` models the loop over a finite list of per-pass inputs; it stops at the
  pass that ends the game, as the source's `break` does.

The model keeps two behaviours of the source as they are.

- `PlaceSymbol` does not check its symbol. Placing `'-'` is accepted and
  changes nothing (`PlaceEmptyMarkAcceptedButInvisible`). For that reason the
  once-per-cell lemmas require every placed symbol to be non-empty.
- The engine has no terminal guard: a finished board still accepts moves
  (`NoTerminalGuard`). Only the loop stops play.

The "marks balanced with the turn" invariant (`Balanced`) follows from the
alternation. While play goes on, 'X' has exactly as many marks as 'O' plus the
current player index.

## Model

| member | source | states |
|---|---|---|
| `Board.InitializeGrid` | TicTacToeProject/.TicTacToeProject.cs:20-39 | after the constructor's nested loops, all nine cells hold the empty mark `'-'` |
| `Board.PlaceSymbol` | TicTacToeProject/.TicTacToeProject.cs:90-99 | the move is accepted if and only if row and column are in [0,2] and the cell is empty; a refused move leaves the grid unchanged; an accepted move writes the symbol at that cell and leaves the other eight cells unchanged |
| `Board.PlaceAllAccepts` | TicTacToeProject/.TicTacToeProject.cs:93-98 | in any sequence of placements, each with its own non-empty symbol (so any interleaving of 'X' and 'O'), a placement succeeds exactly when it is on the grid, its cell was empty at the start, and no earlier placement targeted the same row and column |
| `Board.FreshBoardOncePerCell` | TicTacToeProject/.TicTacToeProject.cs:93-98 | on a fresh board each cell accepts exactly one placement of a non-empty mark, whichever player makes it: the first placement at a row and column succeeds and every later one there fails, with the same or the other mark |
| `Board.PlaceEmptyMarkAcceptedButInvisible` | TicTacToeProject/.TicTacToeProject.cs:90-98 | the symbol is not validated: placing `'-'` on an empty cell returns true and leaves the grid as it was |
| `GameOver.ScanOrderIsComplete` | TicTacToeProject/.TicTacToeProject.cs:105-131 | the scan visits each of the eight lines (three rows, three columns, two diagonals) exactly once |
| `GameOver.ScanRowsAndColumns` | TicTacToeProject/.TicTacToeProject.cs:105-118 | the row/column loop finds a winner if and only if some remaining row or column wins; the winner it reports is the mark of the first winning line in the order row i, column i, row i+1, ... |
| `GameOver.RowHasEmpty` | TicTacToeProject/.TicTacToeProject.cs:137-141 | the inner loop of the empty-cell search finds an empty cell if and only if one exists in the rest of the row |
| `GameOver.HasEmptyFrom` | TicTacToeProject/.TicTacToeProject.cs:135-142 | the outer loop of the empty-cell search finds an empty cell if and only if one exists in the remaining rows |
| `GameOver.IsGameOver` | TicTacToeProject/.TicTacToeProject.cs:102-144 | if some line wins, the result is over with the mark of the first winning line in the order row0, col0, row1, col1, row2, col2, main diagonal, anti-diagonal; if none wins, the winner is `'-'` and the game is over exactly when the grid is full |
| `GameOver.FirstWinningLineExists` | TicTacToeProject/.TicTacToeProject.cs:105-131 | some line wins if and only if there is a first winning line in scan order, so the two cases of the check cover every board |
| `GameOver.Classify` | TicTacToeProject/.TicTacToeProject.cs:167-173 | the play loop's reading of the check: a win exactly when some line wins, with a non-empty mark that is the mark of the first winning line in scan order; a draw exactly when no line wins and the grid is full |
| `GameOver.ClassifyWin` | TicTacToeProject/.TicTacToeProject.cs:105-131 | the game is reported won by m if and only if m is the mark of the first winning line in scan order |
| `GameOver.ClassifyDraw` | TicTacToeProject/.TicTacToeProject.cs:133-143 | the game is reported a draw if and only if no line wins and no cell is empty |
| `GameOver.ClassifyInProgress` | TicTacToeProject/.TicTacToeProject.cs:133-143 | the game is reported not over if and only if no line wins and some cell is empty |
| `TicTacToe.NewGame` | TicTacToeProject/.TicTacToeProject.cs:61-69 | a new game has an empty board and current index 0; player 1 plays 'X' and player 2 plays 'O', two distinct non-empty marks; the marks are balanced with the turn |
| `TicTacToe.Step` | TicTacToeProject/.TicTacToeProject.cs:164-180 | a refused placement changes neither the board nor the turn index; an accepted one writes the current player's mark at that cell only; it ends the game exactly when the check then reports a win or a draw, and in that case keeps the index and reports the winner or `'-'`; otherwise the index passes to the other player |
| `TicTacToe.Turn` | TicTacToeProject/.TicTacToeProject.cs:154-191 | a missing, non-numeric or out-of-range row is reported before the column is looked at; a bad column is reported next; neither changes the game; valid input leads to exactly one move |
| `TicTacToe.Run` | TicTacToeProject/.TicTacToeProject.cs:150-192 | the loop keeps both players; it stops at the first pass that ends the game, so only the last reported event can be the end of the game, and it consumes all inputs otherwise |
| `TicTacToe.TurnAdvancesOnMoved` | TicTacToeProject/.TicTacToeProject.cs:164-176 | one pass of the loop flips the turn index exactly when it places a mark without ending the game, and leaves it unchanged otherwise |
| `TicTacToe.RunAlternates` | TicTacToeProject/.TicTacToeProject.cs:150-192 | across any run of the loop, the index equals the starting index plus the number of moves that did not end the game, modulo 2; failed attempts do not count |
| `TicTacToe.NoTerminalGuard` | TicTacToeProject/.TicTacToeProject.cs:164-180 | there is no terminal guard: on every finished board, a move to an empty cell is accepted, writes the current mark, and reports the end of the game again, since a finished board with an empty cell is won and its winning line survives the move |
| `TicTacToe.NoTerminalGuardExample` | TicTacToeProject/.TicTacToeProject.cs:93-98 | a concrete witness: the board `XXXOO----` is reported won by 'X', and placing 'O' at (2, 2) is still accepted |
| `TicTacToe.StepKeepsBalance` | TicTacToeProject/.TicTacToeProject.cs:164-176 | a pass that does not end the game keeps the count of 'X' equal to the count of 'O' plus the turn index; the final move leaves its player one mark ahead |
| `TicTacToe.RunKeepsBalance` | TicTacToeProject/.TicTacToeProject.cs:150-192 | the whole play loop keeps that balance until the game ends |

## Left out

- `Display` and every console write: presentational output with no state change.
- Console input: `Console.ReadLine`, `int.TryParse` and name entry in `Main`. These are I/O and .NET library calls. `Turn` takes the already-parsed row and column, with `None` for a null or non-numeric line.
- `TicTacToe.Turn`: the column input of a pass whose row is invalid is ignored, because the source never reads that line. The model pairs each pass with its two inputs, not a stream of lines.
- `TicTacToe.Run`: the source loop waits for input forever until the game ends. The model runs over a finite list of per-pass inputs and stops early only when the game ends.
- The abstract `Board` class and its inheritance: object-oriented packaging with no behaviour of its own.
- Player names: kept as opaque strings; no logic reads them.
- C# 32-bit `int`: coordinates and the turn index are only compared or reduced modulo 2, so unbounded integers behave the same on every value that can occur.
- Purity of `IsGameOver` has no member of its own. It is a Dafny function of the grid, so it cannot change the grid.
- The engine has no terminal guard: a finished board still accepts moves, and only the loop's `break` stops play (see `NoTerminalGuard`). The model promises no immutability of finished games.
- The model keeps the `'-'` winner sentinel the code returns; `Classify` gives the structured `InProgress | Draw | Win(mark)` view.
