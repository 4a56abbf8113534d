/** The game state and the turn sequencing of the play loop. */
module TicTacToe {
  import opened Wrappers
  import opened Board
  import opened GameOver

  datatype Player = Player(name: string, symbol: char)

  /** The board, the two players, and the index of the player whose turn it is. */
  datatype Game = Game(grid: Grid, players: seq<Player>, currentPlayerIndex: int)

  ghost predicate Valid(game: Game) {
    |game.players| == 2 && 0 <= game.currentPlayerIndex <= 1
  }

  function CurrentSymbol(game: Game): char
    requires Valid(game)
  {
    game.players[game.currentPlayerIndex].symbol
  }

  /** Starts a game: an empty board, the first player plays 'X', the second
      'O', and the first player moves first. */
  method NewGame(player1Name: string, player2Name: string) returns (game: Game)
    ensures Valid(game)
    ensures IsEmptyBoard(game.grid)
    ensures game.currentPlayerIndex == 0
    ensures game.players[0] == Player(player1Name, 'X') && game.players[1] == Player(player2Name, 'O')
    ensures game.players[0].symbol != game.players[1].symbol
    ensures game.players[0].symbol != Empty && game.players[1].symbol != Empty
    ensures Balanced(game)
  {
    var grid := InitializeGrid();
    assert forall k :: 0 <= k < 9 ==> grid[k] == Get(grid, k / 3, k % 3);
    CountAbsent(grid, 'X');
    CountAbsent(grid, 'O');
    game := Game(grid, [Player(player1Name, 'X'), Player(player2Name, 'O')], 0);
  }

  /** What one pass of the play loop reports. */
  datatype Event =
    | InvalidRow          // the row input was missing, not a number, or off the grid
    | InvalidColumn       // the same for the column input
    | InvalidMove         // the cell was off the grid or already occupied
    | Moved               // a mark was placed and the game goes on
    | GameEnded(winner: char)  // a mark was placed and the game is over; the empty mark means a draw

  datatype StepResult = StepResult(game: Game, event: Event)

  /** One move of the current player at (row, col), after the input has been
      read: a refused placement changes nothing; an accepted one either ends
      the game, keeping the turn index, or passes the turn to the other player. */
  function Step(game: Game, row: int, col: int): (r: StepResult)
    requires Valid(game)
    ensures Valid(r.game) && r.game.players == game.players
    ensures r.event == InvalidMove <==> !(InRange(row, col) && Get(game.grid, row, col) == Empty)
    ensures r.event == InvalidMove ==> r.game == game
    ensures r.event != InvalidMove ==>
      && InRange(row, col)
      && Get(r.game.grid, row, col) == CurrentSymbol(game)
      && SameExcept(game.grid, r.game.grid, row, col)
    ensures r.event.GameEnded? <==> r.event != InvalidMove && Classify(r.game.grid) != InProgress
    ensures r.event.GameEnded? ==>
      && r.game.currentPlayerIndex == game.currentPlayerIndex
      && (r.event.winner == Empty <==> Classify(r.game.grid) == Draw)
      && (r.event.winner != Empty ==> Classify(r.game.grid) == Win(r.event.winner))
    ensures r.event == Moved ==> r.game.currentPlayerIndex == 1 - game.currentPlayerIndex
    ensures r.event in {InvalidMove, Moved} || r.event.GameEnded?
  {
    var (placed, grid) := PlaceSymbol(game.grid, row, col, CurrentSymbol(game));
    if !placed then
      StepResult(game, InvalidMove)
    else
      var (over, winner) := IsGameOver(grid);
      assert Classify(grid) == if !over then InProgress else if winner == Empty then Draw else Win(winner);
      if over then
        StepResult(game.(grid := grid), GameEnded(winner))
      else
        OtherPlayer(game.currentPlayerIndex);
        StepResult(game.(grid := grid, currentPlayerIndex := (game.currentPlayerIndex + 1) % 2), Moved)
  }

  /** Of the two player indices, adding one modulo 2 gives the other. */
  lemma OtherPlayer(index: int)
    requires 0 <= index <= 1
    ensures (index + 1) % 2 == 1 - index
  {
  }

  /** One pass of the play loop from the parsed inputs: None stands for a
      missing or non-numeric line. The column is only read, and only
      checked, once the row is valid. */
  function Turn(game: Game, rowInput: Option<int>, colInput: Option<int>): (r: StepResult)
    requires Valid(game)
    ensures r.event == InvalidRow <==> !(rowInput.Some? && 0 <= rowInput.value <= 2)
    ensures r.event == InvalidColumn <==>
      rowInput.Some? && 0 <= rowInput.value <= 2 && !(colInput.Some? && 0 <= colInput.value <= 2)
    ensures r.event in {InvalidRow, InvalidColumn} ==> r.game == game
    ensures !(r.event in {InvalidRow, InvalidColumn}) ==> r == Step(game, rowInput.value, colInput.value)
  {
    if rowInput.Some? && rowInput.value >= 0 && rowInput.value <= 2 then
      if colInput.Some? && colInput.value >= 0 && colInput.value <= 2 then
        Step(game, rowInput.value, colInput.value)
      else
        StepResult(game, InvalidColumn)
    else
      StepResult(game, InvalidRow)
  }

  /** The play loop over a finite list of per-pass inputs: it runs turns until
      the game ends or the inputs run out, and reports the event of every pass. */
  function Run(game: Game, inputs: seq<(Option<int>, Option<int>)>): (r: (Game, seq<Event>))
    requires Valid(game)
    ensures Valid(r.0) && r.0.players == game.players
    ensures |r.1| <= |inputs|
    ensures forall k :: 0 <= k < |r.1| - 1 ==> !r.1[k].GameEnded?
    ensures |r.1| < |inputs| ==> |r.1| > 0 && r.1[|r.1| - 1].GameEnded?
    decreases |inputs|
  {
    if |inputs| == 0 then (game, [])
    else
      var s := Turn(game, inputs[0].0, inputs[0].1);
      if s.event.GameEnded? then
        (s.game, [s.event])
      else
        var (last, events) := Run(s.game, inputs[1..]);
        (last, [s.event] + events)
  }

  /** The number of passes that placed a mark without ending the game. */
  function CountMoved(events: seq<Event>): nat {
    if |events| == 0 then 0
    else (if events[0] == Moved then 1 else 0) + CountMoved(events[1..])
  }

  /** A pass of the loop advances the turn index by one exactly when it
      places a mark without ending the game. */
  lemma TurnAdvancesOnMoved(game: Game, rowInput: Option<int>, colInput: Option<int>)
    requires Valid(game)
    ensures var r := Turn(game, rowInput, colInput);
      r.game.currentPlayerIndex == if r.event == Moved then 1 - game.currentPlayerIndex else game.currentPlayerIndex
  {
  }

  /** The index of the player to move after `moves` passes that each handed
      the turn over, starting from `index`. */
  function TurnAfter(index: int, moves: nat): int {
    (index + moves) % 2
  }

  lemma TurnAfterNone(index: int)
    requires 0 <= index <= 1
    ensures TurnAfter(index, 0) == index
  {
  }

  lemma TurnAfterStep(index: int, next: int, total: nat, rest: nat)
    requires 0 <= index <= 1
    requires (next == 1 - index && total == rest + 1) || (next == index && total == rest)
    ensures TurnAfter(next, rest) == TurnAfter(index, total)
  {
  }

  /** The turn strictly alternates: after any run of the loop, the index has
      advanced by the number of passes that placed a mark without ending the
      game, modulo 2; invalid input and refused moves do not advance it. */
  lemma {:induction false} RunAlternates(game: Game, inputs: seq<(Option<int>, Option<int>)>)
    requires Valid(game)
    ensures Run(game, inputs).0.currentPlayerIndex ==
      TurnAfter(game.currentPlayerIndex, CountMoved(Run(game, inputs).1))
    decreases |inputs|
  {
    var c := game.currentPlayerIndex;
    if |inputs| == 0 {
      TurnAfterNone(c);
    } else {
      var s := Turn(game, inputs[0].0, inputs[0].1);
      TurnAdvancesOnMoved(game, inputs[0].0, inputs[0].1);
      if !s.event.GameEnded? {
        var tail := Run(s.game, inputs[1..]);
        RunAlternates(s.game, inputs[1..]);
        RunUnfold(game, inputs);
        CountMovedCons(s.event, tail.1);
        TurnAfterStep(c, s.game.currentPlayerIndex, CountMoved(Run(game, inputs).1), CountMoved(tail.1));
      } else {
        CountMovedCons(s.event, []);
        TurnAfterNone(c);
      }
    }
  }

  /** A pass that does not end the game is followed by the rest of the loop. */
  lemma RunUnfold(game: Game, inputs: seq<(Option<int>, Option<int>)>)
    requires Valid(game) && |inputs| > 0
    requires !Turn(game, inputs[0].0, inputs[0].1).event.GameEnded?
    ensures var s := Turn(game, inputs[0].0, inputs[0].1);
      && Run(game, inputs).0 == Run(s.game, inputs[1..]).0
      && Run(game, inputs).1 == [s.event] + Run(s.game, inputs[1..]).1
  {
  }

  lemma CountMovedCons(e: Event, events: seq<Event>)
    ensures CountMoved([e] + events) == (if e == Moved then 1 else 0) + CountMoved(events)
  {
    assert ([e] + events)[1..] == events;
  }

  /** The engine has no terminal guard: on every finished board, a move to an
      empty cell is still accepted and writes the current mark. A finished
      board with an empty cell is a won one, and the winning line survives the
      move, so the move reports the end of the game again. */
  lemma NoTerminalGuard(game: Game, row: int, col: int)
    requires Valid(game) && Classify(game.grid) != InProgress
    requires InRange(row, col) && Get(game.grid, row, col) == Empty
    ensures var r := Step(game, row, col);
      && r.event != InvalidMove
      && Get(r.game.grid, row, col) == CurrentSymbol(game)
      && r.event.GameEnded?
  {
    assert !IsFull(game.grid);
    var l: Line :| Wins(game.grid, l);
    var r := Step(game, row, col);
    assert r.event != InvalidMove;
    WinSurvivesMove(game.grid, r.game.grid, row, col, l);
    assert Classify(r.game.grid).Win?;
  }

  /** A winning line survives a placement in an empty cell: the cell cannot
      lie on the line, whose three cells are occupied. */
  lemma WinSurvivesMove(g: Grid, h: Grid, row: int, col: int, l: Line)
    requires InRange(row, col) && Get(g, row, col) == Empty
    requires SameExcept(g, h, row, col) && Wins(g, l)
    ensures Wins(h, l)
  {
    assert Cells(h, l) == Cells(g, l);
  }

  /** A concrete finished board: row 0 is won by 'X', and a placement in an
      empty cell is still accepted. */
  lemma NoTerminalGuardExample()
    ensures var g: Grid := "XXXOO----"; Classify(g) == Win('X') && PlaceSymbol(g, 2, 2, 'O').0
  {
    var g: Grid := "XXXOO----";
    assert FirstWinningLine(g, 0);
  }

  /** Occurrences of mark `m` in the grid cells `s`. */
  function Count(s: seq<char>, m: char): nat {
    if |s| == 0 then 0
    else (if s[0] == m then 1 else 0) + Count(s[1..], m)
  }

  lemma {:induction false} CountUpdate(s: seq<char>, i: int, c: char, m: char)
    requires 0 <= i < |s|
    ensures Count(s[i := c], m) == Count(s, m) - (if s[i] == m then 1 else 0) + (if c == m then 1 else 0)
    decreases |s|
  {
    if i > 0 {
      CountUpdate(s[1..], i - 1, c, m);
      assert s[i := c][1..] == s[1..][i - 1 := c];
    }
  }

  /** The standard pairing of players and marks, with the count of marks
      matching whose turn it is: 'X' has played once more than 'O' exactly
      when it is the second player's turn. */
  ghost predicate Balanced(game: Game) {
    && Valid(game)
    && game.players[0].symbol == 'X' && game.players[1].symbol == 'O'
    && Count(game.grid, 'X') == Count(game.grid, 'O') + game.currentPlayerIndex
  }

  /** Every pass of the loop that does not end the game keeps the marks
      balanced with the turn index; the pass that ends it leaves the last
      mover one mark ahead of the balance. */
  lemma StepKeepsBalance(game: Game, row: int, col: int)
    requires Balanced(game)
    ensures var r := Step(game, row, col);
      (!r.event.GameEnded? ==> Balanced(r.game))
      && (r.event.GameEnded? ==>
            Count(r.game.grid, 'X') == Count(r.game.grid, 'O') + 1 - r.game.currentPlayerIndex)
  {
    var r := Step(game, row, col);
    if r.event != InvalidMove {
      var k := Index(row, col);
      var sym := CurrentSymbol(game);
      var (placed, grid) := PlaceSymbol(game.grid, row, col, sym);
      assert placed && grid == game.grid[k := sym] && r.game.grid == grid;
      assert game.grid[k] == Empty;
      CountUpdate(game.grid, k, sym, 'X');
      CountUpdate(game.grid, k, sym, 'O');
      if game.currentPlayerIndex == 0 {
        assert sym == game.players[0].symbol == 'X';
        assert Count(grid, 'X') == Count(game.grid, 'X') + 1;
        assert Count(grid, 'O') == Count(game.grid, 'O');
      } else {
        assert game.currentPlayerIndex == 1;
        assert sym == game.players[1].symbol == 'O';
        assert Count(grid, 'X') == Count(game.grid, 'X');
        assert Count(grid, 'O') == Count(game.grid, 'O') + 1;
      }
    }
  }

  lemma {:induction false} CountAbsent(s: seq<char>, m: char)
    requires forall k :: 0 <= k < |s| ==> s[k] != m
    ensures Count(s, m) == 0
    decreases |s|
  {
    if |s| > 0 {
      CountAbsent(s[1..], m);
    }
  }

  /** The whole play loop keeps the marks balanced with the turn index until
      the game ends. */
  lemma {:induction false} RunKeepsBalance(game: Game, inputs: seq<(Option<int>, Option<int>)>)
    requires Balanced(game)
    ensures var r := Run(game, inputs);
      (|r.1| == 0 || !r.1[|r.1| - 1].GameEnded?) ==> Balanced(r.0)
    decreases |inputs|
  {
    if |inputs| > 0 {
      var s := Turn(game, inputs[0].0, inputs[0].1);
      if !s.event.GameEnded? {
        if s.event !in {InvalidRow, InvalidColumn} {
          StepKeepsBalance(game, inputs[0].0.value, inputs[0].1.value);
        }
        RunKeepsBalance(s.game, inputs[1..]);
      }
    }
  }
}
