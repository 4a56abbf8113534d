/** Detection of the end of the game: a winning line, a draw, or neither. */
module GameOver {
  import opened Wrappers
  import opened Board

  /** One of the eight lines of three cells that can win the game. */
  datatype Line = Row(i: Coord) | Column(i: Coord) | MainDiagonal | AntiDiagonal

  /** The order in which the lines are examined: row i then column i for
      i = 0, 1, 2, then the main diagonal, then the anti-diagonal. */
  const ScanOrder: seq<Line> :=
    [Row(0), Column(0), Row(1), Column(1), Row(2), Column(2), MainDiagonal, AntiDiagonal]

  /** The three cells of a line, first cell first. */
  function Cells(g: Grid, l: Line): (char, char, char) {
    match l
    case Row(i) => (Get(g, i, 0), Get(g, i, 1), Get(g, i, 2))
    case Column(i) => (Get(g, 0, i), Get(g, 1, i), Get(g, 2, i))
    case MainDiagonal => (Get(g, 0, 0), Get(g, 1, 1), Get(g, 2, 2))
    case AntiDiagonal => (Get(g, 0, 2), Get(g, 1, 1), Get(g, 2, 0))
  }

  /** A line wins when its three cells hold the same non-empty mark. */
  predicate Wins(g: Grid, l: Line) {
    var (a, b, c) := Cells(g, l);
    a != Empty && a == b && b == c
  }

  /** The mark a line holds, read from its first cell. */
  function Mark(g: Grid, l: Line): char {
    Cells(g, l).0
  }

  /** Line number k of the scan order is the first winning line at or after
      position lo. */
  ghost predicate FirstWinningFrom(g: Grid, lo: int, k: int) {
    && 0 <= lo <= k < |ScanOrder|
    && Wins(g, ScanOrder[k])
    && forall j :: lo <= j < k ==> !Wins(g, ScanOrder[j])
  }

  /** Line number k of the scan order is the first winning line of the grid. */
  ghost predicate FirstWinningLine(g: Grid, k: int) {
    FirstWinningFrom(g, 0, k)
  }

  ghost predicate NoWinningLine(g: Grid) {
    forall l: Line :: !Wins(g, l)
  }

  ghost predicate IsFull(g: Grid) {
    forall row, col :: InRange(row, col) ==> Get(g, row, col) != Empty
  }

  /** The place of a line in the scan order. */
  function Position(l: Line): (k: nat)
    ensures k < |ScanOrder| && ScanOrder[k] == l
  {
    match l
    case Row(i) => 2 * i
    case Column(i) => 2 * i + 1
    case MainDiagonal => 6
    case AntiDiagonal => 7
  }

  /** The scan order lists each of the eight lines exactly once. */
  lemma ScanOrderIsComplete()
    ensures |ScanOrder| == 8
    ensures forall l: Line :: l in ScanOrder
    ensures forall j, k :: 0 <= j < k < |ScanOrder| ==> ScanOrder[j] != ScanOrder[k]
  {
    forall l: Line ensures l in ScanOrder {
      assert ScanOrder[Position(l)] == l;
    }
  }

  lemma ScanOrderRowsAndColumns(i: Coord)
    ensures ScanOrder[2 * i] == Row(i) && ScanOrder[2 * i + 1] == Column(i)
  {
  }

  /** Past row i and column i, neither of which wins, the scan goes on with
      row i + 1. */
  lemma SkipRowAndColumn(g: Grid, i: Coord)
    requires !Wins(g, Row(i)) && !Wins(g, Column(i))
    ensures (forall k :: 2 * i <= k < 6 ==> !Wins(g, ScanOrder[k])) <==>
              (forall k :: 2 * i + 2 <= k < 6 ==> !Wins(g, ScanOrder[k]))
    ensures forall k :: FirstWinningFrom(g, 2 * i, k) ==> FirstWinningFrom(g, 2 * i + 2, k)
  {
    ScanOrderRowsAndColumns(i);
  }

  /** The first loop of the check: rows and columns i, i+1, ..., 2, row before
      column, stopping at the first line whose three cells match and are not
      empty. */
  function ScanRowsAndColumns(g: Grid, i: int): (w: Option<char>)
    requires 0 <= i <= 3
    ensures w.None? <==> forall k :: 2 * i <= k < 6 ==> !Wins(g, ScanOrder[k])
    ensures forall k :: FirstWinningFrom(g, 2 * i, k) && k < 6 ==> w == Some(Mark(g, ScanOrder[k]))
    decreases 3 - i
  {
    if i == 3 then None
    else if Get(g, i, 0) != Empty && Get(g, i, 0) == Get(g, i, 1) && Get(g, i, 1) == Get(g, i, 2) then
      ScanOrderRowsAndColumns(i);
      assert Wins(g, ScanOrder[2 * i]) && Mark(g, ScanOrder[2 * i]) == Get(g, i, 0);
      Some(Get(g, i, 0))
    else if Get(g, 0, i) != Empty && Get(g, 0, i) == Get(g, 1, i) && Get(g, 1, i) == Get(g, 2, i) then
      ScanOrderRowsAndColumns(i);
      assert !Wins(g, ScanOrder[2 * i]) && Wins(g, ScanOrder[2 * i + 1]);
      assert Mark(g, ScanOrder[2 * i + 1]) == Get(g, 0, i);
      Some(Get(g, 0, i))
    else
      assert !Wins(g, Row(i)) && !Wins(g, Column(i));
      SkipRowAndColumn(g, i);
      ScanRowsAndColumns(g, i + 1)
  }

  /** Whether row `row` holds an empty cell at column `col` or later. */
  function RowHasEmpty(g: Grid, row: Coord, col: int): (b: bool)
    requires 0 <= col <= 3
    ensures b <==> exists c :: col <= c <= 2 && Get(g, row, c) == Empty
    decreases 3 - col
  {
    if col == 3 then false
    else if Get(g, row, col) == Empty then true
    else RowHasEmpty(g, row, col + 1)
  }

  /** The final loop of the check: whether some row `row` or later holds an
      empty cell. */
  function HasEmptyFrom(g: Grid, row: int): (b: bool)
    requires 0 <= row <= 3
    ensures b <==> exists r, c :: row <= r <= 2 && 0 <= c <= 2 && Get(g, r, c) == Empty
    decreases 3 - row
  {
    if row == 3 then false
    else if RowHasEmpty(g, row, 0) then true
    else HasEmptyFrom(g, row + 1)
  }

  /** Whether the game is over, and the winner's mark, or the empty mark when
      there is no winner. The first winning line in scan order decides the
      winner; with no winning line the game is over exactly when the grid is
      full (a draw). */
  function IsGameOver(g: Grid): (r: (bool, char))
    ensures forall k :: FirstWinningLine(g, k) ==> r == (true, Mark(g, ScanOrder[k]))
    ensures NoWinningLine(g) ==> r == (IsFull(g), Empty)
  {
    match ScanRowsAndColumns(g, 0)
    case Some(w) => (true, w)
    case None =>
      if Get(g, 0, 0) != Empty && Get(g, 0, 0) == Get(g, 1, 1) && Get(g, 1, 1) == Get(g, 2, 2) then
        assert Wins(g, ScanOrder[6]);
        (true, Get(g, 0, 0))
      else if Get(g, 0, 2) != Empty && Get(g, 0, 2) == Get(g, 1, 1) && Get(g, 1, 1) == Get(g, 2, 0) then
        assert !Wins(g, ScanOrder[6]) && Wins(g, ScanOrder[7]);
        (true, Get(g, 0, 2))
      else
        assert !Wins(g, ScanOrder[6]) && !Wins(g, ScanOrder[7]);
        (!HasEmptyFrom(g, 0), Empty)
  }

  /** Some line wins exactly when there is a first winning line in scan order. */
  lemma FirstWinningLineExists(g: Grid)
    ensures !NoWinningLine(g) <==> exists k :: FirstWinningLine(g, k)
  {
    if !NoWinningLine(g) {
      var l: Line :| Wins(g, l);
      var n := Position(l);
      var k := 0;
      while !Wins(g, ScanOrder[k])
        invariant 0 <= k <= n && Wins(g, ScanOrder[n])
        invariant forall j :: 0 <= j < k ==> !Wins(g, ScanOrder[j])
        decreases n - k
      {
        k := k + 1;
      }
      assert FirstWinningLine(g, k);
    }
  }

  /** The result of the check, as the caller reads it. */
  datatype Outcome = InProgress | Draw | Win(mark: char)

  /** The reading of the check's result in the play loop: over with a
      non-empty winner is a win, over with the empty mark is a draw. */
  function Classify(g: Grid): (o: Outcome)
    ensures o.Win? <==> !NoWinningLine(g)
    ensures o.Win? ==> o.mark != Empty && exists k :: FirstWinningLine(g, k) && o.mark == Mark(g, ScanOrder[k])
    ensures o == Draw <==> NoWinningLine(g) && IsFull(g)
  {
    FirstWinningLineExists(g);
    var (over, winner) := IsGameOver(g);
    if !over then InProgress
    else if winner == Empty then Draw
    else Win(winner)
  }

  /** The game is won by `m` exactly when `m` is the mark of the first winning
      line in scan order. */
  lemma ClassifyWin(g: Grid, m: char)
    ensures Classify(g) == Win(m) <==> exists k :: FirstWinningLine(g, k) && Mark(g, ScanOrder[k]) == m
  {
    FirstWinningLineExists(g);
  }

  /** The game is drawn exactly when no line wins and the grid is full. */
  lemma ClassifyDraw(g: Grid)
    ensures Classify(g) == Draw <==> NoWinningLine(g) && IsFull(g)
  {
    FirstWinningLineExists(g);
  }

  /** The game goes on exactly when no line wins and some cell is empty. */
  lemma ClassifyInProgress(g: Grid)
    ensures Classify(g) == InProgress <==> NoWinningLine(g) && !IsFull(g)
  {
    FirstWinningLineExists(g);
  }
}
