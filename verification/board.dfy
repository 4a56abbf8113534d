/** The 3x3 playing grid of the game: its representation, its initialisation,
    and the placement of a mark. */
module Board {

  /** The character that marks an empty cell. */
  const Empty: char := '-'

  /** A row or column number that lies on the grid. */
  type Coord = i: int | 0 <= i <= 2

  /** The grid, stored row-major: cell (row, col) lives at index 3 * row + col. */
  type Grid = s: seq<char> | |s| == 9 witness "---------"

  predicate InRange(row: int, col: int) {
    0 <= row <= 2 && 0 <= col <= 2
  }

  function Index(row: int, col: int): (k: nat)
    requires InRange(row, col)
    ensures k < 9
  {
    3 * row + col
  }

  function Get(g: Grid, row: int, col: int): char
    requires InRange(row, col)
  {
    g[Index(row, col)]
  }

  /** Every cell of the grid is empty. */
  ghost predicate IsEmptyBoard(g: Grid) {
    forall row, col :: InRange(row, col) ==> Get(g, row, col) == Empty
  }

  /** Grids `g` and `h` agree on every cell except possibly (row, col). */
  ghost predicate SameExcept(g: Grid, h: Grid, row: int, col: int) {
    forall i, j :: InRange(i, j) && (i, j) != (row, col) ==> Get(h, i, j) == Get(g, i, j)
  }

  /** Builds the grid of a new board. A freshly allocated `char[3, 3]` holds
      '\0' in every cell; the nested loops then write the empty mark into each
      cell in row-major order. */
  method InitializeGrid() returns (g: Grid)
    ensures IsEmptyBoard(g)
  {
    var cells: seq<char> := seq(9, _ => '\0');
    var i := 0;
    while i < 3
      invariant 0 <= i <= 3
      invariant |cells| == 9
      invariant forall k :: 0 <= k < 3 * i ==> cells[k] == Empty
    {
      var j := 0;
      while j < 3
        invariant 0 <= j <= 3
        invariant |cells| == 9
        invariant forall k :: 0 <= k < 3 * i + j ==> cells[k] == Empty
      {
        cells := cells[Index(i, j) := Empty];
        j := j + 1;
      }
      i := i + 1;
    }
    g := cells;
  }

  /** Places `symbol` at (row, col). The move is refused, and the grid left as
      it was, when a coordinate is off the grid or the cell is occupied. The
      symbol itself is not checked. */
  function PlaceSymbol(g: Grid, row: int, col: int, symbol: char): (r: (bool, Grid))
    ensures r.0 <==> InRange(row, col) && Get(g, row, col) == Empty
    ensures !r.0 ==> r.1 == g
    ensures r.0 ==> Get(r.1, row, col) == symbol && SameExcept(g, r.1, row, col)
  {
    if row < 0 || row > 2 || col < 0 || col > 2 || Get(g, row, col) != Empty then
      (false, g)
    else
      (true, g[Index(row, col) := symbol])
  }

  /** A placement request: row, column and the symbol to place. */
  type Move = (int, int, char)

  /** Some move before position k of `moves` targets the same cell as move k. */
  ghost predicate TargetedBefore(moves: seq<Move>, k: int)
    requires 0 <= k < |moves|
  {
    exists j :: 0 <= j < k && moves[j].0 == moves[k].0 && moves[j].1 == moves[k].1
  }

  /** Performs each move of `moves` in turn, each with its own symbol,
      recording whether each placement was accepted. */
  function PlaceAll(g: Grid, moves: seq<Move>): (r: (seq<bool>, Grid))
    ensures |r.0| == |moves|
    decreases |moves|
  {
    if |moves| == 0 then ([], g)
    else
      var (ok, g1) := PlaceSymbol(g, moves[0].0, moves[0].1, moves[0].2);
      var (rest, g2) := PlaceAll(g1, moves[1..]);
      ([ok] + rest, g2)
  }

  /** Placing a non-empty symbol at a cell that targets the same cell as
      (row, col) leaves that cell occupied; at any other cell it leaves
      (row, col) as it was. */
  lemma PlaceSymbolThenCell(g: Grid, m: Move, row: int, col: int)
    requires m.2 != Empty && InRange(row, col)
    ensures var g1 := PlaceSymbol(g, m.0, m.1, m.2).1;
      if m.0 == row && m.1 == col then Get(g1, row, col) != Empty
      else Get(g1, row, col) == Get(g, row, col)
  {
  }

  /** With non-empty symbols, for instance the two players' marks in any
      interleaving, a placement in a sequence of placements is accepted
      exactly when it is on the grid, its cell was empty at the start, and no
      earlier placement of the sequence targeted the same cell. */
  lemma {:induction false} PlaceAllAccepts(g: Grid, moves: seq<Move>)
    requires forall k :: 0 <= k < |moves| ==> moves[k].2 != Empty
    ensures forall k :: 0 <= k < |moves| ==>
      (PlaceAll(g, moves).0[k] <==>
        InRange(moves[k].0, moves[k].1) && Get(g, moves[k].0, moves[k].1) == Empty && !TargetedBefore(moves, k))
    decreases |moves|
  {
    if |moves| > 0 {
      var (ok, g1) := PlaceSymbol(g, moves[0].0, moves[0].1, moves[0].2);
      var tail := moves[1..];
      PlaceAllAccepts(g1, tail);
      assert PlaceAll(g, moves).0 == [ok] + PlaceAll(g1, tail).0;
      forall k | 1 <= k < |moves|
        ensures PlaceAll(g, moves).0[k] <==>
          InRange(moves[k].0, moves[k].1) && Get(g, moves[k].0, moves[k].1) == Empty && !TargetedBefore(moves, k)
      {
        assert moves[k] == tail[k - 1];
        var same := moves[0].0 == moves[k].0 && moves[0].1 == moves[k].1;
        assert TargetedBefore(moves, k) <==> same || TargetedBefore(tail, k - 1) by {
          if TargetedBefore(tail, k - 1) {
            var j :| 0 <= j < k - 1 && tail[j].0 == tail[k - 1].0 && tail[j].1 == tail[k - 1].1;
            assert moves[j + 1] == tail[j];
          }
          if TargetedBefore(moves, k) && !same {
            var j :| 0 <= j < k && moves[j].0 == moves[k].0 && moves[j].1 == moves[k].1;
            assert j > 0 && tail[j - 1] == moves[j];
          }
        }
        if InRange(moves[k].0, moves[k].1) {
          PlaceSymbolThenCell(g, moves[0], moves[k].0, moves[k].1);
        }
      }
    }
  }

  /** On a fresh board every cell accepts exactly one placement of a non-empty
      symbol, whichever player places it: in any sequence of on-grid
      placements, a placement succeeds exactly when it is the first to target
      its cell. */
  lemma FreshBoardOncePerCell(g: Grid, moves: seq<Move>)
    requires IsEmptyBoard(g)
    requires forall k :: 0 <= k < |moves| ==> moves[k].2 != Empty
    requires forall k :: 0 <= k < |moves| ==> InRange(moves[k].0, moves[k].1)
    ensures forall k :: 0 <= k < |moves| ==> (PlaceAll(g, moves).0[k] <==> !TargetedBefore(moves, k))
  {
    PlaceAllAccepts(g, moves);
  }

  /** The symbol is not validated: placing the empty mark on an empty cell is
      accepted, yet leaves the grid exactly as it was. */
  lemma PlaceEmptyMarkAcceptedButInvisible(g: Grid, row: int, col: int)
    requires InRange(row, col) && Get(g, row, col) == Empty
    ensures PlaceSymbol(g, row, col, Empty) == (true, g)
  {
    assert g[Index(row, col) := Empty] == g;
  }
}
