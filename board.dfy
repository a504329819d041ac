/** The 3x3 board: cells, winner detection, fullness and the list of empty cells.
    A board is a row-major sequence of nine cells; cell (r, c) is at index 3 * r + c. */
module BoardModel {

  /** ' ' (empty), 'X' (the human player) or 'O' (the computer). */
  datatype Cell = Empty | X | O

  const ROWS := 3
  const COLS := 3
  const WIDTH := 300
  const HEIGHT := 450
  /** Side of one square in pixels: WIDTH // COLS. */
  const SQSIZE := WIDTH / COLS

  type Board = b: seq<Cell> | |b| == ROWS * COLS
    witness [Empty, Empty, Empty, Empty, Empty, Empty, Empty, Empty, Empty]

  const EmptyBoard: Board := [Empty, Empty, Empty, Empty, Empty, Empty, Empty, Empty, Empty]

  /** Every cell is ' '. */
  predicate Cleared(b: Board) {
    forall i :: 0 <= i < |b| ==> b[i] == Empty
  }

  /** board[r][c] */
  function At(b: Board, r: int, c: int): Cell
    requires 0 <= r < ROWS && 0 <= c < COLS
  {
    b[COLS * r + c]
  }

  // ---------------------------------------------------------------------------
  // Reference definition of "p has three in a row": the eight lines of the grid

  /** Cells i, j and k all hold p. */
  predicate Line(b: Board, p: Cell, i: nat, j: nat, k: nat)
    requires i < |b| && j < |b| && k < |b|
  {
    b[i] == p && b[j] == p && b[k] == p
  }

  /** Some row, some column, the main diagonal or the anti-diagonal holds only p. */
  predicate Wins(b: Board, p: Cell) {
    Line(b, p, 0, 1, 2) || Line(b, p, 3, 4, 5) || Line(b, p, 6, 7, 8) ||  // rows
    Line(b, p, 0, 3, 6) || Line(b, p, 1, 4, 7) || Line(b, p, 2, 5, 8) ||  // columns
    Line(b, p, 0, 4, 8) ||                                              // main diagonal
    Line(b, p, 2, 4, 6)                                                 // anti-diagonal
  }

  // ---------------------------------------------------------------------------
  // check_winner, as the source computes it: rows, then columns, then the diagonals

  /** all(cell == p for cell in cells), scanning left to right. */
  predicate AllAre(cells: seq<Cell>, p: Cell) {
    forall k :: 0 <= k < |cells| ==> cells[k] == p
  }

  /** board[r], the row the `for row in board` loop visits. */
  function RowCells(b: Board, r: nat): seq<Cell>
    requires r < ROWS
  {
    b[COLS * r .. COLS * r + COLS]
  }

  /** board[row][c] for row in range(ROWS) */
  function ColumnCells(b: Board, c: nat): seq<Cell>
    requires c < COLS
  {
    [At(b, 0, c), At(b, 1, c), At(b, 2, c)]
  }

  /** board[i][i] for i in range(ROWS) */
  function MainDiagonalCells(b: Board): seq<Cell> {
    [At(b, 0, 0), At(b, 1, 1), At(b, 2, 2)]
  }

  /** board[i][COLS - i - 1] for i in range(ROWS) */
  function AntiDiagonalCells(b: Board): seq<Cell> {
    [At(b, 0, COLS - 1), At(b, 1, COLS - 2), At(b, 2, COLS - 3)]
  }

  /** The `for row in board` loop, from row r on. */
  predicate AnyRowFrom(b: Board, p: Cell, r: nat)
    requires r <= ROWS
    decreases ROWS - r
  {
    r < ROWS && (AllAre(RowCells(b, r), p) || AnyRowFrom(b, p, r + 1))
  }

  /** The `for col in range(COLS)` loop, from column c on. */
  predicate AnyColumnFrom(b: Board, p: Cell, c: nat)
    requires c <= COLS
    decreases COLS - c
  {
    c < COLS && (AllAre(ColumnCells(b, c), p) || AnyColumnFrom(b, p, c + 1))
  }

  lemma AllAreThree(cells: seq<Cell>, p: Cell)
    requires |cells| == 3
    ensures AllAre(cells, p) <==> cells[0] == p && cells[1] == p && cells[2] == p
  {
  }

  lemma {:induction false} AnyRowFromSound(b: Board, p: Cell, r: nat)
    requires r <= ROWS
    decreases ROWS - r
    ensures AnyRowFrom(b, p, r) <==>
      (r <= 0 && Line(b, p, 0, 1, 2)) || (r <= 1 && Line(b, p, 3, 4, 5)) || (r <= 2 && Line(b, p, 6, 7, 8))
  {
    if r < ROWS {
      AnyRowFromSound(b, p, r + 1);
      AllAreThree(RowCells(b, r), p);
    }
  }

  lemma {:induction false} AnyColumnFromSound(b: Board, p: Cell, c: nat)
    requires c <= COLS
    decreases COLS - c
    ensures AnyColumnFrom(b, p, c) <==>
      (c <= 0 && Line(b, p, 0, 3, 6)) || (c <= 1 && Line(b, p, 1, 4, 7)) || (c <= 2 && Line(b, p, 2, 5, 8))
  {
    if c < COLS {
      AnyColumnFromSound(b, p, c + 1);
      AllAreThree(ColumnCells(b, c), p);
    }
  }

  /** check_winner(p): true exactly when p holds a full row, column or diagonal. */
  predicate CheckWinner(b: Board, p: Cell)
    ensures CheckWinner(b, p) <==> Wins(b, p)
  {
    AnyRowFromSound(b, p, 0);
    AnyColumnFromSound(b, p, 0);
    AllAreThree(MainDiagonalCells(b), p);
    AllAreThree(AntiDiagonalCells(b), p);
    AnyRowFrom(b, p, 0) || AnyColumnFrom(b, p, 0) ||
    AllAre(MainDiagonalCells(b), p) || AllAre(AntiDiagonalCells(b), p)
  }

  /** Writing a mark other than q into a cell never gives q a line it did not have. */
  lemma PlaceKeepsOtherLoser(b: Board, i: nat, p: Cell, q: Cell)
    requires i < |b| && p != q
    ensures Wins(b[i := p], q) ==> Wins(b, q)
  {
  }

  // ---------------------------------------------------------------------------
  // is_full and available_moves

  /** is_full(): no cell is ' '. */
  predicate IsFull(b: Board) {
    forall i :: 0 <= i < |b| ==> b[i] != Empty
  }

  /** Number of empty cells; every move lowers it by one. */
  function EmptyCount(b: Board): nat {
    multiset(b)[Empty]
  }

  lemma PlaceLowersEmptyCount(b: Board, i: nat, p: Cell)
    requires i < |b| && b[i] == Empty && p != Empty
    ensures EmptyCount(b[i := p]) == EmptyCount(b) - 1
  {
    assert b[i] in multiset(b);
  }

  /** The empty cells at index k and beyond, in row-major order. */
  function EmptyCellsFrom(b: Board, k: nat): (moves: seq<nat>)
    requires k <= |b|
    decreases |b| - k
    ensures forall j :: 0 <= j < |moves| ==> k <= moves[j] < |b| && b[moves[j]] == Empty
    ensures forall i :: k <= i < |b| && b[i] == Empty ==> i in moves
    ensures forall j, j' :: 0 <= j < j' < |moves| ==> moves[j] < moves[j']
  {
    if k == |b| then []
    else
      var rest := EmptyCellsFrom(b, k + 1);
      if b[k] != Empty then rest
      else
        var moves := [k] + rest;
        assert forall j :: 0 < j < |moves| ==> moves[j] == rest[j - 1];
        moves
  }

  /** available_moves(): each empty cell exactly once, in row-major order
      (strictly increasing indices), and nothing else; empty exactly on a full board. */
  function AvailableMoves(b: Board): (moves: seq<nat>)
    ensures forall i :: i in moves <==> 0 <= i < |b| && b[i] == Empty
    ensures forall j, j' :: 0 <= j < j' < |moves| ==> moves[j] < moves[j']
    ensures moves == [] <==> IsFull(b)
  {
    var moves := EmptyCellsFrom(b, 0);
    assert moves == [] <==> IsFull(b) by {
      if moves != [] {
        assert b[moves[0]] == Empty;
      }
    }
    moves
  }
}
