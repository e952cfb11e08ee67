/**
 The playing field: a fixed ROWS x COLS matrix of settled cells.
 Row 0 is the top of the field; a row index grows downwards.
 */
module Grid {

  /** Field width and height (frontend/index.js:10-11). */
  const COLS: int := 10
  const ROWS: int := 20

  /** A settled cell holds nothing (the source's `0`) or a colour string. */
  datatype Cell = Empty | Filled(color: string)

  type Row = seq<Cell>
  type Board = seq<Row>

  /** The board has exactly ROWS rows of COLS cells each. */
  predicate WellFormed(b: Board) {
    |b| == ROWS && forall r :: 0 <= r < |b| ==> |b[r]| == COLS
  }

  /** Two boards with the same number of rows and the same length in every row. */
  predicate SameDims(a: Board, b: Board) {
    |a| == |b| && forall r :: 0 <= r < |a| ==> |a[r]| == |b[r]|
  }

  /** The position (row, col) exists on the board. */
  predicate OnBoard(b: Board, row: int, col: int) {
    0 <= row < |b| && 0 <= col < |b[row]|
  }

  /**
   A position a falling piece may not occupy. Reading a position that does
   not exist yields no cell at all, which is never the empty marker, so every
   position off the board is blocked, including those above row 0.
   */
  predicate Blocked(b: Board, row: int, col: int) {
    !OnBoard(b, row, col) || b[row][col] != Empty
  }

  /** A row whose every cell is settled. */
  predicate Full(row: Row) {
    forall c :: 0 <= c < |row| ==> row[c] != Empty
  }

  /** A fresh row of COLS empty cells; it is never full. */
  function EmptyRow(): (r: Row)
    ensures |r| == COLS
    ensures forall c :: 0 <= c < |r| ==> r[c] == Empty
    ensures !Full(r)
  {
    var r := seq(COLS, _ => Empty);
    assert r[0] == Empty;
    r
  }

  /** n fresh empty rows. */
  function EmptyRows(n: nat): (rs: seq<Row>)
    ensures |rs| == n
    ensures forall i :: 0 <= i < n ==> rs[i] == EmptyRow()
  {
    seq(n, _ => EmptyRow())
  }

  /** The all-empty field a new game starts on (frontend/index.js:35, 199). */
  function EmptyBoard(): (b: Board)
    ensures WellFormed(b)
    ensures forall r, c :: OnBoard(b, r, c) ==> b[r][c] == Empty
  {
    EmptyRows(ROWS)
  }
}
