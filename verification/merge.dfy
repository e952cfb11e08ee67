/**
 Locking a piece into the board (frontend/index.js:154-162): every occupied
 cell of the shape is written into the board in the piece's colour.
 */
module Merge {
  import opened Grid
  import opened Pieces

  /** The board with position (row, col) settled in the given colour. */
  function Paint(b: Board, row: int, col: int, color: string): (r: Board)
    requires OnBoard(b, row, col)
    ensures SameDims(r, b)
    ensures forall i, j :: OnBoard(b, i, j) ==>
      r[i][j] == (if i == row && j == col then Filled(color) else b[i][j])
  {
    b[row := b[row][col := Filled(color)]]
  }

  /** Writes shape row r from column c onwards, as the inner forEach does. */
  function MergeRow(b: Board, p: Piece, r: nat, c: nat): (res: Board)
    requires r < |p.shape| && c <= |p.shape[r]|
    requires FitsOn(p, b)
    decreases |p.shape[r]| - c
    ensures SameDims(res, b)
    ensures forall row, col :: OnBoard(b, row, col) ==>
      res[row][col] ==
        (if row == p.y + r && p.x + c <= col < p.x + |p.shape[r]| && p.shape[r][col - p.x]
         then Filled(p.color) else b[row][col])
  {
    if c == |p.shape[r]| then b
    else
      assert Occupies(p, p.y + r, p.x + c) ==> OnBoard(b, p.y + r, p.x + c);
      var b' := if p.shape[r][c] then Paint(b, p.y + r, p.x + c, p.color) else b;
      MergeRow(b', p, r, c + 1)
  }

  /** Writes the shape from row r downwards, as the outer forEach does. */
  function MergeRows(b: Board, p: Piece, r: nat): (res: Board)
    requires r <= |p.shape|
    requires FitsOn(p, b)
    decreases |p.shape| - r
    ensures SameDims(res, b)
    ensures forall row, col :: OnBoard(b, row, col) ==>
      res[row][col] ==
        (if r <= row - p.y && Occupies(p, row, col) then Filled(p.color) else b[row][col])
  {
    if r == |p.shape| then b
    else MergeRows(MergeRow(b, p, r, 0), p, r + 1)
  }

  /**
   The board after locking p: exactly the positions p covers now hold p's
   colour, whatever they held before; every other cell and the board's
   dimensions are unchanged. Only "every covered position is on the board" is
   needed, not the absence of a collision.
   */
  function MergePiece(b: Board, p: Piece): (res: Board)
    requires FitsOn(p, b)
    ensures SameDims(res, b)
    ensures WellFormed(b) ==> WellFormed(res)
    ensures forall row, col :: OnBoard(b, row, col) ==>
      res[row][col] == (if Occupies(p, row, col) then Filled(p.color) else b[row][col])
  {
    MergeRows(b, p, 0)
  }
}
