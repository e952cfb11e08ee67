/**
 The collision test (frontend/index.js:99-108): does a piece overlap a
 settled cell or leave the board?
 */
module Collision {
  import opened Grid
  import opened Pieces

  /** Scan of shape row r from column c onwards, as the inner loop does. */
  function HitInRow(p: Piece, b: Board, r: nat, c: nat): (hit: bool)
    requires r < |p.shape| && c <= |p.shape[r]|
    decreases |p.shape[r]| - c
    ensures hit <==> exists cc :: c <= cc < |p.shape[r]| && p.shape[r][cc] && Blocked(b, p.y + r, p.x + cc)
  {
    if c == |p.shape[r]| then false
    else (p.shape[r][c] && Blocked(b, p.y + r, p.x + c)) || HitInRow(p, b, r, c + 1)
  }

  /** Scan of the shape from row r downwards, as the outer loop does. */
  function HitFromRow(p: Piece, b: Board, r: nat): (hit: bool)
    requires r <= |p.shape|
    decreases |p.shape| - r
    ensures hit <==> exists rr, cc :: r <= rr < |p.shape| && 0 <= cc < |p.shape[rr]| && p.shape[rr][cc] && Blocked(b, p.y + rr, p.x + cc)
  {
    if r == |p.shape| then false
    else HitInRow(p, b, r, 0) || HitFromRow(p, b, r + 1)
  }

  /**
   The piece collides exactly when one of the positions it covers is blocked:
   off the board on any side (above row 0 included) or already settled.
   Neither argument is changed.
   */
  function Collides(p: Piece, b: Board): (hit: bool)
    ensures hit <==> exists row, col :: Occupies(p, row, col) && Blocked(b, row, col)
  {
    ScanMeetsBlocked(p, b);
    HitFromRow(p, b, 0)
  }

  /** The row-by-row scan finds a blocked covered position iff one exists. */
  lemma ScanMeetsBlocked(p: Piece, b: Board)
    ensures HitFromRow(p, b, 0) <==> exists row, col :: Occupies(p, row, col) && Blocked(b, row, col)
  {
    if HitFromRow(p, b, 0) {
      var rr, cc :| 0 <= rr < |p.shape| && 0 <= cc < |p.shape[rr]| && p.shape[rr][cc] && Blocked(b, p.y + rr, p.x + cc);
      assert Occupies(p, p.y + rr, p.x + cc);
    }
  }

  /**
   On a ROWS x COLS board: the piece collides iff some covered position has a
   column outside 0..COLS-1, a row outside 0..ROWS-1 (negative rows included),
   or holds a settled cell.
   */
  lemma CollidesOnField(p: Piece, b: Board)
    requires WellFormed(b)
    ensures Collides(p, b) <==>
      (exists row, col :: Occupies(p, row, col) &&
         (col < 0 || col >= COLS || row < 0 || row >= ROWS || b[row][col] != Empty))
  {
  }

  /** A covered position above the top row is a collision. */
  lemma AboveTopCollides(p: Piece, b: Board, row: int, col: int)
    requires Occupies(p, row, col) && row < 0
    ensures Collides(p, b)
  {
  }

  /** A piece that does not collide fits on the board, and on a ROWS x COLS board it lies in the field. */
  lemma FreeFits(p: Piece, b: Board)
    requires !Collides(p, b)
    ensures FitsOn(p, b)
    ensures WellFormed(b) ==> InField(p)
  {
  }

  /** A piece inside the field does not collide with the empty board. */
  lemma FreeOnEmptyBoard(p: Piece)
    requires InField(p)
    ensures !Collides(p, EmptyBoard())
  {
  }
}
