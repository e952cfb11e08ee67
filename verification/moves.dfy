/**
 Player transforms of the falling piece (frontend/index.js:110-152): each
 proposes a new position or shape and keeps the old piece when the proposal
 collides.
 */
module Moves {
  import opened Grid
  import opened Pieces
  import opened Collision

  /**
   One column to the left, or no change when that collides
   (frontend/index.js:140-145).
   */
  function MoveLeft(p: Piece, b: Board): (q: Piece)
    ensures q.shape == p.shape && q.color == p.color && q.y == p.y
    ensures q.x == p.x - 1 || q.x == p.x
    ensures q.x == p.x - 1 <==> !Collides(p.(x := p.x - 1), b)
    ensures !Collides(p, b) ==> !Collides(q, b)
  {
    var moved := p.(x := p.x - 1);
    if Collides(moved, b) then p else moved
  }

  /**
   One column to the right, or no change when that collides
   (frontend/index.js:147-152).
   */
  function MoveRight(p: Piece, b: Board): (q: Piece)
    ensures q.shape == p.shape && q.color == p.color && q.y == p.y
    ensures q.x == p.x + 1 || q.x == p.x
    ensures q.x == p.x + 1 <==> !Collides(p.(x := p.x + 1), b)
    ensures !Collides(p, b) ==> !Collides(q, b)
  {
    var moved := p.(x := p.x + 1);
    if Collides(moved, b) then p else moved
  }

  /** A successful step left is undone by a step right. */
  lemma LeftThenRight(p: Piece, b: Board)
    requires !Collides(p, b)
    requires MoveLeft(p, b) != p
    ensures MoveRight(MoveLeft(p, b), b) == p
  {
  }

  /** A successful step right is undone by a step left. */
  lemma RightThenLeft(p: Piece, b: Board)
    requires !Collides(p, b)
    requires MoveRight(p, b) != p
    ensures MoveLeft(MoveRight(p, b), b) == p
  {
  }

  /** A piece touching the left edge does not move left. */
  lemma LeftAtWall(p: Piece, b: Board, row: int)
    requires Occupies(p, row, 0)
    ensures MoveLeft(p, b) == p
  {
    assert Occupies(p.(x := p.x - 1), row, -1);
  }

  /** A piece touching the right edge of a ROWS x COLS board does not move right. */
  lemma RightAtWall(p: Piece, b: Board, row: int)
    requires WellFormed(b)
    requires Occupies(p, row, COLS - 1)
    ensures MoveRight(p, b) == p
  {
    assert Occupies(p.(x := p.x + 1), row, COLS);
  }

  /**
   Clockwise rotation in place (frontend/index.js:110-122): the turned shape
   at the same anchor and colour if that does not collide, else the piece
   unchanged. Either way the number of occupied cells is kept.
   */
  function Rotate(p: Piece, b: Board): (q: Piece)
    requires ShapeOk(p.shape)
    ensures q.x == p.x && q.y == p.y && q.color == p.color
    ensures !Collides(p.(shape := RotateShape(p.shape)), b) ==> q.shape == RotateShape(p.shape)
    ensures Collides(p.(shape := RotateShape(p.shape)), b) ==> q == p
    ensures ShapeOk(q.shape)
    ensures |ShapeCells(q.shape)| == |ShapeCells(p.shape)|
    ensures !Collides(p, b) ==> !Collides(q, b)
  {
    RotateKeepsCellCount(p.shape);
    var turned := p.(shape := RotateShape(p.shape));
    if Collides(turned, b) then p else turned
  }

  /**
   When none of the four orientations collides, four rotations give back
   the original piece.
   */
  lemma RotateFourTimes(p: Piece, b: Board)
    requires ShapeOk(p.shape)
    requires !Collides(p, b)
    requires !Collides(p.(shape := RotateShape(p.shape)), b)
    requires !Collides(p.(shape := RotateShape(RotateShape(p.shape))), b)
    requires !Collides(p.(shape := RotateShape(RotateShape(RotateShape(p.shape)))), b)
    ensures Rotate(Rotate(Rotate(Rotate(p, b), b), b), b) == p
  {
    var s := p.shape;
    var q1 := Rotate(p, b);
    assert q1 == p.(shape := RotateShape(s));
    var q2 := Rotate(q1, b);
    assert q2 == p.(shape := RotateShape(RotateShape(s)));
    var q3 := Rotate(q2, b);
    assert q3 == p.(shape := RotateShape(RotateShape(RotateShape(s))));
    FourTurns(s);
    var q4 := Rotate(q3, b);
    assert q4.shape == s;
  }
}
