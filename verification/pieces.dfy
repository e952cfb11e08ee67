/**
 Pieces: the seven-shape catalogue, the piece factory and the clockwise
 rotation of a shape matrix.
 */
module Pieces {
  import opened Grid

  /** A shape is a matrix of occupied (true) and free (false) cells. */
  type Shape = seq<seq<bool>>

  /** A shape with its colour, anchored at column x and row y of the board. */
  datatype Piece = Piece(shape: Shape, color: string, x: int, y: int)

  /** The shape catalogue, in order I, O, T, L, J, Z, S (frontend/index.js:20-28). */
  const SHAPES: seq<Shape> := [
    [[true, true, true, true]],
    [[true, true], [true, true]],
    [[true, true, true], [false, true, false]],
    [[true, true, true], [true, false, false]],
    [[true, true, true], [false, false, true]],
    [[true, true, false], [false, true, true]],
    [[false, true, true], [true, true, false]]
  ]

  /** The colour paired with each shape (frontend/index.js:30-33). */
  const COLORS: seq<string> := [
    "#00FFFF", "#FFFF00", "#800080", "#0000FF",
    "#FF7F00", "#00FF00", "#FF0000"
  ]

  /** A non-empty rectangular matrix: at least one row, every row of the same non-zero width. */
  predicate ShapeOk(s: Shape) {
    |s| >= 1 && |s[0]| >= 1 && forall r :: 0 <= r < |s| ==> |s[r]| == |s[0]|
  }

  /** The piece covers board position (row, col). */
  predicate Occupies(p: Piece, row: int, col: int) {
    var r, c := row - p.y, col - p.x;
    0 <= r < |p.shape| && 0 <= c < |p.shape[r]| && p.shape[r][c]
  }

  /** Every covered position lies inside the ROWS x COLS field. */
  ghost predicate InField(p: Piece) {
    forall row, col :: Occupies(p, row, col) ==> 0 <= row < ROWS && 0 <= col < COLS
  }

  /** Every covered position exists on board b. */
  ghost predicate FitsOn(p: Piece, b: Board) {
    forall row, col :: Occupies(p, row, col) ==> OnBoard(b, row, col)
  }

  /** On a well-formed board "fits on the board" and "lies in the field" coincide. */
  lemma FitsOnWellFormed(p: Piece, b: Board)
    requires WellFormed(b)
    ensures FitsOn(p, b) <==> InField(p)
  {
  }

  /** Every catalogue entry is a rectangle at most 2 rows high and 2 to 4 columns wide. */
  lemma CatalogShapes()
    ensures |SHAPES| == |COLORS| == 7
    ensures forall i :: 0 <= i < |SHAPES| ==>
      ShapeOk(SHAPES[i]) && |SHAPES[i]| <= 2 && 2 <= |SHAPES[i][0]| <= 4
  {
  }

  /**
   The piece factory (frontend/index.js:41-49). The source draws the index
   uniformly at random; here it is supplied by the caller.
   The new piece sits on row 0, horizontally centred (the left margin is the
   right margin or one less), and lies wholly inside the field.
   */
  function CreatePiece(i: nat): (p: Piece)
    requires i < |SHAPES|
    ensures p.shape == SHAPES[i] && p.color == COLORS[i]
    ensures ShapeOk(p.shape)
    ensures p.y == 0
    ensures 0 <= p.x && p.x + |p.shape[0]| <= COLS
    ensures 0 <= (COLS - (p.x + |p.shape[0]|)) - p.x <= 1
    ensures InField(p)
  {
    CatalogShapes();
    var s := SHAPES[i];
    Piece(s, COLORS[i], (COLS - |s[0]|) / 2, 0)
  }

  /** The sequence q read back to front. */
  function Reverse<T>(q: seq<T>): (r: seq<T>)
    ensures |r| == |q|
    ensures forall j :: 0 <= j < |q| ==> r[j] == q[|q| - 1 - j]
  {
    seq(|q|, j requires 0 <= j < |q| => q[|q| - 1 - j])
  }

  /** Column i of a rectangular shape, read top to bottom. */
  function Column(s: Shape, i: nat): (col: seq<bool>)
    requires ShapeOk(s) && i < |s[0]|
    ensures |col| == |s|
    ensures forall r :: 0 <= r < |s| ==> col[r] == s[r][i]
  {
    seq(|s|, r requires 0 <= r < |s| => s[r][i])
  }

  /**
   Clockwise quarter turn (frontend/index.js:111-113): row i of the result is
   column i of the shape reversed. Height and width swap and the result is
   again a rectangle.
   */
  function RotateShape(s: Shape): (t: Shape)
    requires ShapeOk(s)
    ensures ShapeOk(t)
    ensures |t| == |s[0]| && |t[0]| == |s|
    ensures forall i, j :: 0 <= i < |t| && 0 <= j < |t[i]| ==> t[i][j] == s[|s| - 1 - j][i]
  {
    seq(|s[0]|, i requires 0 <= i < |s[0]| => Reverse(Column(s, i)))
  }

  /** Two rectangles of the same size with the same cells are equal. */
  lemma ShapeExt(a: Shape, b: Shape)
    requires ShapeOk(a) && ShapeOk(b)
    requires |a| == |b| && |a[0]| == |b[0]|
    requires forall i, j :: 0 <= i < |a| && 0 <= j < |a[0]| ==> a[i][j] == b[i][j]
    ensures a == b
  {
    forall i | 0 <= i < |a|
      ensures a[i] == b[i]
    {
      assert |a[i]| == |b[i]|;
      assert forall j :: 0 <= j < |a[i]| ==> a[i][j] == b[i][j];
    }
  }

  /** t is the clockwise quarter turn of s, cell by cell. */
  ghost predicate TurnOf(t: Shape, s: Shape) {
    && ShapeOk(s) && ShapeOk(t)
    && |t| == |s[0]| && |t[0]| == |s|
    && forall i, j :: 0 <= i < |t| && 0 <= j < |t[0]| ==> t[i][j] == s[|s| - 1 - j][i]
  }

  /** Two quarter turns reflect every cell through the centre. */
  lemma HalfTurnOf(s: Shape, t: Shape, h: Shape)
    requires TurnOf(t, s) && TurnOf(h, t)
    ensures |h| == |s| && |h[0]| == |s[0]|
    ensures forall i, j :: 0 <= i < |s| && 0 <= j < |s[0]| ==>
      h[i][j] == s[|s| - 1 - i][|s[0]| - 1 - j]
  {
    forall i, j | 0 <= i < |s| && 0 <= j < |s[0]|
      ensures h[i][j] == s[|s| - 1 - i][|s[0]| - 1 - j]
    {
      var a := |t| - 1 - j;
      assert h[i][j] == t[a][i];
    }
  }

  /** Four successive quarter turns, cell by cell, give back the original. */
  lemma FourTurnsOf(s: Shape, t1: Shape, t2: Shape, t3: Shape, t4: Shape)
    requires TurnOf(t1, s) && TurnOf(t2, t1) && TurnOf(t3, t2) && TurnOf(t4, t3)
    ensures t4 == s
  {
    HalfTurnOf(s, t1, t2);
    HalfTurnOf(t2, t3, t4);
    forall i, j | 0 <= i < |s| && 0 <= j < |s[0]|
      ensures t4[i][j] == s[i][j]
    {
      assert t4[i][j] == t2[|t2| - 1 - i][|t2[0]| - 1 - j];
    }
    ShapeExt(t4, s);
  }

  /** RotateShape computes the quarter turn. */
  lemma RotateShapeTurns(s: Shape)
    requires ShapeOk(s)
    ensures TurnOf(RotateShape(s), s)
  {
  }

  /** Four quarter turns give back the original shape. */
  lemma FourTurns(s: Shape)
    requires ShapeOk(s)
    ensures RotateShape(RotateShape(RotateShape(RotateShape(s)))) == s
  {
    var t1 := RotateShape(s);
    RotateShapeTurns(s);
    var t2 := RotateShape(t1);
    RotateShapeTurns(t1);
    var t3 := RotateShape(t2);
    RotateShapeTurns(t2);
    var t4 := RotateShape(t3);
    RotateShapeTurns(t3);
    FourTurnsOf(s, t1, t2, t3, t4);
  }

  /** The occupied cells of a shape, as (row, column) pairs. */
  function ShapeCells(s: Shape): set<(int, int)> {
    set r, c | 0 <= r < |s| && 0 <= c < |s[r]| && s[r][c] :: (r, c)
  }

  /** Where a quarter turn of a shape with n rows sends cell q. */
  function Turn(q: (int, int), n: int): (int, int) {
    (q.1, n - 1 - q.0)
  }

  /** Turning is injective, so it keeps the size of any set of cells. */
  lemma {:induction false} TurnKeepsSize(cells: set<(int, int)>, n: int)
    ensures |set q | q in cells :: Turn(q, n)| == |cells|
    decreases |cells|
  {
    if cells != {} {
      var x :| x in cells;
      var rest := cells - {x};
      TurnKeepsSize(rest, n);
      var image := set q | q in cells :: Turn(q, n);
      var restImage := set q | q in rest :: Turn(q, n);
      assert image == restImage + {Turn(x, n)};
      assert Turn(x, n) !in restImage;
    }
  }

  /** The cells of a turned shape are exactly the turned cells of the shape. */
  lemma RotatedCells(s: Shape)
    requires ShapeOk(s)
    ensures ShapeCells(RotateShape(s)) == set q | q in ShapeCells(s) :: Turn(q, |s|)
  {
    var t := RotateShape(s);
    var image := set q | q in ShapeCells(s) :: Turn(q, |s|);
    forall q | q in ShapeCells(t)
      ensures q in image
    {
      var old_q := (|s| - 1 - q.1, q.0);
      assert old_q in ShapeCells(s);
      assert Turn(old_q, |s|) == q;
    }
    forall q | q in image
      ensures q in ShapeCells(t)
    {
      var p :| p in ShapeCells(s) && Turn(p, |s|) == q;
      assert t[q.0][q.1] == s[p.0][p.1];
    }
  }

  /** A quarter turn keeps the number of occupied cells. */
  lemma RotateKeepsCellCount(s: Shape)
    requires ShapeOk(s)
    ensures |ShapeCells(RotateShape(s))| == |ShapeCells(s)|
  {
    RotatedCells(s);
    TurnKeepsSize(ShapeCells(s), |s|);
  }
}
