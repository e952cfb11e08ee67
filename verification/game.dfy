/**
 The game session: board, current piece, next piece and score, with the
 start-of-game reset (frontend/index.js:198-203), the gravity step
 (frontend/index.js:124-138) and the key commands (frontend/index.js:213-228).
 */
module Game {
  import opened Grid
  import opened Pieces
  import opened Collision
  import opened Moves
  import opened Merge
  import opened Lines

  datatype Session = Session(board: Board, current: Piece, next: Piece, score: int)

  /** What a gravity step did: the piece fell one row, locked, or locked on row 0 and ended the game. */
  datatype Outcome = Fell | Locked | ToppedOut

  datatype Tick = Tick(session: Session, outcome: Outcome)

  /** A key command; `Down` carries the shape index drawn if a new piece is needed. */
  datatype Command = Left | Right | Down(draw: nat) | Spin

  /**
   What the engine keeps true between steps: a ROWS x COLS board, both
   pieces rectangular and inside the field, and a score that is a
   non-negative multiple of 100.
   */
  ghost predicate Valid(s: Session) {
    && WellFormed(s.board)
    && ShapeOk(s.current.shape) && InField(s.current)
    && ShapeOk(s.next.shape) && InField(s.next)
    && s.score >= 0 && s.score % 100 == 0
  }

  /** The piece one row lower. */
  function Lowered(p: Piece): Piece {
    p.(y := p.y + 1)
  }

  /**
   A new game: empty board, score 0, two fresh pieces drawn with the
   supplied shape indices. Nothing of any earlier session survives.
   */
  function StartGame(first: nat, second: nat): (s: Session)
    requires first < |SHAPES| && second < |SHAPES|
    ensures Valid(s)
    ensures s.score == 0
    ensures forall r, c :: OnBoard(s.board, r, c) ==> s.board[r][c] == Empty
    ensures s.current == CreatePiece(first) && s.next == CreatePiece(second)
    ensures !Collides(s.current, s.board) && !Collides(s.next, s.board)
  {
    var s := Session(EmptyBoard(), CreatePiece(first), CreatePiece(second), 0);
    FreeOnEmptyBoard(s.current);
    FreeOnEmptyBoard(s.next);
    s
  }

  /**
   One gravity step. If the lowered piece does not collide only its row
   grows by one. Otherwise the piece is merged where it is and lines are
   cleared; if it locked on row 0 the game is over and the pieces stay,
   else the next piece becomes current (without any collision check) and a
   fresh next piece is drawn.
   */
  function MoveDown(s: Session, draw: nat): (t: Tick)
    requires draw < |SHAPES|
    requires |s.board| == ROWS
    requires Collides(Lowered(s.current), s.board) ==> FitsOn(s.current, s.board)
    ensures t.outcome == Fell <==> !Collides(Lowered(s.current), s.board)
    ensures t.outcome == Fell ==> t.session == s.(current := Lowered(s.current))
    ensures t.outcome != Fell ==>
      && t.session.board == ClearLines(MergePiece(s.board, s.current), s.score).0
      && t.session.score == ClearLines(MergePiece(s.board, s.current), s.score).1
    ensures t.outcome == ToppedOut <==> t.outcome != Fell && s.current.y == 0
    ensures t.outcome == ToppedOut ==> t.session.current == s.current && t.session.next == s.next
    ensures t.outcome == Locked ==> t.session.current == s.next && t.session.next == CreatePiece(draw)
    ensures |t.session.board| == ROWS
    ensures s.score <= t.session.score
    ensures t.session.score % 100 == s.score % 100
  {
    var lowered := Lowered(s.current);
    if !Collides(lowered, s.board) then
      Tick(s.(current := lowered), Fell)
    else
      var merged := MergePiece(s.board, s.current);
      var cleared := ClearLines(merged, s.score);
      HundredsKeepResidue(s.score, |Sweep(merged, |merged|).cleared|, cleared.1);
      var after := s.(board := cleared.0, score := cleared.1);
      if s.current.y == 0 then
        Tick(after, ToppedOut)
      else
        Tick(after.(current := s.next, next := CreatePiece(draw)), Locked)
  }

  /** Adding whole hundreds leaves the remainder modulo 100 alone. */
  lemma {:induction false} HundredsKeepResidue(score: int, k: nat, total: int)
    requires total == score + 100 * k
    ensures total % 100 == score % 100
  {
    if k > 0 {
      HundredsKeepResidue(score, k - 1, total - 100);
    }
  }

  /** The key handler: each command applied to the current piece and the board. */
  function Apply(s: Session, cmd: Command): (r: Session)
    requires Valid(s)
    requires cmd.Down? ==> cmd.draw < |SHAPES|
    ensures !cmd.Down? ==> r.board == s.board && r.next == s.next && r.score == s.score
    ensures cmd == Left ==> r.current == MoveLeft(s.current, s.board)
    ensures cmd == Right ==> r.current == MoveRight(s.current, s.board)
    ensures cmd == Spin ==> r.current == Rotate(s.current, s.board)
    ensures cmd.Down? ==> r == MoveDown(s, cmd.draw).session
  {
    FitsOnWellFormed(s.current, s.board);
    match cmd
    case Left => s.(current := MoveLeft(s.current, s.board))
    case Right => s.(current := MoveRight(s.current, s.board))
    case Spin => s.(current := Rotate(s.current, s.board))
    case Down(draw) => MoveDown(s, draw).session
  }

  /** A piece that was kept or replaced by one that does not collide stays in the field. */
  lemma KeptOrFree(p: Piece, q: Piece, b: Board)
    requires WellFormed(b) && InField(p)
    requires q == p || !Collides(q, b)
    ensures InField(q)
  {
    if q != p {
      FreeFits(q, b);
    }
  }

  /** The gravity step keeps the session invariant. */
  lemma MoveDownKeepsValid(s: Session, draw: nat)
    requires Valid(s) && draw < |SHAPES|
    ensures FitsOn(s.current, s.board)
    ensures Valid(MoveDown(s, draw).session)
  {
    FitsOnWellFormed(s.current, s.board);
    var t := MoveDown(s, draw);
    if t.outcome == Fell {
      FreeFits(Lowered(s.current), s.board);
    } else {
      assert WellFormed(MergePiece(s.board, s.current));
    }
  }

  /** Every key command keeps the session invariant. */
  lemma ApplyKeepsValid(s: Session, cmd: Command)
    requires Valid(s)
    requires cmd.Down? ==> cmd.draw < |SHAPES|
    ensures Valid(Apply(s, cmd))
  {
    match cmd
    case Left => KeptOrFree(s.current, MoveLeft(s.current, s.board), s.board);
    case Right => KeptOrFree(s.current, MoveRight(s.current, s.board), s.board);
    case Spin => KeptOrFree(s.current, Rotate(s.current, s.board), s.board);
    case Down(draw) => MoveDownKeepsValid(s, draw);
  }

  /** Every shape index a command carries is a catalogue index. */
  predicate DrawsOk(cmds: seq<Command>) {
    forall i :: 0 <= i < |cmds| ==> (cmds[i].Down? ==> cmds[i].draw < |SHAPES|)
  }

  /**
   A run of key commands from a valid session. The source's handler acts
   on every key while a current piece exists, including after game over.
   */
  function Play(s: Session, cmds: seq<Command>): (r: Session)
    requires Valid(s) && DrawsOk(cmds)
    decreases |cmds|
    ensures Valid(r)
    ensures s.score <= r.score
  {
    if cmds == [] then s
    else
      ApplyKeepsValid(s, cmds[0]);
      Play(Apply(s, cmds[0]), cmds[1..])
  }

  /** An O piece resting on the floor in the bottom-left corner. */
  function CornerPiece(): Piece {
    Piece(SHAPES[1], COLORS[1], 0, 18)
  }

  /** A ROWS x COLS board whose only settled cell is row 1, column 4. */
  ghost predicate OneSettled(b: Board) {
    && WellFormed(b)
    && forall row, col :: 0 <= row < ROWS && 0 <= col < COLS ==>
         b[row][col] == (if row == 1 && col == 4 then Filled("#FF0000") else Empty)
  }

  lemma CornerPieceFacts()
    ensures SHAPES[1] == [[true, true], [true, true]]
    ensures InField(CornerPiece())
    ensures CreatePiece(1) == Piece(SHAPES[1], COLORS[1], 4, 0)
    ensures Occupies(CreatePiece(1), 1, 4)
  {
    var p := CornerPiece();
    assert SHAPES[1] == [[true, true], [true, true]];
    assert |SHAPES[1][0]| == 2;
    assert InField(p) by {
      forall row, col | Occupies(p, row, col)
        ensures 0 <= row < ROWS && 0 <= col < COLS
      {
      }
    }
  }

  /** Locking the corner piece on that board fills no row and leaves row 1, column 4 settled. */
  lemma CornerLockClearsNothing(b: Board)
    requires OneSettled(b)
    ensures FitsOn(CornerPiece(), b)
    ensures Collides(Lowered(CornerPiece()), b)
    ensures FullRows(MergePiece(b, CornerPiece())) == {}
    ensures MergePiece(b, CornerPiece())[1][4] == Filled("#FF0000")
  {
    CornerPieceFacts();
    var p := CornerPiece();
    FitsOnWellFormed(p, b);
    assert Occupies(Lowered(p), 20, 0);
    var merged := MergePiece(b, p);
    assert FullRows(merged) == {} by {
      forall i | 0 <= i < |merged|
        ensures !Full(merged[i])
      {
        assert !Occupies(p, i, 9);
      }
    }
    assert !Occupies(p, 1, 4);
  }

  /**
   The promoted piece is not checked against the board: after a lock the new
   current piece may already overlap settled cells. Here an O piece locks in
   the bottom-left corner while the only settled cell sits where the next O
   piece appears.
   */
  lemma PromotedPieceMayOverlap(b: Board)
    requires OneSettled(b)
    ensures var s := Session(b, CornerPiece(), CreatePiece(1), 0);
      var t := MoveDown(s, 1);
      && Valid(s)
      && t.outcome == Locked
      && Collides(t.session.current, t.session.board)
  {
    CornerPieceFacts();
    CornerLockClearsNothing(b);
    var s := Session(b, CornerPiece(), CreatePiece(1), 0);
    var t := MoveDown(s, 1);
    assert t.session.board == MergePiece(b, CornerPiece());
    assert t.session.current == CreatePiece(1);
  }
}
