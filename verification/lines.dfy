/**
 Line clearing and scoring (frontend/index.js:164-177).

 The source scans rows from the bottom (index ROWS-1) to the top. When the
 row at index y is full it is spliced out and an empty row is put on top;
 then y is decremented in any case. The row that has just slid down into
 index y is therefore never examined: of two adjacent full rows only the
 lower one goes in one pass.

 `Sweep` reads that pass off the ORIGINAL rows, bottom-up, and `Keep` is the
 plain "rows not removed, in order" filter; `ClearLinesInPlace` is the
 splice-and-unshift loop itself, proved to agree with `ClearLines`.
 */
module Lines {
  import opened Grid

  /** Result of a pass: the rows that stay, in order, and the original indices removed. */
  datatype Pass = Pass(kept: seq<Row>, cleared: set<int>)

  /**
   The pass over rows[..n], scanning from row n-1 upwards. A full row is
   removed and the row above it is kept without being looked at.
   */
  function Sweep(rows: seq<Row>, n: nat): (p: Pass)
    requires n <= |rows|
    decreases n
    ensures |p.kept| + |p.cleared| == n
    ensures forall i :: i in p.cleared ==> 0 <= i < n && Full(rows[i])
  {
    if n == 0 then Pass([], {})
    else if Full(rows[n - 1]) then
      if n == 1 then Pass([], {0})
      else
        var q := Sweep(rows, n - 2);
        Pass(q.kept + [rows[n - 2]], q.cleared + {n - 1})
    else
      var q := Sweep(rows, n - 1);
      Pass(q.kept + [rows[n - 1]], q.cleared)
  }

  /** The rows among rows[..n] whose index is not in d, in their original order. */
  function KeepTo(rows: seq<Row>, d: set<int>, n: nat): (k: seq<Row>)
    requires n <= |rows|
    ensures |k| <= n
    ensures forall j :: 0 <= j < |k| ==> k[j] in rows
  {
    if n == 0 then []
    else KeepTo(rows, d, n - 1) + (if n - 1 in d then [] else [rows[n - 1]])
  }

  /** The rows whose index is not in d, in their original order. */
  function Keep(rows: seq<Row>, d: set<int>): seq<Row> {
    KeepTo(rows, d, |rows|)
  }

  /** The indices of the full rows. */
  function FullRows(rows: seq<Row>): set<int> {
    set i | 0 <= i < |rows| && Full(rows[i])
  }

  /** Only the indices below n matter to KeepTo(_, _, n). */
  lemma {:induction false} KeepToLocal(rows: seq<Row>, d: set<int>, e: set<int>, n: nat)
    requires n <= |rows|
    requires forall i :: 0 <= i < n ==> (i in d <==> i in e)
    ensures KeepTo(rows, d, n) == KeepTo(rows, e, n)
  {
    if n > 0 {
      KeepToLocal(rows, d, e, n - 1);
    }
  }

  /** Removing nothing keeps every row. */
  lemma {:induction false} KeepNothingRemoved(rows: seq<Row>, n: nat)
    requires n <= |rows|
    ensures KeepTo(rows, {}, n) == rows[..n]
  {
    if n > 0 {
      KeepNothingRemoved(rows, n - 1);
      assert rows[..n] == rows[..n - 1] + [rows[n - 1]];
    }
  }

  /** The rows a pass keeps are exactly the rows it does not remove, in order. */
  lemma {:induction false} SweepKeepsOrder(rows: seq<Row>, n: nat)
    requires n <= |rows|
    ensures Sweep(rows, n).kept == KeepTo(rows, Sweep(rows, n).cleared, n)
  {
    if n > 0 {
      var p := Sweep(rows, n);
      if Full(rows[n - 1]) {
        if n >= 2 {
          var q := Sweep(rows, n - 2);
          SweepKeepsOrder(rows, n - 2);
          KeepToLocal(rows, p.cleared, q.cleared, n - 2);
          assert n - 2 !in p.cleared;
        }
      } else {
        SweepKeepsOrder(rows, n - 1);
      }
    }
  }

  /** A pass never removes two adjacent rows: the row above a removed one is skipped. */
  lemma {:induction false} NoAdjacentClears(rows: seq<Row>, n: nat)
    requires n <= |rows|
    ensures forall i :: i in Sweep(rows, n).cleared ==> i - 1 !in Sweep(rows, n).cleared
  {
    if n > 0 {
      if Full(rows[n - 1]) {
        if n >= 2 {
          NoAdjacentClears(rows, n - 2);
        }
      } else {
        NoAdjacentClears(rows, n - 1);
      }
    }
  }

  /** The lowest full row is always removed. */
  lemma {:induction false} LowestFullRowCleared(rows: seq<Row>, n: nat, i: int)
    requires n <= |rows|
    requires 0 <= i < n && Full(rows[i])
    requires forall j :: i < j < n ==> !Full(rows[j])
    ensures i in Sweep(rows, n).cleared
  {
    if i < n - 1 {
      LowestFullRowCleared(rows, n - 1, i);
    }
  }

  /**
   A full row is removed unless the row just below it was removed: a full
   bottom row, or a full row whose lower neighbour stays, always goes.
   */
  lemma {:induction false} FullRowBelowKeptIsCleared(rows: seq<Row>, n: nat, i: int)
    requires n <= |rows|
    requires 0 <= i < n && Full(rows[i])
    requires i == n - 1 || i + 1 !in Sweep(rows, n).cleared
    ensures i in Sweep(rows, n).cleared
  {
    if i < n - 1 {
      if Full(rows[n - 1]) {
        assert n - 1 in Sweep(rows, n).cleared;
        FullRowBelowKeptIsCleared(rows, n - 2, i);
      } else {
        FullRowBelowKeptIsCleared(rows, n - 1, i);
      }
    }
  }

  /** When some row is full the pass removes at least one row. */
  lemma {:induction false} SomeRowCleared(rows: seq<Row>, n: nat, i: int)
    requires n <= |rows|
    requires 0 <= i < n && Full(rows[i])
    ensures Sweep(rows, n).cleared != {}
  {
    if Full(rows[n - 1]) {
      assert n - 1 in Sweep(rows, n).cleared;
    } else {
      SomeRowCleared(rows, n - 1, i);
    }
  }

  /** A subset is no larger than its superset. */
  lemma SubsetSize(a: set<int>, b: set<int>)
    requires a <= b
    ensures |a| <= |b|
  {
    assert b == a + (b - a);
    assert a * (b - a) == {};
  }

  /** What a whole-board pass removes and keeps. */
  lemma {:induction false} PassFacts(b: Board)
    ensures var c := Sweep(b, |b|).cleared;
      && Sweep(b, |b|).kept == Keep(b, c)
      && c <= FullRows(b)
      && |c| <= |FullRows(b)|
      && (c == {} <==> FullRows(b) == {})
      && (FullRows(b) == {} ==> EmptyRows(|c|) + Keep(b, c) == b)
  {
    var c := Sweep(b, |b|).cleared;
    SweepKeepsOrder(b, |b|);
    assert c <= FullRows(b);
    SubsetSize(c, FullRows(b));
    if FullRows(b) != {} {
      var i :| i in FullRows(b);
      SomeRowCleared(b, |b|, i);
    }
    if FullRows(b) == {} {
      assert c == {};
      KeepNothingRemoved(b, |b|);
      assert b[..|b|] == b;
      assert EmptyRows(|c|) == [];
    }
  }

  /** Empty rows on top of rows taken from a ROWS x COLS board give a ROWS x COLS board. */
  lemma StackWellFormed(b: Board, top: seq<Row>, rest: seq<Row>)
    requires forall i :: 0 <= i < |top| ==> top[i] == EmptyRow()
    requires forall j :: 0 <= j < |rest| ==> rest[j] in b
    requires |top| + |rest| == ROWS
    ensures WellFormed(b) ==> WellFormed(top + rest)
  {
    var s := top + rest;
    if WellFormed(b) {
      forall i | 0 <= i < |s|
        ensures |s[i]| == COLS
      {
        if i >= |top| {
          assert s[i] == rest[i - |top|];
        }
      }
    }
  }

  /**
   Clearing a board of ROWS rows: the board keeps ROWS rows, the removed
   rows were all full, the surviving rows keep their order beneath the new
   empty rows, and the score grows by 100 per removed row. At most the full
   rows go, at least one goes when any row is full, and a board with no full
   row is left as it was.
   */
  function ClearLines(b: Board, score: int): (r: (Board, int))
    requires |b| == ROWS
    ensures |r.0| == ROWS
    ensures WellFormed(b) ==> WellFormed(r.0)
    ensures forall i :: i in Sweep(b, |b|).cleared ==> 0 <= i < |b| && Full(b[i])
    ensures r.0 == EmptyRows(|Sweep(b, |b|).cleared|) + Keep(b, Sweep(b, |b|).cleared)
    ensures r.1 == score + 100 * |Sweep(b, |b|).cleared|
    ensures |Sweep(b, |b|).cleared| <= |FullRows(b)|
    ensures Sweep(b, |b|).cleared == {} <==> FullRows(b) == {}
    ensures FullRows(b) == {} ==> r.0 == b && r.1 == score
  {
    var pass := Sweep(b, |b|);
    PassFacts(b);
    StackWellFormed(b, EmptyRows(|pass.cleared|), pass.kept);
    (EmptyRows(|pass.cleared|) + pass.kept, score + 100 * |pass.cleared|)
  }

  /**
   When no two full rows are adjacent the pass removes exactly the full rows,
   and the score grows by 100 for each of them.
   */
  lemma AllFullRowsClearedWhenApart(b: Board, score: int)
    requires |b| == ROWS
    requires forall i :: 0 < i < |b| && Full(b[i]) ==> !Full(b[i - 1])
    ensures Sweep(b, |b|).cleared == FullRows(b)
    ensures ClearLines(b, score).1 == score + 100 * |FullRows(b)|
  {
    var c := Sweep(b, |b|).cleared;
    PassFacts(b);
    forall i | i in FullRows(b)
      ensures i in c
    {
      FullRowBelowKeptIsCleared(b, |b|, i);
    }
  }

  /**
   The board during the scan: k empty rows on top, then the original rows
   b[..m] the scan has yet to reach, then the rows `done` already passed and
   kept.
   */
  ghost predicate Layout(b: Board, board: Board, k: nat, m: nat, done: seq<Row>) {
    m <= |b| && board == EmptyRows(k) + b[..m] + done
  }

  /** The pass over b[..n] is the pass over b[..m] followed by k removals and the rows `done`. */
  ghost predicate Account(b: Board, n: nat, k: nat, m: nat, done: seq<Row>) {
    && m <= n <= |b|
    && Sweep(b, n).kept == Sweep(b, m).kept + done
    && |Sweep(b, n).cleared| == |Sweep(b, m).cleared| + k
  }

  /** The scan at index k+m-1 meets original row m-1; splicing it out and adding an empty row on top. */
  lemma LayoutFull(b: Board, board: Board, k: nat, m: nat, done: seq<Row>)
    requires 1 <= m && Layout(b, board, k, m, done)
    ensures k + m - 1 < |board| && board[k + m - 1] == b[m - 1]
    ensures var y := k + m - 1;
      var spliced := [EmptyRow()] + board[..y] + board[y + 1..];
      && (m >= 2 ==> Layout(b, spliced, k + 1, m - 2, [b[m - 2]] + done))
      && (m == 1 ==> Layout(b, spliced, k + 1, 0, done))
  {
    var y := k + m - 1;
    assert board[..y] == EmptyRows(k) + b[..m - 1];
    assert board[y + 1..] == done;
    assert [EmptyRow()] + EmptyRows(k) == EmptyRows(k + 1);
    if m >= 2 {
      assert b[..m - 1] == b[..m - 2] + [b[m - 2]];
    } else {
      assert b[..m - 1] == b[..0];
    }
  }

  /** Passing over original row m-1 and keeping it. */
  lemma LayoutKeep(b: Board, board: Board, k: nat, m: nat, done: seq<Row>)
    requires 1 <= m && Layout(b, board, k, m, done)
    ensures k + m - 1 < |board| && board[k + m - 1] == b[m - 1]
    ensures Layout(b, board, k, m - 1, [b[m - 1]] + done)
  {
    assert b[..m] == b[..m - 1] + [b[m - 1]];
  }

  /** Past the original rows the scan only meets the empty rows put on top. */
  lemma LayoutTop(b: Board, board: Board, k: nat, done: seq<Row>, y: int)
    requires Layout(b, board, k, 0, done)
    requires 0 <= y < k
    ensures board[y] == EmptyRow()
  {
  }

  /** Removing full row m-1 and passing over row m-2 in the reference pass. */
  lemma AccountFull(b: Board, n: nat, k: nat, m: nat, done: seq<Row>)
    requires 1 <= m && Account(b, n, k, m, done) && Full(b[m - 1])
    ensures m >= 2 ==> Account(b, n, k + 1, m - 2, [b[m - 2]] + done)
    ensures m == 1 ==> Account(b, n, k + 1, 0, done)
  {
    if m >= 2 {
      assert m - 1 !in Sweep(b, m - 2).cleared;
    }
  }

  /** Keeping row m-1 in the reference pass. */
  lemma AccountKeep(b: Board, n: nat, k: nat, m: nat, done: seq<Row>)
    requires 1 <= m && Account(b, n, k, m, done) && !Full(b[m - 1])
    ensures Account(b, n, k, m - 1, [b[m - 1]] + done)
  {
  }

  /**
   The loop's state while scanning index y: the board's layout, the
   reference pass's bookkeeping, and where index y falls.
   */
  ghost predicate Scanning(b: Board, n: nat, board: Board, k: nat, m: nat, done: seq<Row>, y: int) {
    && n == |b|
    && -1 <= y < n
    && Layout(b, board, k, m, done)
    && Account(b, n, k, m, done)
    && y + 1 <= k + m
    && (m > 0 ==> y + 1 == k + m)
  }

  /** The source's `splice(y, 1)` followed by `unshift` of an empty row. */
  function Splice(board: Board, y: nat): (r: Board)
    requires y < |board|
    ensures |r| == |board|
    ensures r[0] == EmptyRow()
    ensures forall i :: 0 <= i < y ==> r[i + 1] == board[i]
    ensures forall i :: y < i < |board| ==> r[i] == board[i]
  {
    [EmptyRow()] + board[..y] + board[y + 1..]
  }

  /** Original rows still ahead of the scan after one step. */
  ghost function NextM(m: nat, full: bool): nat {
    if full then (if m >= 2 then m - 2 else 0) else (if m > 0 then m - 1 else 0)
  }

  /** Rows passed and kept after one step: the row above a removed one is passed over. */
  ghost function NextDone(b: Board, m: nat, done: seq<Row>, full: bool): seq<Row>
    requires m <= |b|
  {
    if full then (if m >= 2 then [b[m - 2]] + done else done)
    else (if m > 0 then [b[m - 1]] + done else done)
  }

  /** One iteration of the loop keeps the scan state. */
  lemma ScanStep(b: Board, n: nat, board: Board, k: nat, m: nat, done: seq<Row>, y: int)
    requires Scanning(b, n, board, k, m, done, y) && 0 <= y
    ensures Full(board[y]) ==>
      Scanning(b, n, Splice(board, y), k + 1, NextM(m, true), NextDone(b, m, done, true), y - 1)
    ensures !Full(board[y]) ==>
      Scanning(b, n, board, k, NextM(m, false), NextDone(b, m, done, false), y - 1)
  {
    if Full(board[y]) {
      if m == 0 {
        LayoutTop(b, board, k, done, y);
        assert false;
      }
      LayoutFull(b, board, k, m, done);
      AccountFull(b, n, k, m, done);
    } else if m > 0 {
      LayoutKeep(b, board, k, m, done);
      AccountKeep(b, n, k, m, done);
    }
  }

  /** At the end of the scan the board is the pass's result. */
  lemma ScanDone(b: Board, n: nat, board: Board, k: nat, m: nat, done: seq<Row>)
    requires Scanning(b, n, board, k, m, done, -1)
    ensures board == EmptyRows(|Sweep(b, n).cleared|) + Sweep(b, n).kept
    ensures k == |Sweep(b, n).cleared|
  {
    assert b[..0] == [];
  }

  /** The scan's final state is what ClearLines describes. */
  lemma ScanResult(b: Board, score: int, board: Board, k: nat)
    requires |b| == ROWS
    requires board == EmptyRows(|Sweep(b, |b|).cleared|) + Sweep(b, |b|).kept
    requires k == |Sweep(b, |b|).cleared|
    ensures board == ClearLines(b, score).0 && score + k * 100 == ClearLines(b, score).1
  {
  }

  /**
   The source's loop: bottom-up over indices, splicing out a full row and
   putting an empty row on top, then moving one index up regardless.
   */
  method ClearLinesInPlace(b: Board, score: int) returns (board: Board, newScore: int)
    requires |b| == ROWS
    ensures board == ClearLines(b, score).0 && newScore == ClearLines(b, score).1
  {
    board := b;
    var linesCleared: nat := 0;
    var y := ROWS - 1;
    ghost var n: nat := |b|;
    ghost var m: nat := |b|;
    ghost var done: seq<Row> := [];
    assert b[..m] == b && board == EmptyRows(0) + b[..m] + done;
    while y >= 0
      invariant Scanning(b, n, board, linesCleared, m, done, y)
      decreases y + 1
    {
      ScanStep(b, n, board, linesCleared, m, done, y);
      ghost var full := Full(board[y]);
      done := NextDone(b, m, done, full);
      m := NextM(m, full);
      if Full(board[y]) {
        board := Splice(board, y);
        linesCleared := linesCleared + 1;
      }
      y := y - 1;
    }
    ScanDone(b, n, board, linesCleared, m, done);
    ScanResult(b, score, board, linesCleared);
    if linesCleared > 0 {
      newScore := score + linesCleared * 100;
    } else {
      newScore := score;
    }
  }

  /**
   Two full rows at the bottom: only the lowest goes, and the one above it
   ends up, still full, on the bottom row.
   */
  lemma FullRowCanSurvive(b: Board, score: int)
    requires |b| == ROWS
    requires Full(b[ROWS - 1]) && Full(b[ROWS - 2])
    ensures ROWS - 1 in Sweep(b, |b|).cleared && ROWS - 2 !in Sweep(b, |b|).cleared
    ensures ClearLines(b, score).0[ROWS - 1] == b[ROWS - 2]
    ensures Full(ClearLines(b, score).0[ROWS - 1])
  {
    var c := Sweep(b, |b|).cleared;
    NoAdjacentClears(b, |b|);
    assert ROWS - 1 in c;
    assert KeepTo(b, c, ROWS) == KeepTo(b, c, ROWS - 1);
    assert KeepTo(b, c, ROWS - 1) == KeepTo(b, c, ROWS - 2) + [b[ROWS - 2]];
  }
}
