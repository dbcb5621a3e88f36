/**
 * The history of snapshots as play builds it: each snapshot follows from the
 * one before by one accepted click, so the history is a single line of play.
 */
module History {
  import opened Wrappers
  import opened Grid
  import opened BoardComponent

  /** `next` is what an accepted click on `b` produces when `move` moves have been made. */
  predicate IsMove(b: Board, next: Board, move: nat) {
    exists i: CellIndex :: HandleClick(b, i, XIsNext(move)) == Some(next)
  }

  /** A history that play produces: the empty board, then one accepted click per snapshot. */
  predicate Linear(h: seq<Board>) {
    |h| >= 1 && h[0] == EmptyBoard &&
    forall k :: 0 <= k < |h| - 1 ==> IsMove(h[k], h[k + 1], k)
  }

  /** Cutting the history after snapshot `k` and appending a move made from it keeps it linear. */
  lemma AppendMove(h: seq<Board>, k: nat, next: Board)
    requires Linear(h) && k < |h| && IsMove(h[k], next, k)
    ensures Linear(h[..k + 1] + [next])
  {
  }

  /** Snapshot `k` holds exactly `k` marks. */
  lemma {:induction false} FilledCount(h: seq<Board>, k: nat)
    requires Linear(h) && k < |h|
    ensures CountFilled(h[k]) == k
  {
    if k > 0 {
      FilledCount(h, k - 1);
      assert IsMove(h[k - 1], h[k], k - 1);
      var i: CellIndex :| HandleClick(h[k - 1], i, XIsNext(k - 1)) == Some(h[k]);
      CountFilledAfterFill(h[k - 1], i, NextMark(XIsNext(k - 1)));
    }
  }

  /** A game has at most nine moves, so a history at most ten snapshots. */
  lemma HistoryHasAtMostTenSnapshots(h: seq<Board>)
    requires Linear(h)
    ensures |h| <= 10
  {
    FilledCount(h, |h| - 1);
  }

  /** Once a cell is filled, every later snapshot holds the same mark there. */
  lemma {:induction false} CellsNeverOverwritten(h: seq<Board>, j: nat, k: nat, c: CellIndex)
    requires Linear(h) && j <= k < |h| && h[j][c].Some?
    ensures h[k][c] == h[j][c]
    decreases k - j
  {
    if j < k {
      CellsNeverOverwritten(h, j, k - 1, c);
      assert IsMove(h[k - 1], h[k], k - 1);
      var i: CellIndex :| HandleClick(h[k - 1], i, XIsNext(k - 1)) == Some(h[k]);
    }
  }

  /** No snapshot with a winner is followed by another: no move is accepted after a win. */
  lemma NoMoveAfterWin(h: seq<Board>, k: nat)
    requires Linear(h) && k < |h| && Winner(h[k]).Some?
    ensures k == |h| - 1
  {
    assert k < |h| - 1 ==> IsMove(h[k], h[k + 1], k);
  }

  /**
   * In a snapshot of play every completed line belongs to the player who
   * made the last move, so the scan order never decides the winner.
   */
  lemma {:induction false} WinnerIsTheCompletedMark(h: seq<Board>, k: nat, j: nat, m: Mark)
    requires Linear(h) && k < |h| && j < |Lines| && Holds(h[k], Lines[j], m)
    ensures Winner(h[k]) == Some(m)
  {
    if k > 0 {
      assert IsMove(h[k - 1], h[k], k - 1);
      var i: CellIndex :| HandleClick(h[k - 1], i, XIsNext(k - 1)) == Some(h[k]);
      var last := NextMark(XIsNext(k - 1));
      PlacingCompletesOnlyOwnLines(h[k - 1], i, last);
      WinnerOfOnlyCompletedMark(h[k], j, m);
    }
  }

  /** The players alternate, X first: snapshot `k` holds (k + 1) / 2 X marks and k / 2 O marks. */
  lemma {:induction false} MarksAlternate(h: seq<Board>, k: nat)
    requires Linear(h) && k < |h|
    ensures CountMark(h[k], X) == (k + 1) / 2 && CountMark(h[k], O) == k / 2
  {
    if k == 0 {
      assert CountFilled(h[0]) == 0;
    } else {
      MarksAlternate(h, k - 1);
      assert IsMove(h[k - 1], h[k], k - 1);
      var i: CellIndex :| HandleClick(h[k - 1], i, XIsNext(k - 1)) == Some(h[k]);
      CountMarkAfterFill(h[k - 1], i, NextMark(XIsNext(k - 1)), X);
      CountMarkAfterFill(h[k - 1], i, NextMark(XIsNext(k - 1)), O);
    }
  }
}
