/**
 * The 3x3 grid and win detection: the board a game snapshot holds and
 * `calculateWinner`, which scans the eight winning lines in a fixed order.
 */
module Grid {
  import opened Wrappers

  /** The mark a player writes into a cell. */
  datatype Mark = X | O

  /** A cell is empty (`null` in the game) or holds a mark. */
  type Cell = Option<Mark>

  /** Cells are numbered 0 to 8 in row-major order: 0-2 top row, 3-5 middle, 6-8 bottom. */
  type CellIndex = i: int | 0 <= i < 9

  type Board = b: seq<Cell> | |b| == 9
    witness [None, None, None, None, None, None, None, None, None]

  const EmptyBoard: Board := [None, None, None, None, None, None, None, None, None]

  /** Three cells that win when they all hold the same mark. */
  datatype Line = Line(a: CellIndex, b: CellIndex, c: CellIndex)

  /** The winning lines in the order they are scanned: rows, columns, diagonals. */
  const Lines: seq<Line> := [
    Line(0, 1, 2), Line(3, 4, 5), Line(6, 7, 8),
    Line(0, 3, 6), Line(1, 4, 7), Line(2, 5, 8),
    Line(0, 4, 8), Line(2, 4, 6)
  ]

  /** All three cells of `line` hold `m`. */
  predicate Holds(b: Board, line: Line, m: Mark) {
    b[line.a] == Some(m) && b[line.b] == Some(m) && b[line.c] == Some(m)
  }

  /** Line `k` is held by `m` and no line scanned before it is held by anyone. */
  predicate FirstWinningLine(b: Board, k: nat, m: Mark) {
    k < |Lines| && Holds(b, Lines[k], m) &&
    forall j, m' :: 0 <= j < k ==> !Holds(b, Lines[j], m')
  }

  /** The test applied to each line: its first cell is filled and the other two equal it. */
  predicate Completed(b: Board, line: Line) {
    b[line.a].Some? && b[line.a] == b[line.b] && b[line.a] == b[line.c]
  }

  /** The board with mark `m` written into cell `i`. */
  function Place(b: Board, i: CellIndex, m: Mark): (b': Board)
    ensures b'[i] == Some(m) && forall j :: 0 <= j < 9 && j != i ==> b'[j] == b[j]
  {
    b[i := Some(m)]
  }

  /** Scans the lines from index `from` on and returns the mark of the first completed one. */
  function ScanLines(b: Board, from: nat): (r: Option<Mark>)
    requires from <= |Lines|
    ensures r.None? <==> forall k, m :: from <= k < |Lines| ==> !Holds(b, Lines[k], m)
    ensures r.Some? ==>
      exists k :: from <= k < |Lines| && Holds(b, Lines[k], r.value) &&
        forall j, m :: from <= j < k ==> !Holds(b, Lines[j], m)
    decreases |Lines| - from
  {
    if from == |Lines| then None
    else if Completed(b, Lines[from]) then
      assert Holds(b, Lines[from], b[Lines[from].a].value);
      b[Lines[from].a]
    else ScanLines(b, from + 1)
  }

  /**
   * The winner of a board: the mark of the first line, in scan order, whose
   * three cells hold the same mark, or None when no line does.
   */
  function Winner(b: Board): (r: Option<Mark>)
    ensures r.None? <==> forall k, m :: 0 <= k < |Lines| ==> !Holds(b, Lines[k], m)
    ensures r.Some? ==> exists k :: FirstWinningLine(b, k, r.value)
    ensures forall k, m :: FirstWinningLine(b, k, m) ==> r == Some(m)
  {
    var r := ScanLines(b, 0);
    assert r.Some? ==> exists k :: FirstWinningLine(b, k, r.value) by {
      if r.Some? {
        var k :| 0 <= k < |Lines| && Holds(b, Lines[k], r.value) &&
          forall j, m :: 0 <= j < k ==> !Holds(b, Lines[j], m);
        assert FirstWinningLine(b, k, r.value);
      }
    }
    r
  }

  /** The loop with an early return that computes the winner; it reads the board only. */
  method CalculateWinner(squares: Board) returns (winner: Option<Mark>)
    ensures winner == Winner(squares)
  {
    for i := 0 to |Lines|
      invariant ScanLines(squares, i) == ScanLines(squares, 0)
    {
      var line := Lines[i];
      if squares[line.a].Some? && squares[line.a] == squares[line.b] && squares[line.a] == squares[line.c] {
        return squares[line.a];
      }
    }
    return None;
  }

  /**
   * Writing `m` into an empty cell of a board without a winner can only
   * complete lines of `m`: the other player cannot become the winner.
   */
  lemma PlacingCompletesOnlyOwnLines(b: Board, i: CellIndex, m: Mark)
    requires Winner(b).None? && b[i].None?
    ensures forall k, m' :: 0 <= k < |Lines| && Holds(Place(b, i, m), Lines[k], m') ==> m' == m
    ensures Winner(Place(b, i, m)) == None || Winner(Place(b, i, m)) == Some(m)
  {
    var b' := Place(b, i, m);
    forall k, m' | 0 <= k < |Lines| && Holds(b', Lines[k], m')
      ensures m' == m
    {
      assert !Holds(b, Lines[k], m');
    }
  }

  /** When every completed line belongs to `m`, the scan order does not matter: `m` wins. */
  lemma WinnerOfOnlyCompletedMark(b: Board, k: nat, m: Mark)
    requires k < |Lines| && Holds(b, Lines[k], m)
    requires forall j, m' :: 0 <= j < |Lines| && Holds(b, Lines[j], m') ==> m' == m
    ensures Winner(b) == Some(m)
  {
  }

  /** The number of filled cells. */
  function CountFilled(s: seq<Cell>): (n: nat)
    ensures n <= |s|
    ensures n == |s| <==> forall k :: 0 <= k < |s| ==> s[k].Some?
    ensures n == 0 <==> forall k :: 0 <= k < |s| ==> s[k].None?
  {
    if s == [] then 0
    else (if s[|s| - 1].Some? then 1 else 0) + CountFilled(s[..|s| - 1])
  }

  /** Filling an empty cell adds exactly one to the count of filled cells. */
  lemma {:induction false} CountFilledAfterFill(s: seq<Cell>, i: nat, m: Mark)
    requires i < |s| && s[i].None?
    ensures CountFilled(s[i := Some(m)]) == CountFilled(s) + 1
    decreases |s|
  {
    var s' := s[i := Some(m)];
    var n := |s| - 1;
    if i == n {
      assert s'[..n] == s[..n];
    } else {
      assert s'[..n] == s[..n][i := Some(m)];
      CountFilledAfterFill(s[..n], i, m);
    }
  }

  /** The number of cells holding `m`. */
  function CountMark(s: seq<Cell>, m: Mark): (n: nat)
    ensures n <= CountFilled(s)
  {
    if s == [] then 0
    else (if s[|s| - 1] == Some(m) then 1 else 0) + CountMark(s[..|s| - 1], m)
  }

  /** Filling an empty cell with `m` adds one to the count of `m` and leaves the other mark's count alone. */
  lemma {:induction false} CountMarkAfterFill(s: seq<Cell>, i: nat, m: Mark, counted: Mark)
    requires i < |s| && s[i].None?
    ensures CountMark(s[i := Some(m)], counted) == CountMark(s, counted) + (if m == counted then 1 else 0)
    decreases |s|
  {
    var s' := s[i := Some(m)];
    var n := |s| - 1;
    assert CountMark(s', counted) == (if s'[n] == Some(counted) then 1 else 0) + CountMark(s'[..n], counted);
    if i == n {
      assert s'[..n] == s[..n];
    } else {
      assert s'[..n] == s[..n][i := Some(m)];
      CountMarkAfterFill(s[..n], i, m, counted);
    }
  }
}
