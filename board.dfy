/** The `Board` component: the click handler and the status line. */
module BoardComponent {
  import opened Wrappers
  import opened Grid

  /** X moves on even move numbers, O on odd ones. */
  predicate XIsNext(currentMove: nat) {
    currentMove % 2 == 0
  }

  function NextMark(xIsNext: bool): Mark {
    if xIsNext then X else O
  }

  function MarkName(m: Mark): string {
    if m == X then "X" else "O"
  }

  /**
   * The board a click on cell `i` produces, or None when the click is
   * ignored: the cell is already filled or the board already has a winner.
   */
  function HandleClick(squares: Board, i: CellIndex, xIsNext: bool): (next: Option<Board>)
    ensures next.None? <==> squares[i].Some? || Winner(squares).Some?
    ensures next.Some? ==> next.value[i] == Some(NextMark(xIsNext))
    ensures next.Some? ==> forall j :: 0 <= j < 9 && j != i ==> next.value[j] == squares[j]
  {
    if squares[i].Some? || Winner(squares).Some? then None
    else Some(Place(squares, i, NextMark(xIsNext)))
  }

  function Status(squares: Board, xIsNext: bool): string {
    var winner := Winner(squares);
    if winner.Some? then "Winner: " + MarkName(winner.value)
    else "Next player: " + MarkName(NextMark(xIsNext))
  }

  /** The status names the winner exactly when there is one, and otherwise the player to move. */
  lemma StatusAnnouncesWinner(squares: Board, xIsNext: bool)
    ensures forall m :: Status(squares, xIsNext) == "Winner: " + MarkName(m) <==> Winner(squares) == Some(m)
    ensures Status(squares, xIsNext) == "Next player: " + MarkName(NextMark(xIsNext)) <==> Winner(squares).None?
  {
    forall m
      ensures Status(squares, xIsNext) == "Winner: " + MarkName(m) ==> Winner(squares) == Some(m)
    {
      var s := Status(squares, xIsNext);
      if s == "Winner: " + MarkName(m) {
        assert s[0] == 'W';
        assert s[8] == MarkName(m)[0];
      }
    }
    if Winner(squares).Some? {
      assert Status(squares, xIsNext)[0] == 'W';
    }
  }

  /**
   * A full board without a winner still invites the next player to move,
   * although every click on it is ignored: a draw is not reported.
   */
  lemma DrawReadsNextPlayer(squares: Board, xIsNext: bool)
    requires CountFilled(squares) == 9 && Winner(squares).None?
    ensures Status(squares, xIsNext) == "Next player: " + MarkName(NextMark(xIsNext))
    ensures forall i: CellIndex :: HandleClick(squares, i, xIsNext).None?
  {
  }
}
