/**
 * The `Game` component: the history of snapshots, the cursor into it and the
 * sort order of the move list, updated by its handlers one at a time.
 */
module GameComponent {
  import opened Wrappers
  import opened Grid
  import opened BoardComponent
  import opened History
  import opened MoveDisplay

  class Game {
    var history: seq<Board>
    var currentMove: nat
    var sortOrder: SortOrder

    /** The cursor points into a non-empty history and the sort button's label matches the order. */
    ghost predicate Valid()
      reads this
    {
      |history| >= 1 && currentMove < |history| && LabelMatches(sortOrder)
    }

    /** A game starts with one empty board, at move 0, listed in ascending order. */
    constructor ()
      ensures Valid() && Linear(history)
      ensures history == [EmptyBoard] && currentMove == 0 && sortOrder == InitialOrder
    {
      history := [EmptyBoard];
      currentMove := 0;
      sortOrder := InitialOrder;
    }

    /** The board on display: the snapshot under the cursor. */
    function CurrentSquares(): Board
      reads this
      requires Valid()
    {
      history[currentMove]
    }

    /** The move list as shown: one entry per snapshot, and each button jumps to a snapshot that exists. */
    function DisplayedMoves(): (moves: seq<MoveEntry>)
      reads this
      requires Valid()
      ensures |moves| == |history|
      ensures forall k :: 0 <= k < |moves| ==> moves[k].move < |history|
      ensures forall k :: 0 <= k < |moves| ==> (moves[k].jumpButton <==> moves[k].move != currentMove)
    {
      var moves := Displayed(Moves(history, currentMove), sortOrder);
      forall k | 0 <= k < |moves|
        ensures moves[k] == Describe(if sortOrder.ascending then k else |history| - 1 - k, currentMove)
      {
        DisplayedOrder(history, currentMove, sortOrder, k);
      }
      moves
    }

    /**
     * Drops every snapshot after the cursor, appends `nextSquares` and moves
     * the cursor onto it.
     */
    method HandlePlay(nextSquares: Board)
      requires Valid()
      modifies this
      ensures Valid()
      ensures history == old(history[..currentMove + 1]) + [nextSquares]
      ensures currentMove == |history| - 1 == old(currentMove) + 1
      ensures sortOrder == old(sortOrder)
      ensures old(Linear(history)) && IsMove(old(history[currentMove]), nextSquares, old(currentMove)) ==>
        Linear(history)
    {
      if Linear(history) && IsMove(history[currentMove], nextSquares, currentMove) {
        AppendMove(history, currentMove, nextSquares);
      }
      var nextHistory := history[..currentMove + 1] + [nextSquares];
      history := nextHistory;
      currentMove := |nextHistory| - 1;
    }

    /** Moves the cursor only; the history stays as it is, future snapshots included. */
    method JumpTo(nextMove: nat)
      requires Valid() && nextMove < |history|
      modifies this`currentMove
      ensures Valid()
      ensures currentMove == nextMove
      ensures history == old(history) && sortOrder == old(sortOrder)
    {
      currentMove := nextMove;
    }

    /** Flips the sort order and relabels its button. */
    method ToggleAscending()
      requires Valid()
      modifies this`sortOrder
      ensures Valid()
      ensures sortOrder == Toggled(old(sortOrder))
      ensures history == old(history) && currentMove == old(currentMove)
    {
      sortOrder := Toggled(sortOrder);
    }

    /**
     * A click on cell `i` of the board on display. It is ignored when the cell
     * is filled or the board has a winner; otherwise a copy of the board with
     * the mark of the player to move in cell `i` is played.
     */
    method Click(i: CellIndex)
      requires Valid()
      modifies this
      ensures Valid()
      ensures sortOrder == old(sortOrder)
      ensures HandleClick(old(history[currentMove]), i, XIsNext(old(currentMove))).None? ==>
        history == old(history) && currentMove == old(currentMove)
      ensures HandleClick(old(history[currentMove]), i, XIsNext(old(currentMove))).Some? ==>
        history == old(history[..currentMove + 1]) + [HandleClick(old(history[currentMove]), i, XIsNext(old(currentMove))).value] &&
        currentMove == old(currentMove) + 1
      ensures old(Linear(history)) ==> Linear(history)
    {
      var squares := history[currentMove];
      if squares[i].Some? {
        return;
      }
      var winner := CalculateWinner(squares);
      if winner.Some? {
        return;
      }
      var nextSquares := new Cell[9](j requires 0 <= j < 9 => squares[j]);
      nextSquares[i] := Some(NextMark(XIsNext(currentMove)));
      assert nextSquares[..] == Place(squares, i, NextMark(XIsNext(currentMove)));
      assert HandleClick(squares, i, XIsNext(currentMove)) == Some(nextSquares[..]);
      HandlePlay(nextSquares[..]);
    }
  }
}
