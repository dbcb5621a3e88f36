/** The move list beside the board and the order it is shown in. */
module MoveDisplay {
  import opened Decimal

  /** One item of the move list: the snapshot it stands for, its text, and whether it is a jump button. */
  datatype MoveEntry = MoveEntry(move: nat, description: string, jumpButton: bool)

  /**
   * The entry for snapshot `move`. The current snapshot is checked first, so
   * it reads "You are at move #0" at the start of a game; it is plain text,
   * every other entry a button.
   */
  function Describe(move: nat, currentMove: nat): MoveEntry {
    var description :=
      if move == currentMove then "You are at move #" + NatToString(move)
      else if move == 0 then "Go to game start"
      else "Go to move #" + NatToString(move);
    MoveEntry(move, description, move != currentMove)
  }

  /** The move list: one entry per snapshot, in history order. */
  function Moves<T>(history: seq<T>, currentMove: nat): (moves: seq<MoveEntry>)
    ensures |moves| == |history|
    ensures forall m :: 0 <= m < |moves| ==> moves[m].move == m
  {
    seq(|history|, m requires 0 <= m < |history| => Describe(m, currentMove))
  }

  /** Exactly the entry of the current snapshot is not a button, and it says where the game is. */
  lemma CurrentEntryIsUnique<T>(history: seq<T>, currentMove: nat)
    requires currentMove < |history|
    ensures forall m :: 0 <= m < |history| ==> (!Moves(history, currentMove)[m].jumpButton <==> m == currentMove)
    ensures Moves(history, currentMove)[currentMove].description == "You are at move #" + NatToString(currentMove)
  {
  }

  /** No two entries of the move list read the same. */
  lemma DescriptionsDistinct<T>(history: seq<T>, currentMove: nat, m1: nat, m2: nat)
    requires m1 < m2 < |history|
    ensures Moves(history, currentMove)[m1].description != Moves(history, currentMove)[m2].description
  {
    var d1 := Moves(history, currentMove)[m1].description;
    var d2 := Moves(history, currentMove)[m2].description;
    if m1 == currentMove {
      assert d1[0] == 'Y' && d2[0] == 'G';
    } else if m2 == currentMove {
      assert d1[0] == 'G' && d2[0] == 'Y';
    } else if m1 == 0 {
      assert d1[6] == 'g' && d2[6] == 'm';
    } else {
      var prefix := "Go to move #";
      assert d1[|prefix|..] == NatToString(m1);
      assert d2[|prefix|..] == NatToString(m2);
      NatToStringInjective(m1, m2);
    }
  }

  /** The sort flag and the label of the button that flips it. */
  datatype SortOrder = SortOrder(ascending: bool, buttonLabel: string)

  const InitialOrder: SortOrder := SortOrder(true, "Toggle descending")

  /** The button offers the order that is not in force. */
  predicate LabelMatches(o: SortOrder) {
    o.buttonLabel == if o.ascending then "Toggle descending" else "Toggle ascending"
  }

  function Toggled(o: SortOrder): (r: SortOrder)
    ensures r.ascending == !o.ascending && LabelMatches(r)
  {
    if o.ascending then SortOrder(false, "Toggle ascending") else SortOrder(true, "Toggle descending")
  }

  /** Toggling twice restores an order whose label matches its flag. */
  lemma ToggleTwiceRestores(o: SortOrder)
    requires LabelMatches(o)
    ensures Toggled(Toggled(o)) == o
  {
  }

  function Reversed<T>(s: seq<T>): (r: seq<T>)
    ensures |r| == |s|
  {
    if s == [] then [] else [s[|s| - 1]] + Reversed(s[..|s| - 1])
  }

  lemma {:induction false} ReversedIndex<T>(s: seq<T>, k: nat)
    requires k < |s|
    ensures Reversed(s)[k] == s[|s| - 1 - k]
    decreases |s|
  {
    if k > 0 {
      ReversedIndex(s[..|s| - 1], k - 1);
    }
  }

  /** The list as shown: the move list itself, or reversed when the order is descending. */
  function Displayed(moves: seq<MoveEntry>, o: SortOrder): seq<MoveEntry> {
    if o.ascending then moves else Reversed(moves)
  }

  /** Shown ascending, position `k` is snapshot `k`; shown descending, the newest snapshot comes first. */
  lemma DisplayedOrder<T>(history: seq<T>, currentMove: nat, o: SortOrder, k: nat)
    requires k < |history|
    ensures |Displayed(Moves(history, currentMove), o)| == |history|
    ensures Displayed(Moves(history, currentMove), o)[k] ==
      Describe(if o.ascending then k else |history| - 1 - k, currentMove)
  {
    if !o.ascending {
      ReversedIndex(Moves(history, currentMove), k);
    }
  }
}
