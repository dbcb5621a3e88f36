# Tic-Tac-Toe with move history, in Dafny

This project models the game logic of a browser Tic-Tac-Toe game (`src/App.js`):

- win detection (`calculateWinner`), which scans eight lines of the 3x3 grid in a fixed order;
- the board's click handler (`handleClick`), which ignores a click on a filled cell or on a board that has a winner, and otherwise writes the mark of the player to move into a copy of the board;
- the status line;
- the `Game` component's state: the history of board snapshots, the cursor `currentMove` and the sort order of the move list, with the handlers `handlePlay`, `jumpTo` and `toggleAscending`;
- the move list, with one entry per snapshot, shown reversed when the order is descending.

Modules, one per part of the program:

- `Wrappers`: `Option`, which stands for JavaScript's `null`-or-value.
- `Grid`: marks, boards of nine cells, the eight lines, `Winner` (the specification) and `CalculateWinner` (the loop with an early return, proved equal to it).
- `Decimal`: the decimal text of a move number.
- `BoardComponent`: `HandleClick`, which gives the next board or `None` when the click is ignored, and `Status`.
- `History`: the predicate `Linear`, which holds of every history that play can build, and what follows from it.
- `MoveDisplay`: move descriptions, the sort order and the displayed list.
- `GameComponent`: the class `Game`. Its fields are the component's state. Its methods are the handlers, and they update the fields in place.

`Game.Click` is `handleClick` followed by `onPlay` = `handlePlay`. It copies the board into a fresh array, writes the cell and appends the copy.

The source checks the current move before it checks move 0 when it describes a move. So at the start of a game the only entry reads "You are at move #0", not "Go to game start".

## Model

| member | source | states |
|---|---|---|
| `Grid.ScanLines` | src/App.js:98-103 | Scanning from line `from` on gives None exactly when no later line is held by one mark, and otherwise the mark of a line held by that mark with no held line between `from` and it |
| `Grid.Winner` | src/App.js:87-104 | None exactly when none of the eight lines is held by one mark; otherwise the mark holding the first held line in scan order, and every "first held line" determines the result |
| `Grid.CalculateWinner` | src/App.js:87-104 | The loop with an early return computes exactly `Winner` of the board |
| `Grid.Place` | src/App.js:15-16 | The copied board holds the mark at cell `i` and equals the original at every other cell |
| `Grid.PlacingCompletesOnlyOwnLines` | src/App.js:13-16 | A mark written into an empty cell of a board with no winner completes only lines of that mark, so the other player never becomes the winner |
| `Grid.WinnerOfOnlyCompletedMark` | src/App.js:98-101 | When every held line belongs to `m` and one exists, `Winner` is `m`, whatever the scan order |
| `Decimal.NatToString` | src/App.js:61 | A move number is written as a non-empty string of decimal digits with a leading zero only for 0 |
| `Decimal.ParseNatToString` | src/App.js:65 | Reading the decimal text of a move number back gives the number |
| `Decimal.NatToStringInjective` | src/App.js:61-65 | Different move numbers have different decimal texts |
| `BoardComponent.HandleClick` | src/App.js:12-18 | The click is ignored exactly when the cell is filled or the board has a winner; otherwise the new board holds the next player's mark at `i` and is unchanged elsewhere |
| `BoardComponent.StatusAnnouncesWinner` | src/App.js:20-25 | The status reads "Winner: m" exactly when the winner is m, and "Next player: X" or "O", by parity, exactly when there is no winner |
| `BoardComponent.DrawReadsNextPlayer` | src/App.js:20-25 | On a full board without a winner the status still reads "Next player: …", though every click is ignored |
| `History.AppendMove` | src/App.js:44-48 | Cutting a history after the cursor and appending a move made from the cursor's board keeps the history linear |
| `History.FilledCount` | src/App.js:12-18 | In a linear history snapshot k holds exactly k marks |
| `History.HistoryHasAtMostTenSnapshots` | src/App.js:44-48 | A linear history has at most ten snapshots |
| `History.CellsNeverOverwritten` | src/App.js:13-16 | Once a cell is filled in a snapshot, it holds the same mark in every later snapshot |
| `History.NoMoveAfterWin` | src/App.js:13-14 | Only the last snapshot of a linear history can have a winner: no move follows a win |
| `History.WinnerIsTheCompletedMark` | src/App.js:98-101 | In a snapshot of play, any line held by m makes m the winner: all held lines belong to the last player to move |
| `History.MarksAlternate` | src/App.js:41 | Snapshot k holds (k + 1) / 2 X marks and k / 2 O marks, because X moves on even move numbers |
| `MoveDisplay.Moves` | src/App.js:58-72 | The move list has one entry per snapshot, and entry m stands for snapshot m |
| `MoveDisplay.CurrentEntryIsUnique` | src/App.js:60-69 | Exactly the current snapshot's entry is not a jump button, and it reads "You are at move #m", move 0 included |
| `MoveDisplay.DescriptionsDistinct` | src/App.js:58-65 | No two entries of the move list have the same description |
| `MoveDisplay.Toggled` | src/App.js:54-56 | Toggling flips the ascending flag and sets the button label to match the new flag |
| `MoveDisplay.ToggleTwiceRestores` | src/App.js:54-56 | Toggling twice restores a sort order whose label matches its flag |
| `MoveDisplay.ReversedIndex` | src/App.js:80 | Position k of the reversed list holds the element at position n - 1 - k |
| `MoveDisplay.DisplayedOrder` | src/App.js:80 | Shown ascending, position k describes snapshot k; shown descending, it describes snapshot n - 1 - k |
| `GameComponent.Game.constructor` | src/App.js:38-40 | A game starts with one empty board, at move 0, ascending with label "Toggle descending"; this history is linear |
| `GameComponent.Game.DisplayedMoves` | src/App.js:58-80 | The displayed list has one entry per snapshot; every entry's jump target exists, and an entry is a button exactly when it is not the current move |
| `GameComponent.Game.HandlePlay` | src/App.js:44-48 | The new history is the old one up to and including the cursor, then the new board; the cursor moves onto the new last snapshot; a linear history stays linear when the board is a move made from the cursor |
| `GameComponent.Game.JumpTo` | src/App.js:50-52 | Only the cursor changes; history and sort order are untouched |
| `GameComponent.Game.ToggleAscending` | src/App.js:54-56 | The sort order becomes its toggled version; history and cursor are untouched |
| `GameComponent.Game.Click` | src/App.js:12-18 | An ignored click changes nothing. An accepted click drops the snapshots after the cursor, appends the board `HandleClick` gives and advances the cursor by one. Linearity is kept |

## Left out

- Rendering: the JSX, the `Square` component, class names and the `board-row` layout loop (src/App.js:3-9, 27-34, 74-84). They are view code with no logic.
- React's `useState` and re-rendering: the state setters are field assignments on `Game`, applied at once and in order.
- Event binding: clicks are direct calls of `Game.Click`, `Game.JumpTo` and `Game.ToggleAscending`.
- JavaScript truthiness, `null` and strings as marks: these are replaced by `Option<Mark>` and the two-valued `Mark`.
- GameComponent.Game.JumpTo: requires the target to be a snapshot that exists. The source has no guard, and an out-of-range target would leave the cursor outside the history. Every jump button targets an existing snapshot (`Game.DisplayedMoves`), so the source's only caller meets the requirement.
- BoardComponent.HandleClick: requires a cell index from 0 to 8. The board renders only those nine cells, so no click carries another index.
- MoveDisplay.Describe, MoveDisplay.Displayed and MoveDisplay.Reversed: they have no contract of their own. `CurrentEntryIsUnique`, `DescriptionsDistinct`, `ReversedIndex` and `DisplayedOrder` state their behaviour. The labels of entries other than the current one, "Go to game start" for move 0 and "Go to move #m" otherwise, are stated only in the body of `Describe`.
- BoardComponent.Status: it has no contract of its own. What it says is stated by `StatusAnnouncesWinner` and `DrawReadsNextPlayer`.
- `calculateWinner` leaves its input unchanged. Boards are values here, so this holds by construction and is not stated.
