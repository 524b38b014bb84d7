# Gomoku (wuziqi) game core in Dafny

A model of the logic of `src/App.js`, a React Gomoku game on a 15x15 board.
It covers two pieces:

- **Win detection.** `calculateWinner` scans every square in row-major order.
  For each square it calls `checkWinningLine`, which walks up to five squares
  in each of four directions.
- **The game session.** This is the history of board snapshots and the move
  on show. It covers `handleClick`, `handlePlay`, `jumpTo`, `xIsNext` and the
  move-list labels.

The React components become pure functions from state to state.

The game's stated rule is five in a row, but the code does not implement it.
In `checkWinningLine`, `count` takes the first square's mark. A later empty,
off-board or different square only `break`s the walk, and the mark is then
returned anyway. So the line check reports the start square's own mark, and
`calculateWinner` reports the first marked square on the board. A single mark
"wins".

The model follows the code:

- `WinDetector.CheckWinningLine` and `WinDetector.CalculateWinner` model the
  code as written.
- `WinDetector.LineStrict` models the rule as intended: five in a row.

Every game transition takes a `WinRule`:

- `AsWritten` is the code as it stands.
- `FiveInRow` is the corrected rule.

Properties are proved under both rules. See "## Findings".

Modules:

- `Grid`: the board constants, players, cells and mark counting (the React `Board` component's `handleClick` and status line are in `Game`).
- `Lines`: the four directions, the squares a walk visits, and `HasFiveInRow`.
- `WinDetector`: both line checks and the board scan.
- `Labels`: the move labels and their decimal numbers.
- `Game`: the session state and its transitions.

## Model

| member | source | states |
|---|---|---|
| Grid.Index | src/App.js:121-123 | An on-board (row, col) maps to a flat position below 225, and that position decodes back to the same row and column |
| Grid.PositionOfIndex | src/App.js:101-103 | Every flat position k is the index of an on-board square: row k / 15, column k % 15 |
| Grid.EmptyBoard | src/App.js:58 | The starting board is a full 225-square board with every square empty |
| Lines.At | src/App.js:121-123 | Step s of a walk from (row, col) along a direction reads square (row + s·dRow, col + s·dCol). Off the board it reads as empty and the array is not read. On the board it reads flat position row * 15 + col + s · offset, which is inside the array. Step 0 is the start square |
| Lines.FiveStartsOnBoard | src/App.js:123 | A line of five starts on the board, on a square holding the line's mark |
| Lines.NoFiveWithFewMarks | src/App.js:4 | A line of five covers five different squares, so a player with fewer than five marks holds no five in a row |
| WinDetector.Scan | src/App.js:119-132 | The step loop keeps a held mark to the end of the walk; from a zero count, the first square visited decides the result (empty gives zero, a mark gives that mark) |
| WinDetector.CheckDirections | src/App.js:118-135 | Over no directions the result is null; over any directions it is the start square's mark |
| WinDetector.CheckWinningLine | src/App.js:110-136 | As written, the line check from (row, col) reports exactly the mark on that square, or nothing when it is empty or off the board |
| WinDetector.LineStrictFive | src/App.js:118-133 | The corrected walk, from any state it can reach, reports a player only along a line of five of theirs, and reports no one only when no remaining direction holds five of anyone's |
| WinDetector.CheckLineStrictFive | src/App.js:110-136 | The corrected line check reports p only when some direction from (row, col) holds five of p's marks, and reports nothing only when no direction holds five of anyone's |
| WinDetector.ScanColsFirstReport | src/App.js:102-105 | The column loop returns nothing only when no check in the rest of the row reports, and otherwise returns the first report in column order |
| WinDetector.ScanRowsFirstReport | src/App.js:101-107 | The row loop returns nothing exactly when no check from the remaining rows reports, and otherwise returns the first report in row-major order |
| WinDetector.WinnerFirstHit | src/App.js:99-108 | Under either rule, the board scan reports nothing exactly when no line check reports, and otherwise reports the first report in row-major order |
| WinDetector.CheckAtAsWritten | src/App.js:103 | As written, the line check at flat position k reports exactly the mark on square k |
| WinDetector.CalculateWinnerNone | src/App.js:99-108 | As written, `calculateWinner` returns null exactly when every square is empty |
| WinDetector.CalculateWinnerMarked | src/App.js:99-108 | As written, any board with at least one mark has a winner |
| WinDetector.CalculateWinnerIsFirstMark | src/App.js:99-136 | As written, the winner is p exactly when the first marked square in row-major order holds p |
| WinDetector.EmptyBoardNoWinner | src/App.js:58 | An all-empty board, such as the starting one, has no winner under either rule |
| WinDetector.IntendedWinnerSound | src/App.js:99-108 | Under the five-in-a-row rule, a reported winner holds five in a row |
| WinDetector.IntendedWinnerComplete | src/App.js:99-108 | Under the five-in-a-row rule, someone is reported whenever a player holds five in a row |
| WinDetector.IntendedWinnerUnique | src/App.js:99-108 | Under the five-in-a-row rule, when only p holds five in a row, p is reported |
| WinDetector.IntendedWinnerNeedsFive | src/App.js:4 | Under the five-in-a-row rule, if each player has fewer than five marks, no one is reported |
| WinDetector.LoneMarkWins | src/App.js:118-133 | As written, a board holding a single mark of p and nothing else is reported as won by p. Yet no one holds five in a row, and the corrected scan reports no one |
| WinDetector.LoneCentreXMarks | src/App.js:58 | The empty board with X placed on the centre square (7,7) holds exactly one X and no O, and that X is the first mark |
| Labels.NatToString | src/App.js:76 | A move number prints as one or more decimal digits, with no leading zero |
| Labels.ParseNatToString | src/App.js:76 | Reading back the printed digits of n gives n |
| Labels.MoveLabelDecodes | src/App.js:74-79 | Move 0 is labelled "Go to game start". Move k > 0 is labelled "Go to move #" followed by digits that read back as k |
| Labels.MoveLabelInjective | src/App.js:73-79 | Different moves get different labels |
| Game.HandleClick | src/App.js:15-26 | A click is accepted exactly when the board has no winner and square i is empty. The board it then hands on is full and has the mover's mark on square i |
| Game.HandlePlay | src/App.js:63-67 | The snapshots up to the one on show are kept and the later ones are dropped. The new board is appended and shown |
| Game.MoveList | src/App.js:73-79 | One label per snapshot; snapshot k gets the label of move k |
| Game.InitialValid | src/App.js:58-60 | A fresh session is valid, shows the empty board, and has X to move |
| Game.SnapshotMarks | src/App.js:58 | In a valid session, snapshot k holds exactly k marks and 225 - k empty squares |
| Game.PlaceKeepsSnapshot | src/App.js:19-24 | Putting the mover's mark (X on even moves, O on odd) on an empty square of snapshot m gives a well-formed snapshot m + 1 |
| Game.HandlePlayValid | src/App.js:63-67 | Appending a well-formed next snapshot after the one on show keeps the session valid |
| Game.ClickPreservesValid | src/App.js:15-26 | Every click keeps the session valid: a non-empty history, an in-range current move, full boards, and exactly k marks in snapshot k |
| Game.PlayPreservesValid | src/App.js:15-26 | Any run of clicks keeps the session valid |
| Game.JumpToValid | src/App.js:69-71 | A jump changes only the move on show, and the session stays valid exactly when the target is an existing snapshot |
| Game.ClickNoOp | src/App.js:16-18 | A click leaves the session unchanged exactly when the board on show already has a winner or the square is taken |
| Game.ClickEffect | src/App.js:19-25 | An accepted click keeps the snapshots up to the one on show and appends one snapshot, which becomes the move on show. The new snapshot is the old board with only square i changed: X after an even number of moves, O after an odd one |
| Game.ClickIdempotent | src/App.js:16-25 | Clicking the same square twice has the effect of clicking it once |
| Game.RedoTruncation | src/App.js:63-71 | A move played after jumping back to snapshot k leaves snapshots 0..k followed by the new board, with move k + 1 on show |
| Game.JumpToStart | src/App.js:69-71 | Jumping to move 0 always shows the empty board with X to move |
| Game.MoveListDistinct | src/App.js:73-82 | No two jump buttons carry the same label |
| Game.AsWrittenFirstMoveWins | src/App.js:28-34 | As written, once the first move is on the board, `calculateWinner` names X and the status reads "Winner: X" |
| Game.AsWrittenFrozenAfterFirstMove | src/App.js:16-18 | As written, once a move has been made, every click is ignored |
| Game.AsWrittenPlayAtMostTwo | src/App.js:16-18 | As written, a session with at most two snapshots never gets more, whatever is clicked |
| Game.AsWrittenPlayFrozen | src/App.js:16-18 | As written, once a move has been made, no run of clicks changes the session |
| Game.AsWrittenFirstClickWins | src/App.js:16-25 | As written, the first click at move 0 is accepted on any square, puts X there, and is at once declared the winner |
| Game.EarlyClickAccepted | src/App.js:16-25 | Under the five-in-a-row rule, the first nine moves are accepted on any empty square. Each one appends a snapshot that is the old board plus the mover's mark |
| Game.EarlyPlayAccepted | src/App.js:15-26 | Under the five-in-a-row rule, clicks on different empty squares within the first nine moves are all accepted. The board shown afterwards has them marked in turn, X then O |
| Game.PlaceAt | src/App.js:19-24 | Of a run of clicks on different squares, the t-th leaves the mark of move m + t on its square |
| Game.TopRowXWins | src/App.js:99-108 | Under the five-in-a-row rule, X holding the first five squares of the top row wins while O has fewer than five marks |
| Game.RunOfNineWins | src/App.js:15-26 | Under the five-in-a-row rule, from move 0, nine clicks on different squares that leave X on (0,0)..(0,4) give nine accepted moves, and then X is the winner |
| Game.RowOfFiveWins | src/App.js:15-26 | Concrete game: X plays (0,0)..(0,4) and O plays down column 14. Under the five-in-a-row rule this ends after nine moves with X the winner |

## Left out

- Rendering is not modelled. This covers the `Square` component, the JSX of `Board` and `Game`, and CSS (src/App.js:6-12, 36-54, 80-96). The model keeps only the values they display.
- React's `useState` updates are taken as applied at once and together. `setHistory` and `setCurrentMove` in `handlePlay` become one state transition.
- JavaScript truthiness is replaced by datatypes. `null`/'X'/'O' squares become `Cell`. The `count` variable (the number 0 or a mark string) becomes `Count`.
- Game.Click: requires a square index in 0..224. The board only renders buttons for those indices (src/App.js:42). The model does not follow JavaScript's behaviour for other indices: an index past 224 would grow the array, and a negative one would add a property that is not a square.
- Game.Click, Game.Play: their own contracts state only that a full board stays on show. What they do is stated by ClickNoOp, ClickEffect, ClickPreservesValid, PlayPreservesValid and the scenario lemmas.
- Game.HandleClick: its contract does not say that the other squares are unchanged. That frame is stated at session level by Game.ClickEffect.
- Game.Status: the status line is modelled, but only Game.AsWrittenFirstMoveWins states something about it.
- `jumpTo` with an index outside the history is modelled. The session then stops being valid (Game.JumpToValid). The buttons only ever pass existing indices.

## Findings

| source | as written | input that shows it | evidently intended | confidence | as-written member | corrected member |
|---|---|---|---|---|---|---|
| src/App.js:118-133 | `count` keeps the first square's mark. A different, empty or off-board square only `break`s the step loop, and `typeof count === 'string'` then reports the mark. So any marked square is a "winning line", and `calculateWinner` names whoever owns the first marked square | Any board holding a single mark, e.g. one X on the centre square (7,7): `calculateWinner` returns 'X' | A direction wins only if all five squares are on the board and hold the same mark; `calculateWinner` returns null unless someone has five in a row | high (proved about the model; not executed) | WinDetector.LoneMarkWins | WinDetector.IntendedWinnerSound |

In the Dafny code, the as-written side is `WinDetector.CheckWinningLine` and
`WinDetector.CalculateWinner`. `WinDetector.CalculateWinnerIsFirstMark` states
their behaviour in general. `Game.AsWrittenFrozenAfterFirstMove` states the
consequence for play: nothing can be clicked after the first move.

The corrected side is `WinDetector.LineStrict` and `WinDetector.IntendedWinner`.
The corrected line check is sound and complete for five in a row: see
`WinDetector.CheckLineStrictFive`, `WinDetector.IntendedWinnerSound` and
`WinDetector.IntendedWinnerComplete`.

Under the `FiveInRow` rule the game plays on until a line of five appears;
see `Game.EarlyPlayAccepted` and `Game.RowOfFiveWins`.
