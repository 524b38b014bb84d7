/**
  The game session: the history of board snapshots and the move on show,
  with the click, play and jump transitions of the `Game` and `Board`
  components written as pure functions from state to state.

  Every transition takes the win rule the board scan applies: `AsWritten`
  is the code as it stands, `FiveInRow` the rule the game means to play by.
 */
module Game {
  import opened Grid
  import opened Lines
  import opened WinDetector
  import opened Labels

  /** The two pieces of component state: the snapshots, and which one is shown. */
  datatype State = State(history: seq<Squares>, currentMove: int)

  /** A fresh session: one all-empty snapshot, showing move 0. */
  function Initial(): State {
    State([EmptyBoard()], 0)
  }

  /** Snapshot `k` is a full board with X's `(k + 1) / 2` marks and O's `k / 2`. */
  predicate SnapshotOk(b: Squares, k: int) {
    && IsBoard(b)
    && CountOf(b, Marked(X)) == (k + 1) / 2
    && CountOf(b, Marked(O)) == k / 2
  }

  /** The session invariant kept by every click and every in-range jump. */
  predicate Valid(s: State) {
    && |s.history| > 0
    && 0 <= s.currentMove < |s.history|
    && forall k :: 0 <= k < |s.history| ==> SnapshotOk(s.history[k], k)
  }

  /** The move on show names a snapshot, and that snapshot is a full board. */
  predicate ShowsBoard(s: State) {
    0 <= s.currentMove < |s.history| && IsBoard(s.history[s.currentMove])
  }

  /** X moves on even move numbers. */
  function XIsNext(s: State): bool {
    s.currentMove % 2 == 0
  }

  function Mover(xIsNext: bool): Player {
    if xIsNext then X else O
  }

  /** The snapshot on show. */
  function CurrentSquares(s: State): Squares
    requires 0 <= s.currentMove < |s.history|
  {
    s.history[s.currentMove]
  }

  /**
    `Board.handleClick(i)`: `None` when the click returns early, otherwise
    the copy of the board, with square `i` given the mover's mark, that is
    handed to `onPlay`. The copy differs from the board only at `i`.
   */
  function HandleClick(rule: WinRule, squares: Squares, xIsNext: bool, i: int): (r: Option<Squares>)
    requires IsBoard(squares)
    requires 0 <= i < Cells
    ensures r.Some? <==> Winner(rule, squares).None? && squares[i] == Empty
    ensures r.Some? ==> IsBoard(r.value) && r.value[i] == Marked(Mover(xIsNext))
  {
    if Winner(rule, squares).Some? || squares[i] != Empty then None
    else Some(squares[i := Marked(Mover(xIsNext))])
  }

  /**
    `Game.handlePlay(nextSquares)`: the snapshots after the one on show are
    dropped, `next` is appended, and the new last snapshot is shown.
   */
  function HandlePlay(s: State, next: Squares): (r: State)
    requires 0 <= s.currentMove < |s.history|
    ensures |r.history| == s.currentMove + 2
    ensures r.history[..s.currentMove + 1] == s.history[..s.currentMove + 1]
    ensures r.history[s.currentMove + 1] == next
    ensures r.currentMove == |r.history| - 1
  {
    var nextHistory := s.history[..s.currentMove + 1] + [next];
    State(nextHistory, |nextHistory| - 1)
  }

  /** `Game.jumpTo(nextMove)`: only the move on show changes. */
  function JumpTo(s: State, nextMove: int): State {
    s.(currentMove := nextMove)
  }

  /** A click on square `i` of the board on show, with `onPlay` wired to `handlePlay`. */
  function Click(rule: WinRule, s: State, i: int): (r: State)
    requires ShowsBoard(s)
    requires 0 <= i < Cells
    ensures ShowsBoard(r)
  {
    match HandleClick(rule, CurrentSquares(s), XIsNext(s), i)
    case None => s
    case Some(next) => HandlePlay(s, next)
  }

  /** A run of clicks from `s`, one after another. */
  function Play(rule: WinRule, s: State, clicks: seq<int>): (r: State)
    requires ShowsBoard(s)
    requires forall j :: 0 <= j < |clicks| ==> 0 <= clicks[j] < Cells
    ensures ShowsBoard(r)
    decreases |clicks|
  {
    if clicks == [] then s
    else Play(rule, Click(rule, s, clicks[0]), clicks[1..])
  }

  function PlayerName(p: Player): string {
    if p == X then "X" else "O"
  }

  /** The status line above the board. */
  function Status(rule: WinRule, squares: Squares, xIsNext: bool): string
    requires IsBoard(squares)
  {
    match Winner(rule, squares)
    case Some(w) => "Winner: " + PlayerName(w)
    case None => "Next player: " + PlayerName(Mover(xIsNext))
  }

  /** The move list: one jump button per snapshot. */
  function MoveList(s: State): (labels: seq<string>)
    ensures |labels| == |s.history|
    ensures forall k :: 0 <= k < |labels| ==> labels[k] == MoveLabel(k)
  {
    seq(|s.history|, k requires 0 <= k => MoveLabel(k))
  }

  /** A fresh session is valid, shows the empty board and has X to move. */
  lemma InitialValid()
    ensures Valid(Initial())
    ensures CurrentSquares(Initial()) == EmptyBoard()
    ensures XIsNext(Initial())
  {
    CountZero(EmptyBoard(), Marked(X));
    CountZero(EmptyBoard(), Marked(O));
  }

  /** A board with no marks at all is the empty board. */
  lemma NoMarksIsEmpty(b: Squares)
    requires IsBoard(b)
    requires CountOf(b, Marked(X)) == 0 && CountOf(b, Marked(O)) == 0
    ensures b == EmptyBoard()
  {
    CountZero(b, Marked(X));
    CountZero(b, Marked(O));
    forall k | 0 <= k < Cells ensures b[k] == Empty {
      match b[k]
      case Empty =>
      case Marked(X) =>
      case Marked(O) =>
    }
  }

  /** Snapshot `k` of a valid session holds exactly `k` marks. */
  lemma SnapshotMarks(s: State, k: int)
    requires Valid(s)
    requires 0 <= k < |s.history|
    ensures MarkCount(s.history[k]) == k
    ensures CountOf(s.history[k], Empty) == Cells - k
  {
    CountPartition(s.history[k]);
  }

  /** Placing the mover's mark on an empty square of snapshot `m` gives a valid snapshot `m + 1`. */
  lemma PlaceKeepsSnapshot(b: Squares, m: int, i: int)
    requires m >= 0 && SnapshotOk(b, m)
    requires 0 <= i < Cells && b[i] == Empty
    ensures SnapshotOk(b[i := Marked(Mover(m % 2 == 0))], m + 1)
  {
    var mark := Marked(Mover(m % 2 == 0));
    CountUpdate(b, i, mark, Marked(X));
    CountUpdate(b, i, mark, Marked(O));
  }

  /** Appending a valid next snapshot after the one on show keeps the session invariant. */
  lemma HandlePlayValid(s: State, next: Squares)
    requires Valid(s)
    requires SnapshotOk(next, s.currentMove + 1)
    ensures Valid(HandlePlay(s, next))
  {
    var r := HandlePlay(s, next);
    forall k | 0 <= k < |r.history| ensures SnapshotOk(r.history[k], k) {
      if k <= s.currentMove {
        assert r.history[k] == r.history[..s.currentMove + 1][k];
      }
    }
  }

  /** Every click keeps the session invariant. */
  lemma ClickPreservesValid(rule: WinRule, s: State, i: int)
    requires Valid(s)
    requires 0 <= i < Cells
    ensures Valid(Click(rule, s, i))
  {
    var cur := CurrentSquares(s);
    match HandleClick(rule, cur, XIsNext(s), i)
    case None =>
    case Some(next) =>
      PlaceKeepsSnapshot(cur, s.currentMove, i);
      HandlePlayValid(s, next);
  }

  /** A run of clicks keeps the session invariant. */
  lemma {:induction false} PlayPreservesValid(rule: WinRule, s: State, clicks: seq<int>)
    requires Valid(s)
    requires forall j :: 0 <= j < |clicks| ==> 0 <= clicks[j] < Cells
    ensures Valid(Play(rule, s, clicks))
    decreases |clicks|
  {
    if clicks != [] {
      ClickPreservesValid(rule, s, clicks[0]);
      PlayPreservesValid(rule, Click(rule, s, clicks[0]), clicks[1..]);
    }
  }

  /**
    A jump keeps the history as it is, and keeps the session valid exactly
    when it targets an existing snapshot.
   */
  lemma JumpToValid(s: State, nextMove: int)
    requires Valid(s)
    ensures JumpTo(s, nextMove).history == s.history
    ensures JumpTo(s, nextMove).currentMove == nextMove
    ensures Valid(JumpTo(s, nextMove)) <==> 0 <= nextMove < |s.history|
  {
  }

  /**
    A click leaves the session untouched exactly when the board on show
    already has a winner or square `i` is taken.
   */
  lemma ClickNoOp(rule: WinRule, s: State, i: int)
    requires Valid(s)
    requires 0 <= i < Cells
    ensures Click(rule, s, i) == s <==>
              Winner(rule, CurrentSquares(s)).Some? || CurrentSquares(s)[i] != Empty
  {
    var cur := CurrentSquares(s);
    if Winner(rule, cur).None? && cur[i] == Empty {
      assert Click(rule, s, i).currentMove == s.currentMove + 1;
    }
  }

  /**
    An accepted click: the snapshots up to the one on show survive unchanged,
    one snapshot is appended and shown, and it is the old board on show with
    only square `i` changed, to X after an even number of moves and to O
    after an odd one.
   */
  lemma ClickEffect(rule: WinRule, s: State, i: int) returns (r: State)
    requires Valid(s)
    requires 0 <= i < Cells
    requires Winner(rule, CurrentSquares(s)).None? && CurrentSquares(s)[i] == Empty
    ensures r == Click(rule, s, i)
    ensures r.currentMove == s.currentMove + 1 && |r.history| == s.currentMove + 2
    ensures r.history[..s.currentMove + 1] == s.history[..s.currentMove + 1]
    ensures r.history[r.currentMove] == s.history[s.currentMove][i := Marked(if s.currentMove % 2 == 0 then X else O)]
  {
    var cur := CurrentSquares(s);
    var next := cur[i := Marked(Mover(XIsNext(s)))];
    assert HandleClick(rule, cur, XIsNext(s), i) == Some(next);
    r := HandlePlay(s, next);
  }

  /** Clicking the same square twice has the effect of clicking it once. */
  lemma ClickIdempotent(rule: WinRule, s: State, i: int)
    requires Valid(s)
    requires 0 <= i < Cells
    ensures Valid(Click(rule, s, i))
    ensures Click(rule, Click(rule, s, i), i) == Click(rule, s, i)
  {
    ClickPreservesValid(rule, s, i);
    var r := Click(rule, s, i);
    if r != s {
      ClickNoOp(rule, s, i);
      assert CurrentSquares(r)[i] != Empty;
    }
    ClickNoOp(rule, r, i);
  }

  /**
    Playing after jumping back to snapshot `k` discards the later snapshots:
    the history becomes the first `k + 1` snapshots and the new board.
   */
  lemma RedoTruncation(rule: WinRule, s: State, k: int, i: int)
    requires Valid(s)
    requires 0 <= k < |s.history|
    requires 0 <= i < Cells
    requires Click(rule, JumpTo(s, k), i) != JumpTo(s, k)
    ensures |Click(rule, JumpTo(s, k), i).history| == k + 2
    ensures Click(rule, JumpTo(s, k), i).history[..k + 1] == s.history[..k + 1]
    ensures Click(rule, JumpTo(s, k), i).currentMove == k + 1
  {
  }

  /** Jumping to move 0 always shows the empty board with X to move. */
  lemma JumpToStart(s: State)
    requires Valid(s)
    ensures CurrentSquares(JumpTo(s, 0)) == EmptyBoard()
    ensures XIsNext(JumpTo(s, 0))
  {
    assert SnapshotOk(s.history[0], 0);
    NoMarksIsEmpty(s.history[0]);
  }

  /** The move list labels each snapshot differently, so every button targets one snapshot. */
  lemma MoveListDistinct(s: State, a: int, b: int)
    requires 0 <= a < |s.history| && 0 <= b < |s.history|
    requires a != b
    ensures MoveList(s)[a] != MoveList(s)[b]
  {
    if MoveLabel(a) == MoveLabel(b) {
      MoveLabelInjective(a, b);
    }
  }

  /**
    As written, the first move already wins: once one mark is on the board
    the status names X the winner.
   */
  lemma AsWrittenFirstMoveWins(s: State)
    requires Valid(s)
    requires s.currentMove == 1
    ensures CalculateWinner(CurrentSquares(s)) == Some(X)
    ensures Status(AsWritten, CurrentSquares(s), XIsNext(s)) == "Winner: X"
  {
    var b := CurrentSquares(s);
    assert SnapshotOk(b, 1);
    CountZero(b, Marked(X));
    CountZero(b, Marked(O));
    CalculateWinnerNone(b);
    var w := CalculateWinner(b);
    assert w.Some?;
    CalculateWinnerIsFirstMark(b, w.value);
    var k :| IsFirstMark(b, k) && b[k] == Marked(w.value);
    assert b[k] != Marked(O);
    assert w.value != O;
    assert w == Some(X);
    assert "Winner: " + PlayerName(X) == "Winner: X";
  }

  /** As written, no click is accepted once a move has been made. */
  lemma AsWrittenFrozenAfterFirstMove(s: State, i: int)
    requires Valid(s)
    requires s.currentMove >= 1
    requires 0 <= i < Cells
    ensures Click(AsWritten, s, i) == s
  {
    var b := CurrentSquares(s);
    assert SnapshotOk(b, s.currentMove);
    CalculateWinnerMarked(b);
    ClickNoOp(AsWritten, s, i);
  }

  /**
    As written, a session that starts fresh never holds more than two
    snapshots, whatever is clicked: the game ends with its first move.
   */
  lemma {:induction false} AsWrittenPlayAtMostTwo(s: State, clicks: seq<int>)
    requires Valid(s)
    requires |s.history| <= 2
    requires forall j :: 0 <= j < |clicks| ==> 0 <= clicks[j] < Cells
    ensures |Play(AsWritten, s, clicks).history| <= 2
    decreases |clicks|
  {
    if clicks != [] {
      var i := clicks[0];
      ClickPreservesValid(AsWritten, s, i);
      if s.currentMove >= 1 {
        AsWrittenFrozenAfterFirstMove(s, i);
      }
      AsWrittenPlayAtMostTwo(Click(AsWritten, s, i), clicks[1..]);
    }
  }

  /**
    Under the five-in-a-row rule, the first nine moves are accepted on any
    empty square: neither player can have five marks yet.
   */
  lemma EarlyClickAccepted(s: State, i: int) returns (t: State)
    requires Valid(s)
    requires s.currentMove < 2 * WinningLineLength - 1
    requires 0 <= i < Cells
    requires CurrentSquares(s)[i] == Empty
    ensures t == Click(FiveInRow, s, i)
    ensures Valid(t)
    ensures t.currentMove == s.currentMove + 1 && |t.history| == s.currentMove + 2
    ensures CurrentSquares(t) == CurrentSquares(s)[i := Marked(Mover(XIsNext(s)))]
  {
    var b := CurrentSquares(s);
    assert SnapshotOk(b, s.currentMove);
    IntendedWinnerNeedsFive(b);
    ClickPreservesValid(FiveInRow, s, i);
    t := Click(FiveInRow, s, i);
  }

  /** Five X marks in the first five squares are a horizontal line of five. */
  lemma TopRowFive(b: Squares)
    requires IsBoard(b)
    requires forall j :: 0 <= j < WinningLineLength ==> b[j] == Marked(X)
    ensures HasFiveInRow(b, X)
  {
    forall j | 0 <= j < WinningLineLength ensures At(b, 0, 0, Horizontal, j) == Marked(X) {
      assert At(b, 0, 0, Horizontal, j) == b[j];
    }
    assert FiveFrom(b, 0, 0, Horizontal, X);
  }

  /**
    Under the five-in-a-row rule, X holding the first five squares of the
    top row wins, as long as O has too few marks for a line of their own.
   */
  lemma TopRowXWins(b: Squares)
    requires IsBoard(b)
    requires forall j :: 0 <= j < WinningLineLength ==> b[j] == Marked(X)
    requires CountOf(b, Marked(O)) < WinningLineLength
    ensures IntendedWinner(b) == Some(X)
  {
    TopRowFive(b);
    NoFiveWithFewMarks(b, O);
    IntendedWinnerUnique(b, X);
  }

  /** A valid session showing move 0 shows a board with every square empty. */
  lemma StartIsEmpty(s: State)
    requires Valid(s)
    requires s.currentMove == 0
    ensures forall k :: 0 <= k < Cells ==> CurrentSquares(s)[k] == Empty
  {
    var b := CurrentSquares(s);
    assert SnapshotOk(b, 0);
    CountZero(b, Marked(X));
    CountZero(b, Marked(O));
    forall k | 0 <= k < Cells ensures b[k] == Empty {
      match b[k]
      case Empty =>
      case Marked(X) =>
      case Marked(O) =>
    }
  }

  /** The clicks name pairwise different squares. */
  predicate Distinct(clicks: seq<int>) {
    forall a, b :: 0 <= a < b < |clicks| ==> clicks[a] != clicks[b]
  }

  /**
    The board after marking `clicks` in turn on `b`, starting at move `m`:
    X on even moves, O on odd ones.
   */
  function Place(b: Squares, m: int, clicks: seq<int>): (r: Squares)
    requires IsBoard(b)
    requires forall j :: 0 <= j < |clicks| ==> 0 <= clicks[j] < Cells
    ensures IsBoard(r)
    decreases |clicks|
  {
    if clicks == [] then b
    else Place(b[clicks[0] := Marked(Mover(m % 2 == 0))], m + 1, clicks[1..])
  }

  /** Squares that are not clicked keep their contents. */
  lemma {:induction false} PlaceFrame(b: Squares, m: int, clicks: seq<int>, k: int)
    requires IsBoard(b)
    requires forall j :: 0 <= j < |clicks| ==> 0 <= clicks[j] < Cells
    requires 0 <= k < Cells
    requires forall j :: 0 <= j < |clicks| ==> clicks[j] != k
    ensures Place(b, m, clicks)[k] == b[k]
    decreases |clicks|
  {
    if clicks != [] {
      var rest := clicks[1..];
      assert forall j :: 0 <= j < |rest| ==> rest[j] == clicks[j + 1];
      PlaceFrame(b[clicks[0] := Marked(Mover(m % 2 == 0))], m + 1, rest, k);
    }
  }

  /** The `t`-th of a run of different clicks leaves the mark of move `m + t`. */
  lemma {:induction false} PlaceAt(b: Squares, m: int, clicks: seq<int>, t: int)
    requires IsBoard(b)
    requires forall j :: 0 <= j < |clicks| ==> 0 <= clicks[j] < Cells
    requires Distinct(clicks)
    requires 0 <= t < |clicks|
    ensures Place(b, m, clicks)[clicks[t]] == Marked(Mover((m + t) % 2 == 0))
    decreases |clicks|
  {
    var b' := b[clicks[0] := Marked(Mover(m % 2 == 0))];
    var rest := clicks[1..];
    assert forall j :: 0 <= j < |rest| ==> rest[j] == clicks[j + 1];
    if t == 0 {
      PlaceFrame(b', m + 1, rest, clicks[0]);
    } else {
      PlaceAt(b', m + 1, rest, t - 1);
    }
  }

  /**
    Marking the first of a run of different empty squares leaves the rest of
    the run different and empty, to be marked from the next move on.
   */
  lemma PlaceStep(b: Squares, m: int, clicks: seq<int>)
    requires IsBoard(b)
    requires forall j :: 0 <= j < |clicks| ==> 0 <= clicks[j] < Cells
    requires Distinct(clicks)
    requires forall j :: 0 <= j < |clicks| ==> b[clicks[j]] == Empty
    requires clicks != []
    ensures Place(b, m, clicks) == Place(b[clicks[0] := Marked(Mover(m % 2 == 0))], m + 1, clicks[1..])
    ensures Distinct(clicks[1..])
    ensures forall j :: 0 <= j < |clicks| - 1 ==>
              b[clicks[0] := Marked(Mover(m % 2 == 0))][clicks[1..][j]] == Empty
  {
    var rest := clicks[1..];
    assert forall j :: 0 <= j < |rest| ==> rest[j] == clicks[j + 1];
  }

  /**
    Under the five-in-a-row rule, clicks on different empty squares are all
    accepted while fewer than ten moves have been made: each one appends a
    snapshot and the last one is shown.
   */
  lemma {:induction false} EarlyPlayAccepted(s: State, clicks: seq<int>)
    requires Valid(s)
    requires s.currentMove + |clicks| < 2 * WinningLineLength
    requires forall j :: 0 <= j < |clicks| ==> 0 <= clicks[j] < Cells
    requires Distinct(clicks)
    requires forall j :: 0 <= j < |clicks| ==> CurrentSquares(s)[clicks[j]] == Empty
    ensures Valid(Play(FiveInRow, s, clicks))
    ensures Play(FiveInRow, s, clicks).currentMove == s.currentMove + |clicks|
    ensures clicks != [] ==> |Play(FiveInRow, s, clicks).history| == s.currentMove + |clicks| + 1
    ensures CurrentSquares(Play(FiveInRow, s, clicks)) == Place(CurrentSquares(s), s.currentMove, clicks)
    decreases |clicks|
  {
    if clicks != [] {
      var t := EarlyClickAccepted(s, clicks[0]);
      PlaceStep(CurrentSquares(s), s.currentMove, clicks);
      EarlyPlayAccepted(t, clicks[1..]);
    }
  }

  /** X takes (0,0)..(0,4) while O plays down column 14. */
  const RowOfFiveClicks: seq<int> := [0, 14, 1, 29, 2, 44, 3, 59, 4]

  /** At move 0 every square a run of clicks names is still empty. */
  lemma StartClicksEmpty(s: State, clicks: seq<int>)
    requires Valid(s) && s.currentMove == 0
    requires forall j :: 0 <= j < |clicks| ==> 0 <= clicks[j] < Cells
    ensures forall j :: 0 <= j < |clicks| ==> CurrentSquares(s)[clicks[j]] == Empty
  {
    StartIsEmpty(s);
  }

  /** The nine clicks name nine different squares of the board. */
  lemma RowOfFiveClicksOk()
    ensures |RowOfFiveClicks| == 2 * WinningLineLength - 1
    ensures forall j :: 0 <= j < |RowOfFiveClicks| ==> 0 <= RowOfFiveClicks[j] < Cells
    ensures Distinct(RowOfFiveClicks)
  {
  }

  /** The nine clicks, marked in turn from move 0, put X on the first five squares. */
  lemma RowOfFivePlaced(b: Squares)
    requires IsBoard(b)
    ensures forall j :: 0 <= j < WinningLineLength ==> Place(b, 0, RowOfFiveClicks)[j] == Marked(X)
  {
    var clicks := RowOfFiveClicks;
    PlaceAt(b, 0, clicks, 0);
    PlaceAt(b, 0, clicks, 2);
    PlaceAt(b, 0, clicks, 4);
    PlaceAt(b, 0, clicks, 6);
    PlaceAt(b, 0, clicks, 8);
  }

  /**
    Under the five-in-a-row rule, starting from move 0 (a fresh session, or
    any session after jumping back to the start), nine clicks on different
    squares that leave X on (0,0)..(0,4) end the game with X the winner,
    after nine accepted moves.
   */
  lemma RunOfNineWins(start: State, clicks: seq<int>)
    requires Valid(start) && start.currentMove == 0
    requires |clicks| == 2 * WinningLineLength - 1
    requires forall j :: 0 <= j < |clicks| ==> 0 <= clicks[j] < Cells
    requires Distinct(clicks)
    requires forall j :: 0 <= j < WinningLineLength ==> Place(CurrentSquares(start), 0, clicks)[j] == Marked(X)
    ensures var s := Play(FiveInRow, start, clicks);
            |s.history| == 10 && s.currentMove == 9 && IntendedWinner(CurrentSquares(s)) == Some(X)
  {
    StartClicksEmpty(start, clicks);
    EarlyPlayAccepted(start, clicks);
    var b := CurrentSquares(Play(FiveInRow, start, clicks));
    assert SnapshotOk(b, 9);
    TopRowXWins(b);
  }

  /** X taking (0,0)..(0,4) while O plays down column 14 wins on X's fifth move. */
  lemma RowOfFiveWins(start: State)
    requires Valid(start) && start.currentMove == 0
    ensures var s := Play(FiveInRow, start, RowOfFiveClicks);
            |s.history| == 10 && s.currentMove == 9 && IntendedWinner(CurrentSquares(s)) == Some(X)
  {
    RowOfFiveClicksOk();
    RowOfFivePlaced(CurrentSquares(start));
    RunOfNineWins(start, RowOfFiveClicks);
  }

  /**
    As written, the first click of a session at move 0 is accepted and at
    once declared the winner, whichever square it marks.
   */
  lemma AsWrittenFirstClickWins(s: State, i: int) returns (t: State)
    requires Valid(s) && s.currentMove == 0
    requires 0 <= i < Cells
    ensures t == Click(AsWritten, s, i)
    ensures Valid(t) && t.currentMove == 1 && |t.history| == 2
    ensures CurrentSquares(t)[i] == Marked(X)
    ensures CalculateWinner(CurrentSquares(t)) == Some(X)
  {
    StartIsEmpty(s);
    CalculateWinnerNone(CurrentSquares(s));
    t := ClickEffect(AsWritten, s, i);
    ClickPreservesValid(AsWritten, s, i);
    AsWrittenFirstMoveWins(t);
  }

  /** As written, once a move has been made, no run of clicks changes anything. */
  lemma {:induction false} AsWrittenPlayFrozen(s: State, clicks: seq<int>)
    requires Valid(s)
    requires s.currentMove >= 1
    requires forall j :: 0 <= j < |clicks| ==> 0 <= clicks[j] < Cells
    ensures Play(AsWritten, s, clicks) == s
    decreases |clicks|
  {
    if clicks != [] {
      AsWrittenFrozenAfterFirstMove(s, clicks[0]);
      AsWrittenPlayFrozen(s, clicks[1..]);
    }
  }

}
