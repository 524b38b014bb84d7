/**
  Win detection: `checkWinningLine` and `calculateWinner` exactly as written,
  and the five-in-a-row check they were meant to implement.

  As written, `count` starts as the number 0, takes the first square's mark,
  and a later empty, off-board or different square only stops the walk; the
  line is then reported whenever `count` holds a mark. So a line "wins" as
  soon as its first square is marked, and the scan reports the first marked
  square of the board. `LineStrict` instead abandons the direction on the
  first square that breaks the run.
 */
module WinDetector {
  import opened Grid
  import opened Lines

  /** The variable `count`: the number 0 until a mark is seen, then that mark. */
  datatype Count = Zero | Seen(mark: Player)

  /** Which line check the board scan applies: the code's, or five in a row. */
  datatype WinRule = AsWritten | FiveInRow

  /**
    The step loop of `checkWinningLine` as written, resumed at `step` with the
    current `count`. Once a mark is held it is never given up, and from a
    fresh start the first square visited alone decides the result.
   */
  function Scan(sq: Squares, row: int, col: int, d: Direction, step: nat, count: Count): (r: Count)
    requires IsBoard(sq)
    ensures count.Seen? ==> r == count
    ensures count == Zero && step < WinningLineLength ==>
              r == (match At(sq, row, col, d, step)
                    case Empty => Zero
                    case Marked(p) => Seen(p))
    decreases WinningLineLength - step
  {
    if step >= WinningLineLength then count
    else
      match At(sq, row, col, d, step)
      case Empty => count
      case Marked(p) =>
        if count == Zero then Scan(sq, row, col, d, step + 1, Seen(p))
        else if count.mark != p then count
        else Scan(sq, row, col, d, step + 1, count)
  }

  /**
    The direction loop of `checkWinningLine` as written, over the directions
    `ds` still to try: a direction whose walk ends holding a mark returns it.
   */
  function CheckDirections(sq: Squares, row: int, col: int, ds: seq<Direction>): (r: Option<Player>)
    requires IsBoard(sq)
    ensures ds == [] ==> r == None
    ensures ds != [] ==> r == MarkOf(StartCell(sq, row, col))
  {
    if ds == [] then None
    else
      match Scan(sq, row, col, ds[0], 0, Zero)
      case Seen(m) => Some(m)
      case Zero => CheckDirections(sq, row, col, ds[1..])
  }

  /**
    `checkWinningLine(startRow, startCol, squares)` as written: it reports
    the start square's own mark, and nothing when that square is empty or
    off the board, whatever the rest of the line holds.
   */
  function CheckWinningLine(startRow: int, startCol: int, sq: Squares): (r: Option<Player>)
    requires IsBoard(sq)
    ensures r == MarkOf(StartCell(sq, startRow, startCol))
  {
    CheckDirections(sq, startRow, startCol, Directions)
  }

  /**
    The five-in-a-row line check: both loops of `checkWinningLine` as one
    walk over the directions `ds` still to try, at `step` of the first of
    them with the current `count`. An empty, off-board or different square
    abandons the direction and restarts from a zero count on the next one;
    a walk that reaches WinningLineLength steps reports its mark.
   */
  function LineStrict(sq: Squares, row: int, col: int, ds: seq<Direction>, step: nat, count: Count): Option<Player>
    requires IsBoard(sq)
    decreases |ds|, WinningLineLength - step
  {
    if ds == [] then None
    else if step >= WinningLineLength then
      if count.Seen? then Some(count.mark) else LineStrict(sq, row, col, ds[1..], 0, Zero)
    else
      match At(sq, row, col, ds[0], step)
      case Empty => LineStrict(sq, row, col, ds[1..], 0, Zero)
      case Marked(p) =>
        if count == Zero then LineStrict(sq, row, col, ds, step + 1, Seen(p))
        else if count.mark != p then LineStrict(sq, row, col, ds[1..], 0, Zero)
        else LineStrict(sq, row, col, ds, step + 1, count)
  }

  /** The five-in-a-row check from (row, col) over the directions `ds`. */
  function CheckLineStrict(sq: Squares, row: int, col: int, ds: seq<Direction>): Option<Player>
    requires IsBoard(sq)
  {
    LineStrict(sq, row, col, ds, 0, Zero)
  }

  /** Steps 0 .. `step` - 1 of the walk along `d` all hold `p`'s mark. */
  ghost predicate RunUpTo(sq: Squares, row: int, col: int, d: Direction, step: int, p: Player)
    requires IsBoard(sq)
  {
    forall s :: 0 <= s < step ==> At(sq, row, col, d, s) == Marked(p)
  }

  /**
    From a point the walk can reach (a zero count only at step 0, and a held
    mark repeated by every step so far), the line check reports a player only
    along a line of five of theirs among `ds`, and reports no one only when
    no direction of `ds` holds five of anyone's.
   */
  lemma {:induction false} LineStrictFive(sq: Squares, row: int, col: int, ds: seq<Direction>, step: nat, count: Count)
    requires IsBoard(sq)
    requires step <= WinningLineLength
    requires count == Zero <==> step == 0
    requires ds != [] && count.Seen? ==> RunUpTo(sq, row, col, ds[0], step, count.mark)
    ensures LineStrict(sq, row, col, ds, step, count).Some? ==>
              exists d :: d in ds && FiveFrom(sq, row, col, d, LineStrict(sq, row, col, ds, step, count).value)
    ensures LineStrict(sq, row, col, ds, step, count).None? ==>
              forall d, p :: d in ds ==> !FiveFrom(sq, row, col, d, p)
    decreases |ds|, WinningLineLength - step
  {
    if ds == [] {
      return;
    }
    var d0 := ds[0];
    var rest := ds[1..];
    assert forall d :: d in ds ==> d == d0 || d in rest;
    if step >= WinningLineLength {
      assert FiveFrom(sq, row, col, d0, count.mark);
      return;
    }
    match At(sq, row, col, d0, step)
    case Empty =>
      LineStrictFive(sq, row, col, rest, 0, Zero);
      forall p ensures !FiveFrom(sq, row, col, d0, p) {
        assert At(sq, row, col, d0, step) != Marked(p);
      }
    case Marked(p) =>
      if count == Zero {
        LineStrictFive(sq, row, col, ds, step + 1, Seen(p));
      } else if count.mark != p {
        LineStrictFive(sq, row, col, rest, 0, Zero);
        forall q ensures !FiveFrom(sq, row, col, d0, q) {
          assert At(sq, row, col, d0, 0) == Marked(count.mark);
          assert At(sq, row, col, d0, step) == Marked(p);
        }
      } else {
        LineStrictFive(sq, row, col, ds, step + 1, count);
      }
  }

  /**
    The five-in-a-row check reports a player exactly when one of the
    directions `ds` holds five of that player's marks from (row, col).
   */
  lemma CheckLineStrictFive(sq: Squares, row: int, col: int, ds: seq<Direction>)
    requires IsBoard(sq)
    ensures CheckLineStrict(sq, row, col, ds).Some? ==>
              exists d :: d in ds && FiveFrom(sq, row, col, d, CheckLineStrict(sq, row, col, ds).value)
    ensures CheckLineStrict(sq, row, col, ds).None? ==>
              forall d, p :: d in ds ==> !FiveFrom(sq, row, col, d, p)
  {
    LineStrictFive(sq, row, col, ds, 0, Zero);
  }

  /** The line check from (row, col) under `rule`. */
  function CheckLine(rule: WinRule, row: int, col: int, sq: Squares): Option<Player>
    requires IsBoard(sq)
  {
    match rule
    case AsWritten => CheckWinningLine(row, col, sq)
    case FiveInRow => CheckLineStrict(sq, row, col, Directions)
  }

  /** The line check from the square at flat position `k`. */
  function CheckAt(rule: WinRule, sq: Squares, k: int): Option<Player>
    requires IsBoard(sq)
    requires 0 <= k < Cells
  {
    CheckLine(rule, k / Size, k % Size, sq)
  }

  /** A line check with the signature of `checkWinningLine(startRow, startCol, squares)`. */
  type LineCheck = (int, int, Squares) -> Option<Player>

  /** The line check under `rule`; the scan only ever applies it to a full board. */
  function LineCheckOf(rule: WinRule): LineCheck {
    (row, col, sq) => if IsBoard(sq) then CheckLine(rule, row, col, sq) else None
  }

  /** `check` applied at flat position `k` of `sq`. */
  function Probe(check: LineCheck, sq: Squares, k: int): Option<Player> {
    check(k / Size, k % Size, sq)
  }

  /** `k` is the first position at or after `lo`, in row-major order, where `check` reports a player. */
  ghost predicate FirstReport(check: LineCheck, sq: Squares, lo: int, k: int) {
    && 0 <= lo <= k < Cells
    && Probe(check, sq, k).Some?
    && forall j :: lo <= j < k ==> Probe(check, sq, j).None?
  }

  /**
    The inner `for (col ...)` loop of `calculateWinner`, from column `col` of
    row `row`, calling `check` on each square; the measure is the number of
    squares not yet visited.
   */
  function ScanCols(check: LineCheck, sq: Squares, row: int, col: int): Option<Player>
    requires IsBoard(sq)
    requires 0 <= row < Size && 0 <= col <= Size
    decreases |sq| - (row * Size + col)
  {
    if col == Size then None
    else
      match check(row, col, sq)
      case Some(w) => Some(w)
      case None => ScanCols(check, sq, row, col + 1)
  }

  /** The outer `for (row ...)` loop of `calculateWinner`, from row `row`. */
  function ScanRows(check: LineCheck, sq: Squares, row: int): Option<Player>
    requires IsBoard(sq)
    requires 0 <= row <= Size
    decreases |sq| - row * Size
  {
    if row == Size then None
    else
      match ScanCols(check, sq, row, 0)
      case Some(w) => Some(w)
      case None => ScanRows(check, sq, row + 1)
  }

  /** The column loop returns the first report in the rest of its row. */
  lemma {:induction false} ScanColsFirstReport(check: LineCheck, sq: Squares, row: int, col: int)
    requires IsBoard(sq)
    requires 0 <= row < Size && 0 <= col <= Size
    ensures ScanCols(check, sq, row, col).None? ==>
              forall k :: row * Size + col <= k < row * Size + Size ==> Probe(check, sq, k).None?
    ensures ScanCols(check, sq, row, col).Some? ==>
              exists k :: k < row * Size + Size && FirstReport(check, sq, row * Size + col, k)
                          && Probe(check, sq, k) == ScanCols(check, sq, row, col)
    decreases Size - col
  {
    if col < Size {
      var k := Index(row, col);
      if check(row, col, sq).Some? {
        assert FirstReport(check, sq, k, k);
      } else {
        ScanColsFirstReport(check, sq, row, col + 1);
      }
    }
  }

  /** The row loop returns the first report, in row-major order from row `row`. */
  lemma {:induction false} ScanRowsFirstReport(check: LineCheck, sq: Squares, row: int)
    requires IsBoard(sq)
    requires 0 <= row <= Size
    ensures ScanRows(check, sq, row).None? <==>
              forall k :: row * Size <= k < Cells ==> Probe(check, sq, k).None?
    ensures ScanRows(check, sq, row).Some? ==>
              exists k :: FirstReport(check, sq, row * Size, k) && Probe(check, sq, k) == ScanRows(check, sq, row)
    decreases Size - row
  {
    if row < Size {
      ScanColsFirstReport(check, sq, row, 0);
      ScanRowsFirstReport(check, sq, row + 1);
    }
  }

  /**
    The board scan reports nothing exactly when no line check does, and
    otherwise reports what the first reporting check, in row-major order, found.
   */
  lemma WinnerFirstHit(rule: WinRule, sq: Squares)
    requires IsBoard(sq)
    ensures Winner(rule, sq).None? <==> forall k :: 0 <= k < Cells ==> CheckAt(rule, sq, k).None?
    ensures Winner(rule, sq).Some? ==>
              exists k :: && 0 <= k < Cells
                          && CheckAt(rule, sq, k) == Winner(rule, sq)
                          && forall j :: 0 <= j < k ==> CheckAt(rule, sq, j).None?
  {
    var check := LineCheckOf(rule);
    ScanRowsFirstReport(check, sq, 0);
    assert forall k :: 0 <= k < Cells ==> Probe(check, sq, k) == CheckAt(rule, sq, k);
  }

  /** The board scan under `rule`. */
  function Winner(rule: WinRule, sq: Squares): Option<Player>
    requires IsBoard(sq)
  {
    ScanRows(LineCheckOf(rule), sq, 0)
  }

  /** `calculateWinner(squares)` as written. */
  function CalculateWinner(sq: Squares): Option<Player>
    requires IsBoard(sq)
  {
    Winner(AsWritten, sq)
  }

  /** The winner the game means to report: the first five in a row found. */
  function IntendedWinner(sq: Squares): Option<Player>
    requires IsBoard(sq)
  {
    Winner(FiveInRow, sq)
  }

  /** Position `k` holds the first mark on the board in row-major order. */
  ghost predicate IsFirstMark(sq: Squares, k: int) {
    && 0 <= k < |sq|
    && sq[k] != Empty
    && forall j :: 0 <= j < k ==> sq[j] == Empty
  }

  /** As written, the line check from position `k` reports exactly the mark on square `k`. */
  lemma CheckAtAsWritten(sq: Squares, k: int)
    requires IsBoard(sq)
    requires 0 <= k < Cells
    ensures CheckAt(AsWritten, sq, k) == MarkOf(sq[k])
  {
    PositionOfIndex(k);
  }

  /** As written, the scan finds a winner exactly when some square is marked. */
  lemma CalculateWinnerNone(sq: Squares)
    requires IsBoard(sq)
    ensures CalculateWinner(sq) == None <==> forall k :: 0 <= k < Cells ==> sq[k] == Empty
  {
    WinnerFirstHit(AsWritten, sq);
    forall k | 0 <= k < Cells {
      CheckAtAsWritten(sq, k);
    }
  }

  /** As written, any board with a mark on it has a winner. */
  lemma CalculateWinnerMarked(sq: Squares)
    requires IsBoard(sq)
    requires MarkCount(sq) > 0
    ensures CalculateWinner(sq).Some?
  {
    CountZero(sq, Marked(X));
    CountZero(sq, Marked(O));
    CalculateWinnerNone(sq);
  }

  /** There is only one first mark. */
  lemma FirstMarkUnique(sq: Squares, a: int, b: int)
    requires IsFirstMark(sq, a) && IsFirstMark(sq, b)
    ensures a == b
  {
  }

  /**
    As written, the winner is `p` exactly when the first marked square in
    row-major order holds `p`: any single mark "wins".
   */
  lemma CalculateWinnerIsFirstMark(sq: Squares, p: Player)
    requires IsBoard(sq)
    ensures CalculateWinner(sq) == Some(p) <==> exists k :: IsFirstMark(sq, k) && sq[k] == Marked(p)
  {
    WinnerFirstHit(AsWritten, sq);
    var r := CalculateWinner(sq);
    if r.Some? {
      var k :| 0 <= k < Cells && CheckAt(AsWritten, sq, k) == r && forall j :: 0 <= j < k ==> CheckAt(AsWritten, sq, j).None?;
      forall j | 0 <= j <= k {
        CheckAtAsWritten(sq, j);
      }
      assert IsFirstMark(sq, k) && sq[k] == Marked(r.value);
      forall k' | IsFirstMark(sq, k') ensures k' == k {
        FirstMarkUnique(sq, k, k');
      }
    } else {
      CalculateWinnerNone(sq);
    }
  }

  /** The corrected scan only reports a player who holds five in a row. */
  lemma IntendedWinnerSound(sq: Squares)
    requires IsBoard(sq)
    ensures IntendedWinner(sq).Some? ==> HasFiveInRow(sq, IntendedWinner(sq).value)
  {
    WinnerFirstHit(FiveInRow, sq);
    var r := IntendedWinner(sq);
    if r.Some? {
      var k :| 0 <= k < Cells && CheckAt(FiveInRow, sq, k) == r;
      CheckLineStrictFive(sq, k / Size, k % Size, Directions);
      var d :| d in Directions && FiveFrom(sq, k / Size, k % Size, d, r.value);
    }
  }

  /** The corrected scan reports someone whenever a player holds five in a row. */
  lemma IntendedWinnerComplete(sq: Squares, p: Player)
    requires IsBoard(sq)
    requires HasFiveInRow(sq, p)
    ensures IntendedWinner(sq).Some?
  {
    var row, col, d :| FiveFrom(sq, row, col, d, p);
    FiveStartsOnBoard(sq, row, col, d, p);
    AllDirectionsTried(d);
    var k := Index(row, col);
    CheckLineStrictFive(sq, row, col, Directions);
    assert CheckAt(FiveInRow, sq, k).Some?;
    WinnerFirstHit(FiveInRow, sq);
  }

  /** When only `p` holds five in a row, the corrected scan names `p`. */
  lemma IntendedWinnerUnique(sq: Squares, p: Player)
    requires IsBoard(sq)
    requires HasFiveInRow(sq, p) && !HasFiveInRow(sq, p.Other())
    ensures IntendedWinner(sq) == Some(p)
  {
    IntendedWinnerComplete(sq, p);
    IntendedWinnerSound(sq);
    var q := IntendedWinner(sq).value;
    assert q == p || q == p.Other();
  }

  /** On an all-empty board, such as the starting one, neither rule reports a winner. */
  lemma EmptyBoardNoWinner(rule: WinRule, sq: Squares)
    requires IsBoard(sq)
    requires forall k :: 0 <= k < |sq| ==> sq[k] == Empty
    ensures Winner(rule, sq) == None
  {
    match rule
    case AsWritten =>
      CalculateWinnerNone(sq);
    case FiveInRow =>
      CountZero(sq, Marked(X));
      CountZero(sq, Marked(O));
      IntendedWinnerNeedsFive(sq);
  }

  /** Fewer than five marks of each player leave the corrected scan with no winner. */
  lemma IntendedWinnerNeedsFive(sq: Squares)
    requires IsBoard(sq)
    requires CountOf(sq, Marked(X)) < WinningLineLength && CountOf(sq, Marked(O)) < WinningLineLength
    ensures IntendedWinner(sq) == None
  {
    NoFiveWithFewMarks(sq, X);
    NoFiveWithFewMarks(sq, O);
    IntendedWinnerSound(sq);
    match IntendedWinner(sq)
    case None =>
    case Some(X) =>
    case Some(O) =>
  }

  /** The board with a single X in the centre square. */
  function LoneCentreX(): (b: Squares)
    ensures IsBoard(b)
  {
    EmptyBoard()[Index(Size / 2, Size / 2) := Marked(X)]
  }

  /** The lone X is the first mark on the board and holds the only mark. */
  lemma LoneCentreXMarks()
    ensures IsFirstMark(LoneCentreX(), Index(Size / 2, Size / 2))
    ensures CountOf(LoneCentreX(), Marked(X)) == 1 && CountOf(LoneCentreX(), Marked(O)) == 0
  {
    var e := EmptyBoard();
    var c := Index(Size / 2, Size / 2);
    CountZero(e, Marked(X));
    CountZero(e, Marked(O));
    CountUpdate(e, c, Marked(X), Marked(X));
    CountUpdate(e, c, Marked(X), Marked(O));
  }

  /**
    Where the code and its stated intent part: a board holding a single mark
    of `p` and nothing else is reported as won by `p`, though nobody holds
    five in a row and the corrected scan reports no one.
   */
  lemma LoneMarkWins(sq: Squares, p: Player)
    requires IsBoard(sq)
    requires CountOf(sq, Marked(p)) == 1 && CountOf(sq, Marked(p.Other())) == 0
    ensures CalculateWinner(sq) == Some(p)
    ensures !HasFiveInRow(sq, X) && !HasFiveInRow(sq, O)
    ensures IntendedWinner(sq) == None
  {
    CalculateWinnerMarked(sq);
    var w := CalculateWinner(sq).value;
    CalculateWinnerIsFirstMark(sq, w);
    var k :| IsFirstMark(sq, k) && sq[k] == Marked(w);
    CountZero(sq, Marked(p.Other()));
    assert w != p.Other();
    NoFiveWithFewMarks(sq, X);
    NoFiveWithFewMarks(sq, O);
    IntendedWinnerNeedsFive(sq);
  }
}
