/**
  The four line directions the win check walks, the squares a walk visits,
  and what it means for a player to hold five in a row.
 */
module Lines {
  import opened Grid

  /** The four directions of the `directions` table, as (row step, column step). */
  datatype Direction = Horizontal | Vertical | Diagonal | AntiDiagonal {
    function DRow(): int {
      if this == Horizontal then 0 else 1
    }

    function DCol(): int {
      match this
      case Horizontal => 1
      case Vertical => 0
      case Diagonal => 1
      case AntiDiagonal => -1
    }

    /** How far one step moves in the flat array. */
    function Offset(): (off: int)
      ensures 1 <= off <= Size + 1
      ensures off == DRow() * Size + DCol()
    {
      match this
      case Horizontal => 1
      case Vertical => Size
      case Diagonal => Size + 1
      case AntiDiagonal => Size - 1
    }
  }

  /** The directions in the order the win check tries them. */
  const Directions: seq<Direction> := [Horizontal, Vertical, Diagonal, AntiDiagonal]

  /** Step `j` of a walk lands `j` offsets further along the flat array. */
  lemma StepIndex(row: int, col: int, d: Direction, j: int)
    ensures (row + d.DRow() * j) * Size + (col + d.DCol() * j) == row * Size + col + j * d.Offset()
  {
    match d
    case Horizontal =>
    case Vertical =>
    case Diagonal =>
    case AntiDiagonal =>
  }

  /**
    The square visited at `step` when walking from (row, col) along `d`; a
    position off the board reads as empty, which is how the bounds guard
    treats it before the array is ever read.
   */
  function At(sq: Squares, row: int, col: int, d: Direction, step: int): (c: Cell)
    requires IsBoard(sq)
    ensures step == 0 ==> c == StartCell(sq, row, col)
    ensures !InBounds(row + d.DRow() * step, col + d.DCol() * step) ==> c == Empty
    ensures InBounds(row + d.DRow() * step, col + d.DCol() * step) ==>
              0 <= row * Size + col + step * d.Offset() < Cells
              && c == sq[row * Size + col + step * d.Offset()]
  {
    StepIndex(row, col, d, step);
    StartCell(sq, row + d.DRow() * step, col + d.DCol() * step)
  }

  /** Steps `from` .. WinningLineLength - 1 of the walk all hold `p`'s mark. */
  ghost predicate RunFrom(sq: Squares, row: int, col: int, d: Direction, from: int, p: Player)
    requires IsBoard(sq)
  {
    forall s :: from <= s < WinningLineLength ==> At(sq, row, col, d, s) == Marked(p)
  }

  /** Five squares starting at (row, col) along `d`, all on the board and all `p`'s. */
  ghost predicate FiveFrom(sq: Squares, row: int, col: int, d: Direction, p: Player)
    requires IsBoard(sq)
  {
    RunFrom(sq, row, col, d, 0, p)
  }

  /** `p` holds five in a row somewhere: the game's stated winning condition. */
  ghost predicate HasFiveInRow(sq: Squares, p: Player)
    requires IsBoard(sq)
  {
    exists row, col, d :: FiveFrom(sq, row, col, d, p)
  }

  /** Every direction value is one the win check tries. */
  lemma AllDirectionsTried(d: Direction)
    ensures d in Directions
  {
  }

  /** A line of five starts on the board. */
  lemma FiveStartsOnBoard(sq: Squares, row: int, col: int, d: Direction, p: Player)
    requires IsBoard(sq)
    requires FiveFrom(sq, row, col, d, p)
    ensures InBounds(row, col)
    ensures sq[Index(row, col)] == Marked(p)
  {
    assert At(sq, row, col, d, 0) == Marked(p);
  }

  /** A line of five occupies five distinct squares, so fewer than five marks cannot form one. */
  lemma {:induction false} NoFiveWithFewMarks(sq: Squares, p: Player)
    requires IsBoard(sq)
    requires CountOf(sq, Marked(p)) < WinningLineLength
    ensures !HasFiveInRow(sq, p)
  {
    if HasFiveInRow(sq, p) {
      var row, col, d :| FiveFrom(sq, row, col, d, p);
      var b := row * Size + col;
      var off := d.Offset();
      var ps := seq(WinningLineLength, j => b + j * off);
      forall a, c | 0 <= a < c < |ps| ensures ps[a] < ps[c] {
        assert c * off - a * off == (c - a) * off;
      }
      forall j | 0 <= j < |ps|
        ensures 0 <= ps[j] < |sq| && sq[ps[j]] == Marked(p)
      {
        assert At(sq, row, col, d, j) == Marked(p);
        StepIndex(row, col, d, j);
      }
      CountAtLeast(sq, Marked(p), ps);
    }
  }
}
