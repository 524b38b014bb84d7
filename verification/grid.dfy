/**
  Geometry of the 15x15 Gomoku board: the flat row-major array of squares,
  its cells, and counting the marks on it.
 */
module Grid {

  /** Side length of the board. */
  const Size: int := 15

  /** Number of squares; the board is one flat array indexed row * Size + col. */
  const Cells: int := Size * Size

  /** Number of consecutive squares a winning line is meant to span. */
  const WinningLineLength: int := 5

  datatype Option<+T> = None | Some(value: T)

  datatype Player = X | O {
    function Other(): Player {
      if this == X then O else X
    }
  }

  /** A square: `null` before anyone plays there, otherwise the mark 'X' or 'O'. */
  datatype Cell = Empty | Marked(owner: Player)

  type Squares = seq<Cell>

  predicate IsBoard(sq: Squares) {
    |sq| == Cells
  }

  /** The value the game reads out of a square: `null` or the player's mark. */
  function MarkOf(c: Cell): (r: Option<Player>)
    ensures r.None? <==> c == Empty
    ensures r.Some? ==> c == Marked(r.value)
  {
    match c
    case Empty => None
    case Marked(p) => Some(p)
  }

  predicate InBounds(row: int, col: int) {
    0 <= row < Size && 0 <= col < Size
  }

  /** Position of square (row, col) in the flat array; it decodes back to (row, col). */
  function Index(row: int, col: int): (i: nat)
    requires InBounds(row, col)
    ensures i < Cells
    ensures i / Size == row && i % Size == col
  {
    row * Size + col
  }

  /** Every array position is the index of exactly the square its quotient and remainder name. */
  lemma PositionOfIndex(k: int)
    requires 0 <= k < Cells
    ensures InBounds(k / Size, k % Size)
    ensures Index(k / Size, k % Size) == k
  {
  }

  /** The square at (row, col), with anything off the board reading as empty. */
  function StartCell(sq: Squares, row: int, col: int): (c: Cell)
    requires IsBoard(sq)
    ensures !InBounds(row, col) ==> c == Empty
    ensures InBounds(row, col) ==> c == sq[row * Size + col]
  {
    if InBounds(row, col) then sq[Index(row, col)] else Empty
  }

  /** The starting board: every square empty. */
  function EmptyBoard(): (b: Squares)
    ensures IsBoard(b)
    ensures forall k :: 0 <= k < |b| ==> b[k] == Empty
  {
    seq(Cells, _ => Empty)
  }

  /** Number of squares of `sq` that hold `c`. */
  function CountOf(sq: seq<Cell>, c: Cell): (n: nat)
    ensures n <= |sq|
  {
    if |sq| == 0 then 0
    else CountOf(sq[..|sq| - 1], c) + (if sq[|sq| - 1] == c then 1 else 0)
  }

  /** Number of non-empty squares. */
  function MarkCount(sq: seq<Cell>): nat {
    CountOf(sq, Marked(X)) + CountOf(sq, Marked(O))
  }

  /** A value is absent exactly when it is counted zero times. */
  lemma {:induction false} CountZero(sq: seq<Cell>, c: Cell)
    ensures CountOf(sq, c) == 0 <==> forall k :: 0 <= k < |sq| ==> sq[k] != c
  {
    if |sq| > 0 {
      var init := sq[..|sq| - 1];
      CountZero(init, c);
      assert forall k :: 0 <= k < |init| ==> init[k] == sq[k];
    }
  }

  /** Every square is empty or holds one of the two marks. */
  lemma {:induction false} CountPartition(sq: seq<Cell>)
    ensures CountOf(sq, Empty) + MarkCount(sq) == |sq|
  {
    if |sq| > 0 {
      CountPartition(sq[..|sq| - 1]);
      match sq[|sq| - 1]
      case Empty =>
      case Marked(X) =>
      case Marked(O) =>
    }
  }

  /** Overwriting one square moves one unit of count from its old value to its new one. */
  lemma {:induction false} CountUpdate(sq: seq<Cell>, i: int, v: Cell, c: Cell)
    requires 0 <= i < |sq|
    ensures CountOf(sq[i := v], c)
         == CountOf(sq, c) - (if sq[i] == c then 1 else 0) + (if v == c then 1 else 0)
  {
    var last := |sq| - 1;
    var sq' := sq[i := v];
    if i == last {
      assert sq'[..last] == sq[..last];
    } else {
      assert sq'[..last] == sq[..last][i := v];
      CountUpdate(sq[..last], i, v, c);
    }
  }

  predicate StrictlyIncreasing(ps: seq<int>) {
    forall a, b :: 0 <= a < b < |ps| ==> ps[a] < ps[b]
  }

  /** Distinct positions that all hold `c` are each counted. */
  lemma {:induction false} CountAtLeast(sq: seq<Cell>, c: Cell, ps: seq<int>)
    requires StrictlyIncreasing(ps)
    requires forall j :: 0 <= j < |ps| ==> 0 <= ps[j] < |sq| && sq[ps[j]] == c
    ensures CountOf(sq, c) >= |ps|
  {
    if |ps| > 0 {
      assert 0 <= ps[0] < |sq|;
      var last := |sq| - 1;
      var init := sq[..last];
      var top := ps[|ps| - 1];
      if top == last {
        var rest := ps[..|ps| - 1];
        assert forall j :: 0 <= j < |rest| ==> rest[j] < top;
        CountAtLeast(init, c, rest);
      } else {
        CountAtLeast(init, c, ps);
      }
    }
  }
}
