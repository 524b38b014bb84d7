/**
  The move list's button labels: decimal rendering of a move number and the
  label text for each snapshot of the history.
 */
module Labels {

  const StartLabel: string := "Go to game start"
  const MovePrefix: string := "Go to move #"

  predicate IsDigits(s: string) {
    forall i :: 0 <= i < |s| ==> '0' <= s[i] <= '9'
  }

  function DigitChar(d: int): (c: char)
    requires 0 <= d < 10
    ensures '0' <= c <= '9'
    ensures c as int - '0' as int == d
  {
    ('0' as int + d) as char
  }

  /** Decimal text of `n` as a JS number prints it: digits only, no leading zero. */
  function NatToString(n: nat): (s: string)
    ensures |s| >= 1 && IsDigits(s)
    ensures s[0] == '0' ==> n == 0
    decreases n
  {
    if n < 10 then [DigitChar(n)]
    else NatToString(n / 10) + [DigitChar(n % 10)]
  }

  /** Value of a string of decimal digits. */
  function ParseDigits(s: string): nat
    requires IsDigits(s)
  {
    if |s| == 0 then 0
    else ParseDigits(s[..|s| - 1]) * 10 + (s[|s| - 1] as int - '0' as int)
  }

  /** Reading back the decimal text of `n` gives `n`. */
  lemma {:induction false} ParseNatToString(n: nat)
    ensures ParseDigits(NatToString(n)) == n
    decreases n
  {
    var s := NatToString(n);
    if n >= 10 {
      ParseNatToString(n / 10);
      assert s[..|s| - 1] == NatToString(n / 10);
    }
  }

  /** The label of the button that jumps to snapshot `move`. */
  function MoveLabel(move: nat): string {
    if move > 0 then MovePrefix + NatToString(move) else StartLabel
  }

  /**
    Snapshot 0 is labelled "Go to game start"; every later snapshot `k` is
    labelled "Go to move #" followed by digits that read back as `k`.
   */
  lemma MoveLabelDecodes(move: nat)
    ensures move == 0 ==> MoveLabel(move) == StartLabel
    ensures move > 0 ==>
              && |MoveLabel(move)| > |MovePrefix|
              && MoveLabel(move)[..|MovePrefix|] == MovePrefix
              && IsDigits(MoveLabel(move)[|MovePrefix|..])
              && ParseDigits(MoveLabel(move)[|MovePrefix|..]) == move
  {
    if move > 0 {
      var digits := NatToString(move);
      assert MoveLabel(move)[|MovePrefix|..] == digits;
      ParseNatToString(move);
    }
  }

  /** Different snapshots get different labels. */
  lemma MoveLabelInjective(a: nat, b: nat)
    requires MoveLabel(a) == MoveLabel(b)
    ensures a == b
  {
    MoveLabelDecodes(a);
    MoveLabelDecodes(b);
  }
}
