/**
 * The progress helpers of `find_longest_path` (ladders.py:218-232): the
 * human-readable form of a number of seconds, and the next number of
 * checked words at which progress is reported.
 */
module Timing {
  import opened Wrappers
  import opened Records

  // ---------------------------------------------------------------------
  // format_time (lines 218-224)
  // ---------------------------------------------------------------------

  /**
   * Lines 218-224 on a whole number of seconds: hours while more than an
   * hour is left, then minutes while more than a minute is left, then the
   * seconds, each followed by its unit and separated by single spaces.
   */
  function FormatTime(t: nat): string {
    if t > 3600 then NatToString(t / 3600) + "h " + FormatTime(t % 3600)
    else if t > 60 then NatToString(t / 60) + "m " + FormatTime(t % 60)
    else NatToString(t) + "s"
  }

  /** The pieces of `FormatTime(t)` between its spaces, as a reference definition. */
  function Parts(t: nat): (ps: seq<string>)
    ensures |ps| >= 1
  {
    if t > 3600 then [NatToString(t / 3600) + "h"] + Parts(t % 3600)
    else if t > 60 then [NatToString(t / 60) + "m"] + Parts(t % 60)
    else [NatToString(t) + "s"]
  }

  /** The seconds a unit letter stands for. */
  function UnitSeconds(c: char): Option<nat> {
    if c == 'h' then Some(3600) else if c == 'm' then Some(60) else if c == 's' then Some(1) else None
  }

  /** Reading one piece: a numeral and a unit letter. */
  function ReadPiece(p: string): Option<nat> {
    if p == [] then None
    else match (UnitSeconds(p[|p| - 1]), ParseNat(p[..|p| - 1]))
      case (Some(unit), Some(n)) => Some(n * unit)
      case _ => None
  }

  function ReadPieces(ps: seq<string>): Option<nat> {
    if ps == [] then Some(0)
    else match (ReadPiece(ps[0]), ReadPieces(ps[1..]))
      case (Some(a), Some(b)) => Some(a + b)
      case _ => None
  }

  /** The number of seconds a text like `"1h 2m 3s"` stands for. */
  function ReadDuration(s: string): Option<nat> {
    ReadPieces(SplitSpace(s))
  }

  lemma {:induction false} FormatIsJoin(t: nat)
    ensures FormatTime(t) == Join(Parts(t))
    decreases t
  {
    if t > 3600 {
      FormatIsJoin(t % 3600);
      var ps := Parts(t);
      assert ps[1..] == Parts(t % 3600);
    } else if t > 60 {
      FormatIsJoin(t % 60);
      var ps := Parts(t);
      assert ps[1..] == Parts(t % 60);
    }
  }

  lemma PieceRoundTrip(n: nat, unit: char, seconds: nat)
    requires UnitSeconds(unit) == Some(seconds)
    ensures ReadPiece(NatToString(n) + [unit]) == Some(n * seconds)
    ensures ' ' !in NatToString(n) + [unit]
  {
    var p := NatToString(n) + [unit];
    assert p[..|p| - 1] == NatToString(n);
    NatRoundTrip(n);
  }

  lemma {:induction false} PartsRoundTrip(t: nat)
    ensures ReadPieces(Parts(t)) == Some(t)
    ensures forall k :: 0 <= k < |Parts(t)| ==> ' ' !in Parts(t)[k]
    decreases t
  {
    var ps := Parts(t);
    if t > 3600 {
      PartsRoundTrip(t % 3600);
      PieceRoundTrip(t / 3600, 'h', 3600);
      assert ps[1..] == Parts(t % 3600);
    } else if t > 60 {
      PartsRoundTrip(t % 60);
      PieceRoundTrip(t / 60, 'm', 60);
      assert ps[1..] == Parts(t % 60);
    } else {
      PieceRoundTrip(t, 's', 1);
      assert ps[1..] == [];
    }
  }

  /** Reading back what `FormatTime` writes gives the number of seconds formatted. */
  lemma FormatTimeRoundTrip(t: nat)
    ensures ReadDuration(FormatTime(t)) == Some(t)
  {
    FormatIsJoin(t);
    PartsRoundTrip(t);
    SplitJoin(Parts(t));
  }

  /** Exactly one hour is not more than an hour, so it is written in minutes. */
  lemma OneHour()
    ensures FormatTime(3600) == "60m 0s"
  {
    assert NatToString(60) == "60" by {
      assert NatToString(6) == "6";
    }
    assert FormatTime(0) == "0s";
  }

  /** Just over an hour with no whole minute left skips the minutes. */
  lemma HourAndSecond()
    ensures FormatTime(3601) == "1h 1s"
  {
    assert FormatTime(1) == "1s";
  }

  // ---------------------------------------------------------------------
  // get_next_output (lines 227-232)
  // ---------------------------------------------------------------------

  /**
   * Lines 227-232: the next progress checkpoint. Python's `%` by a
   * positive number has a non-negative result, as Dafny's does.
   */
  function NextOutput(x: int): (r: int)
    ensures x < r
  {
    if x % 1000 == 0 then x + 1000
    else if x % 100 == 0 then x + 100
    else x + 10
  }

  /** The checkpoint after `k` reports, starting from `next_output = 10` (line 244). */
  function Checkpoint(k: nat): int {
    if k == 0 then 10 else NextOutput(Checkpoint(k - 1))
  }

  lemma NextInTens(k: nat)
    requires 1 <= k <= 9
    ensures NextOutput(10 * k) == 10 * (k + 1)
  {
    var x := 10 * k;
    assert 0 < x < 100 && x % 100 == x && x % 1000 == x;
  }

  lemma NextInHundreds(j: nat)
    requires 1 <= j <= 9
    ensures NextOutput(100 * j) == 100 * (j + 1)
  {
    var x := 100 * j;
    assert 0 < x < 1000 && x % 1000 == x;
    assert x % 100 == 0;
  }

  lemma NextInThousands(j: nat)
    requires 1 <= j
    ensures NextOutput(1000 * j) == 1000 * (j + 1)
  {
    assert (1000 * j) % 1000 == 0;
  }

  /** Progress is reported at 10, 20, ..., 100 ... */
  lemma {:induction false} CheckpointTens(k: nat)
    requires k <= 9
    ensures Checkpoint(k) == 10 * (k + 1)
  {
    if k > 0 {
      CheckpointTens(k - 1);
      NextInTens(k);
    }
  }

  /** ... then at 200, 300, ..., 1000 ... */
  lemma {:induction false} CheckpointHundreds(j: nat)
    requires j <= 9
    ensures Checkpoint(9 + j) == 100 * (j + 1)
  {
    if j == 0 {
      CheckpointTens(9);
    } else {
      CheckpointHundreds(j - 1);
      NextInHundreds(j);
    }
  }

  /** ... and from then on at every multiple of 1000. */
  lemma {:induction false} CheckpointThousands(j: nat)
    ensures Checkpoint(18 + j) == 1000 * (j + 1)
  {
    if j == 0 {
      CheckpointHundreds(9);
    } else {
      CheckpointThousands(j - 1);
      NextInThousands(j);
    }
  }
}
