/**
 * The text form of one adjacency record: written by `precompute`
 * (ladders.py:89-94) as the id followed by its neighbour ids, separated by
 * single spaces and ended by a newline; read back by `load_data`
 * (ladders.py:111-113) with `strip()`, `split(" ")` and `int(...)`.
 */
module Records {
  import opened Wrappers

  // ---------------------------------------------------------------------
  // Decimal numerals: `str(n)` and `int(s)` on plain digit strings
  // ---------------------------------------------------------------------

  predicate IsDigit(c: char) {
    '0' <= c <= '9'
  }

  predicate AllDigits(s: string) {
    forall k :: 0 <= k < |s| ==> IsDigit(s[k])
  }

  function DigitChar(d: nat): (c: char)
    requires d < 10
    ensures IsDigit(c)
  {
    ((48 + d) as char)
  }

  /** `str(n)` for a natural number: its shortest decimal numeral. */
  function NatToString(n: nat): (s: string)
    ensures |s| >= 1 && AllDigits(s)
    ensures ' ' !in s
  {
    if n < 10 then [DigitChar(n)] else NatToString(n / 10) + [DigitChar(n % 10)]
  }

  /** The number a digit string denotes (leading zeros allowed, as in `int("007")`). */
  function DigitsValue(s: string): nat
    requires AllDigits(s)
  {
    if s == [] then 0 else DigitsValue(s[..|s| - 1]) * 10 + (s[|s| - 1] as int - 48)
  }

  /** `int(s)` on the decimal strings `str` produces; the model rejects anything else. */
  function ParseNat(s: string): (r: Option<nat>)
    ensures r.Some? <==> s != [] && AllDigits(s)
  {
    if s != [] && AllDigits(s) then Some(DigitsValue(s)) else None
  }

  lemma {:induction false} NatRoundTrip(n: nat)
    ensures ParseNat(NatToString(n)) == Some(n)
  {
    if n >= 10 {
      NatRoundTrip(n / 10);
      var s := NatToString(n);
      assert s[..|s| - 1] == NatToString(n / 10);
      assert s[|s| - 1] as int - 48 == n % 10;
      assert DigitsValue(s) == (n / 10) * 10 + n % 10;
    }
  }

  // ---------------------------------------------------------------------
  // `str.strip()` and `str.split(" ")`
  // ---------------------------------------------------------------------

  /** The characters Python's `str.strip()` removes (those for which `str.isspace()` holds). */
  predicate IsWhitespace(c: char) {
    var n := c as int;
    (9 <= n <= 13) || (28 <= n <= 32) || n == 0x85 || n == 0xA0 || n == 0x1680
    || (0x2000 <= n <= 0x200A) || n == 0x2028 || n == 0x2029 || n == 0x202F
    || n == 0x205F || n == 0x3000
  }

  function TrimLeft(s: string): (r: string)
    ensures |r| <= |s| && r == s[|s| - |r|..]
    ensures r != [] ==> !IsWhitespace(r[0])
  {
    if s != [] && IsWhitespace(s[0]) then TrimLeft(s[1..]) else s
  }

  function TrimRight(s: string): (r: string)
    ensures |r| <= |s| && r == s[..|r|]
    ensures r != [] ==> !IsWhitespace(r[|r| - 1])
  {
    if s != [] && IsWhitespace(s[|s| - 1]) then TrimRight(s[..|s| - 1]) else s
  }

  /** `s.strip()`: the string without leading and trailing whitespace. */
  function Strip(s: string): (r: string)
    ensures r != [] ==> !IsWhitespace(r[0]) && !IsWhitespace(r[|r| - 1])
  {
    TrimRight(TrimLeft(s))
  }

  /**
   * `s.split(" ")`: the pieces between single spaces. Two adjacent spaces give an
   * empty piece, and `"".split(" ")` is `[""]`, so there is always one piece.
   */
  function SplitSpace(s: string): (pieces: seq<string>)
    ensures |pieces| >= 1
    ensures forall k :: 0 <= k < |pieces| ==> ' ' !in pieces[k]
  {
    if s == [] then [""]
    else if s[0] == ' ' then [""] + SplitSpace(s[1..])
    else
      var rest := SplitSpace(s[1..]);
      [[s[0]] + rest[0]] + rest[1..]
  }

  /** `" ".join(pieces)`. */
  function Join(pieces: seq<string>): string {
    if |pieces| == 0 then ""
    else if |pieces| == 1 then pieces[0]
    else pieces[0] + " " + Join(pieces[1..])
  }

  lemma {:induction false} SplitNoSpace(a: string)
    requires ' ' !in a
    ensures SplitSpace(a) == [a]
  {
    if a != [] {
      SplitNoSpace(a[1..]);
      assert [a[0]] + a[1..] == a;
    }
  }

  lemma {:induction false} SplitAfterPiece(a: string, rest: string)
    requires ' ' !in a
    ensures SplitSpace(a + " " + rest) == [a] + SplitSpace(rest)
  {
    if a == [] {
      assert a + " " + rest == [' '] + rest;
      assert (a + " " + rest)[1..] == rest;
    } else {
      SplitAfterPiece(a[1..], rest);
      assert (a + " " + rest)[1..] == a[1..] + " " + rest;
      assert [a[0]] + a[1..] == a;
    }
  }

  /** Splitting a join of space-free pieces gives the pieces back. */
  lemma {:induction false} SplitJoin(pieces: seq<string>)
    requires |pieces| >= 1
    requires forall k :: 0 <= k < |pieces| ==> ' ' !in pieces[k]
    ensures SplitSpace(Join(pieces)) == pieces
  {
    if |pieces| == 1 {
      SplitNoSpace(pieces[0]);
    } else {
      SplitJoin(pieces[1..]);
      SplitAfterPiece(pieces[0], Join(pieces[1..]));
      assert [pieces[0]] + pieces[1..] == pieces;
    }
  }

  // ---------------------------------------------------------------------
  // Adjacency records
  // ---------------------------------------------------------------------

  /**
   * `s.lower()` on ASCII: 'A'..'Z' become 'a'..'z', every other character is
   * kept (Python's Unicode case mapping is not part of this model).
   */
  function Lower(s: string): (r: string)
    ensures |r| == |s|
    ensures forall k :: 0 <= k < |s| ==>
      r[k] == (if 'A' <= s[k] <= 'Z' then (s[k] as int + 32) as char else s[k])
  {
    seq(|s|, k requires 0 <= k < |s| => if 'A' <= s[k] <= 'Z' then (s[k] as int + 32) as char else s[k])
  }

  /** Lines 60 and 102: a line of the word list as the word it stands for. */
  function Normalize(line: string): string {
    Lower(Strip(line))
  }

  /**
   * A normalized word has no ASCII capital and no whitespace at either end,
   * so normalizing it again changes nothing.
   */
  lemma NormalizeIdempotent(line: string)
    ensures var w := Normalize(line);
      && (forall k :: 0 <= k < |w| ==> !('A' <= w[k] <= 'Z'))
      && (w != [] ==> !IsWhitespace(w[0]) && !IsWhitespace(w[|w| - 1]))
      && Normalize(w) == w
  {
    var s := Strip(line);
    var w := Lower(s);
    if w != [] {
      assert !IsWhitespace(w[0]) by {
        LowerChar(s[0]);
      }
      assert !IsWhitespace(w[|w| - 1]) by {
        LowerChar(s[|s| - 1]);
      }
      assert TrimLeft(w) == w;
      assert TrimRight(w) == w;
    }
    assert Strip(w) == w;
    assert Lower(w) == w;
  }

  lemma LowerChar(c: char)
    requires !IsWhitespace(c)
    ensures !IsWhitespace(if 'A' <= c <= 'Z' then (c as int + 32) as char else c)
  {
  }

  /** One parsed line of the data file: `NEIGHBORS[id] = neighbours`. */
  datatype Record = Record(id: nat, neighbours: set<nat>)

  function Numerals(ns: seq<nat>): (r: seq<string>)
    ensures |r| == |ns|
    ensures forall k :: 0 <= k < |ns| ==> r[k] == NatToString(ns[k])
  {
    seq(|ns|, k requires 0 <= k < |ns| => NatToString(ns[k]))
  }

  function SetOf(ns: seq<nat>): set<nat> {
    set x | x in ns
  }

  /** No id occurs twice. */
  predicate Distinct(ns: seq<nat>) {
    forall i, j :: 0 <= i < j < |ns| ==> ns[i] != ns[j]
  }

  /**
   * The line precompute writes for word id `i` whose neighbour set is
   * enumerated as `ns`: `"i n1 n2 ...\n"`, or `"i\n"` if there are none.
   */
  function FormatRecord(i: nat, ns: seq<nat>): string {
    var neighboursString := Join(Numerals(ns));
    if neighboursString != [] then NatToString(i) + " " + neighboursString + "\n"
    else NatToString(i) + "\n"
  }

  /** `map(int, fields)`, failing on the first field `int` rejects. */
  function ParseAll(fields: seq<string>): (r: Option<seq<nat>>)
    ensures r.Some? ==> |r.value| == |fields|
  {
    if fields == [] then Some([])
    else
      match ParseNat(fields[0])
      case None => None
      case Some(n) =>
        match ParseAll(fields[1..])
        case None => None
        case Some(rest) => Some([n] + rest)
  }

  /**
   * Lines 112-113: strip, split on a space; the first field is the id, the
   * rest are the neighbour ids. A field that is not a numeral is an error.
   */
  function ParseRecord(line: string): Option<Record> {
    var fields := SplitSpace(Strip(line));
    match ParseNat(fields[0])
    case None => None
    case Some(id) =>
      match ParseAll(fields[1..])
      case None => None
      case Some(ns) => Some(Record(id, SetOf(ns)))
  }

  // ---------------------------------------------------------------------
  // The round trip
  // ---------------------------------------------------------------------

  lemma {:induction false} JoinEmpty(pieces: seq<string>)
    requires forall k :: 0 <= k < |pieces| ==> pieces[k] != []
    ensures Join(pieces) == [] <==> pieces == []
  {
  }

  /** A join of numerals starts and ends with a digit. */
  lemma {:induction false} JoinNumeralsEnds(ns: seq<nat>)
    requires ns != []
    ensures var j := Join(Numerals(ns)); j != [] && IsDigit(j[0]) && IsDigit(j[|j| - 1])
  {
    var ps := Numerals(ns);
    if |ns| > 1 {
      JoinNumeralsEnds(ns[1..]);
      assert Numerals(ns)[1..] == Numerals(ns[1..]);
    }
  }

  /** Every record line is the join of the id and its neighbours' numerals, plus a newline. */
  lemma FormatRecordIsJoin(i: nat, ns: seq<nat>)
    ensures FormatRecord(i, ns) == Join(Numerals([i] + ns)) + "\n"
  {
    var all := Numerals([i] + ns);
    assert all[1..] == Numerals(ns);
    JoinEmpty(Numerals(ns));
  }

  lemma DigitNotWhitespace(c: char)
    requires IsDigit(c)
    ensures !IsWhitespace(c)
  {
  }

  lemma StripDigitsNewline(body: string)
    requires body != [] && IsDigit(body[0]) && IsDigit(body[|body| - 1])
    ensures Strip(body + "\n") == body
  {
    var t := body + "\n";
    DigitNotWhitespace(body[0]);
    DigitNotWhitespace(body[|body| - 1]);
    assert t[0] == body[0];
    assert TrimLeft(t) == t;
    assert t[|t| - 1] == '\n' && IsWhitespace('\n');
    assert t[..|t| - 1] == body;
    assert TrimRight(body) == body;
  }

  lemma {:induction false} ParseAllNumerals(ns: seq<nat>)
    ensures ParseAll(Numerals(ns)) == Some(ns)
  {
    if ns != [] {
      NatRoundTrip(ns[0]);
      ParseAllNumerals(ns[1..]);
      assert Numerals(ns)[1..] == Numerals(ns[1..]);
      assert [ns[0]] + ns[1..] == ns;
    }
  }

  /**
   * Reading back a line precompute wrote yields exactly its id and neighbour
   * set, whatever order the set was enumerated in; "i\n" gives the empty set.
   */
  lemma RecordRoundTrip(i: nat, ns: seq<nat>)
    ensures ParseRecord(FormatRecord(i, ns)) == Some(Record(i, SetOf(ns)))
  {
    var all := Numerals([i] + ns);
    FormatRecordIsJoin(i, ns);
    JoinNumeralsEnds([i] + ns);
    StripDigitsNewline(Join(all));
    SplitJoin(all);
    NatRoundTrip(i);
    assert all[1..] == Numerals(ns);
    ParseAllNumerals(ns);
  }
}
