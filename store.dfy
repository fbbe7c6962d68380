/**
 * `load_data` (ladders.py:98-114): number the words of the word list, make
 * sure the data file exists (running `precompute` if it does not), and read
 * its records into the neighbour map. The three global dictionaries of
 * ladders.py become one `Dictionary` value.
 */
module Store {
  import opened Wrappers
  import opened Records
  import opened Precompute
  import opened Graph

  /** `WORDS_TO_INDEX`, `INDEX_TO_WORD` and `NEIGHBORS`. */
  datatype Dictionary = Dictionary(wordsToIndex: map<string, nat>, indexToWord: map<nat, string>, neighbors: Graph)

  /**
   * The dictionaries agree with each other: every id has a word and a
   * neighbour set, every neighbour is an id, and every word's id has a
   * neighbour set. Then no lookup the searches make can fail.
   */
  ghost predicate WellFormed(d: Dictionary) {
    && d.neighbors.Keys == d.indexToWord.Keys
    && Closed(d.neighbors)
    && forall w :: w in d.wordsToIndex ==> d.wordsToIndex[w] in d.neighbors
  }

  /** The words of the word list, line `i` being word `i`. */
  function Words(wordList: seq<string>): (ws: seq<string>)
    ensures |ws| == |wordList|
    ensures forall i :: 0 <= i < |wordList| ==> ws[i] == Normalize(wordList[i])
  {
    seq(|wordList|, i requires 0 <= i < |wordList| => Normalize(wordList[i]))
  }

  // ---------------------------------------------------------------------
  // The word index (lines 100-104)
  // ---------------------------------------------------------------------

  /**
   * What numbering the first `n` lines leaves behind: every id below `n`
   * has its word, and every word seen maps to the LAST line it occurs on.
   */
  ghost predicate IndexedUpTo(ws: seq<string>, n: nat, toIndex: map<string, nat>, toWord: map<nat, string>)
    requires n <= |ws|
  {
    && (forall i: nat :: i in toWord <==> i < n)
    && (forall i :: 0 <= i < n ==> toWord[i] == ws[i])
    && (forall w :: w in toIndex <==> w in ws[..n])
    && (forall w :: w in toIndex ==>
      && toIndex[w] < n && ws[toIndex[w]] == w
      && forall j :: toIndex[w] < j < n ==> ws[j] != w)
  }

  ghost predicate Indexed(wordList: seq<string>, toIndex: map<string, nat>, toWord: map<nat, string>) {
    IndexedUpTo(Words(wordList), |wordList|, toIndex, toWord)
  }

  lemma IndexOne(ws: seq<string>, i: nat, toIndex: map<string, nat>, toWord: map<nat, string>)
    requires i < |ws| && IndexedUpTo(ws, i, toIndex, toWord)
    ensures IndexedUpTo(ws, i + 1, toIndex[ws[i] := i], toWord[i := ws[i]])
  {
    assert ws[..i + 1] == ws[..i] + [ws[i]];
  }

  /** Lines 100-104: `WORDS_TO_INDEX[word] = i` and `INDEX_TO_WORD[i] = word` for every line. */
  method BuildIndex(wordList: seq<string>) returns (toIndex: map<string, nat>, toWord: map<nat, string>)
    ensures Indexed(wordList, toIndex, toWord)
  {
    ghost var ws := Words(wordList);
    toIndex, toWord := map[], map[];
    assert IndexedUpTo(ws, 0, toIndex, toWord);
    for i := 0 to |wordList|
      invariant IndexedUpTo(ws, i, toIndex, toWord)
    {
      var word := Normalize(wordList[i]);
      assert word == ws[i];
      IndexOne(ws, i, toIndex, toWord);
      toIndex := toIndex[word := i];
      toWord := toWord[i := word];
    }
    assert ws[..|wordList|] == ws;
  }

  /**
   * The two indexes invert each other where they can: the id of a word
   * spells that word, and a word's id is never below an id that spells it
   * (duplicates keep the last id).
   */
  lemma IndexRoundTrip(wordList: seq<string>, toIndex: map<string, nat>, toWord: map<nat, string>)
    requires Indexed(wordList, toIndex, toWord)
    ensures forall w :: w in toIndex ==> toIndex[w] in toWord && toWord[toIndex[w]] == w
    ensures forall i :: i in toWord ==> toWord[i] in toIndex && toIndex[toWord[i]] >= i
  {
    var ws := Words(wordList);
    assert ws[..|wordList|] == ws;
    forall i | i in toWord
      ensures toWord[i] in toIndex && toIndex[toWord[i]] >= i
    {
      assert ws[i] in ws;
    }
  }

  // ---------------------------------------------------------------------
  // The neighbour map (lines 110-113)
  // ---------------------------------------------------------------------

  /** Each line of the data file parsed on its own. */
  function ParseLines(lines: seq<string>): (rs: seq<Option<Record>>)
    ensures |rs| == |lines|
    ensures forall k :: 0 <= k < |lines| ==> rs[k] == ParseRecord(lines[k])
  {
    seq(|lines|, k requires 0 <= k < |lines| => ParseRecord(lines[k]))
  }

  /**
   * The neighbour map the parsed records give, applied in order so that a
   * later record of an id replaces an earlier one; `None` if some line is
   * not a record (`int` raises `ValueError` in the source).
   */
  function Apply(rs: seq<Option<Record>>): Option<Graph> {
    if rs == [] then Some(map[])
    else
      match Apply(rs[..|rs| - 1])
      case None => None
      case Some(m) =>
        match rs[|rs| - 1]
        case None => None
        case Some(r) => Some(m[r.id := r.neighbours])
  }

  /** What reading the data file's lines leaves in `NEIGHBORS`. */
  function Loaded(lines: seq<string>): Option<Graph> {
    Apply(ParseLines(lines))
  }

  /** Reading succeeds exactly when each line is a record. */
  lemma {:induction false} ApplySomeIff(rs: seq<Option<Record>>)
    ensures Apply(rs).Some? <==> forall k :: 0 <= k < |rs| ==> rs[k].Some?
  {
    if rs != [] {
      var init := rs[..|rs| - 1];
      ApplySomeIff(init);
      assert forall k :: 0 <= k < |init| ==> init[k] == rs[k];
    }
  }

  /** The ids the map holds are those of the records, and each has the neighbours of its last record. */
  lemma {:induction false} ApplyLast(rs: seq<Option<Record>>, m: Graph)
    requires Apply(rs) == Some(m)
    ensures forall k :: 0 <= k < |rs| ==> rs[k].Some?
    ensures forall id :: id in m <==> exists k :: 0 <= k < |rs| && rs[k].Some? && rs[k].value.id == id
    ensures forall k :: 0 <= k < |rs| && rs[k].Some? ==>
      (forall k' :: k < k' < |rs| && rs[k'].Some? ==> rs[k'].value.id != rs[k].value.id)
      ==> m[rs[k].value.id] == rs[k].value.neighbours
  {
    ApplySomeIff(rs);
    if rs != [] {
      var init := rs[..|rs| - 1];
      var m' := Apply(init).value;
      ApplyLast(init, m');
      assert forall k :: 0 <= k < |init| ==> init[k] == rs[k];
      var last := rs[|rs| - 1].value;
      assert m == m'[last.id := last.neighbours];
    }
  }

  /** A file reads without error exactly when each of its lines is a record. */
  lemma LoadedSomeIff(lines: seq<string>)
    ensures Loaded(lines).Some? <==> forall k :: 0 <= k < |lines| ==> ParseRecord(lines[k]).Some?
  {
    ApplySomeIff(ParseLines(lines));
  }

  lemma ApplyStep(rs: seq<Option<Record>>, k: nat, m: Graph)
    requires k < |rs| && Apply(rs[..k]) == Some(m)
    ensures rs[k].None? ==> Apply(rs).None?
    ensures rs[k].Some? ==> Apply(rs[..k + 1]) == Some(m[rs[k].value.id := rs[k].value.neighbours])
  {
    assert rs[..k + 1][..k] == rs[..k];
    ApplySomeIff(rs);
  }

  /** Lines 110-113: one `NEIGHBORS[int(line[0])] = set(map(int, line[1:]))` per line. */
  method LoadNeighbors(lines: seq<string>) returns (r: Option<Graph>)
    ensures r == Loaded(lines)
  {
    ghost var rs := ParseLines(lines);
    var neighbors: Graph := map[];
    for k := 0 to |lines|
      invariant Apply(rs[..k]) == Some(neighbors)
    {
      var record := ParseRecord(lines[k]);
      assert record == rs[k];
      ApplyStep(rs, k, neighbors);
      if record.None? {
        return None;
      }
      neighbors := neighbors[record.value.id := record.value.neighbours];
    }
    assert rs[..|lines|] == rs;
    r := Some(neighbors);
  }

  // ---------------------------------------------------------------------
  // Reading back what precompute wrote
  // ---------------------------------------------------------------------

  ghost function NeighboursOf(words: seq<string>, ids: set<nat>): Graph {
    map x: nat | x in ids && x < |words| :: Neighbours(words, x)
  }

  lemma {:induction false} ApplyWritten(words: seq<string>, rs: seq<Option<Record>>, order: seq<nat>, j: nat)
    requires |rs| == |order| && j <= |rs|
    requires forall k :: 0 <= k < |rs| ==> order[k] < |words| && rs[k] == Some(Record(order[k], Neighbours(words, order[k])))
    ensures Apply(rs[..j]) == Some(NeighboursOf(words, SetOf(order[..j])))
  {
    if j > 0 {
      ApplyWritten(words, rs, order, j - 1);
      assert rs[..j][..j - 1] == rs[..j - 1];
      assert rs[..j][j - 1] == rs[j - 1];
      assert order[..j] == order[..j - 1] + [order[j - 1]];
      assert SetOf(order[..j]) == SetOf(order[..j - 1]) + {order[j - 1]};
      var x := order[j - 1];
      assert NeighboursOf(words, SetOf(order[..j - 1]))[x := Neighbours(words, x)]
          == NeighboursOf(words, SetOf(order[..j]));
    } else {
      assert NeighboursOf(words, SetOf(order[..0])) == map[];
    }
  }

  /**
   * Precompute and load round trip: the records precompute writes, in
   * whatever order, read back as the neighbour set of every word id.
   */
  lemma LoadPrecomputed(words: seq<string>, lines: seq<string>, order: seq<nat>, lists: seq<seq<nat>>)
    requires |lines| == |order| == |lists|
    requires forall i: nat :: i in order <==> i < |words|
    requires forall k :: 0 <= k < |lines| ==>
      && order[k] < |words|
      && lines[k] == FormatRecord(order[k], lists[k])
      && SetOf(lists[k]) == Neighbours(words, order[k])
    ensures Loaded(lines) == Some(NeighbourMap(words))
  {
    var rs := ParseLines(lines);
    forall k | 0 <= k < |rs|
      ensures rs[k] == Some(Record(order[k], Neighbours(words, order[k])))
    {
      RecordRoundTrip(order[k], lists[k]);
    }
    ApplyWritten(words, rs, order, |rs|);
    assert rs[..|rs|] == rs && order[..|rs|] == order;
    assert NeighboursOf(words, SetOf(order)) == NeighbourMap(words);
  }

  /** The graph precompute records is well formed and has no self-loops. */
  lemma NeighbourMapClosed(words: seq<string>)
    ensures Closed(NeighbourMap(words))
    ensures forall i :: i in NeighbourMap(words) ==> i !in NeighbourMap(words)[i]
  {
    forall i | i in NeighbourMap(words)
      ensures i !in NeighbourMap(words)[i]
    {
      NoSelfNeighbours(words, i, i);
    }
  }

  /** Over words made of ASCII letters only, the recorded graph is symmetric. */
  lemma NeighbourMapSymmetric(words: seq<string>)
    requires AllLetters(words)
    ensures Symmetric(NeighbourMap(words))
  {
    forall u, v | u in NeighbourMap(words) && v in NeighbourMap(words)[u]
      ensures v in NeighbourMap(words) && u in NeighbourMap(words)[v]
    {
      NeighboursSymmetric(words, u, v);
    }
  }

  // ---------------------------------------------------------------------
  // load_data
  // ---------------------------------------------------------------------

  /**
   * Lines 98-114. `stored` is the data file's lines if the file exists and
   * `None` if it does not, in which case precompute's lines are read
   * instead. `None` is returned where the source raises `ValueError`.
   */
  method LoadData(wordList: seq<string>, stored: Option<seq<string>>) returns (d: Option<Dictionary>)
    ensures d.Some? ==> Indexed(wordList, d.value.wordsToIndex, d.value.indexToWord)
    ensures stored.Some? ==> d.Some? == Loaded(stored.value).Some?
    ensures stored.Some? && d.Some? ==> d.value.neighbors == Loaded(stored.value).value
    ensures stored.None? ==> d.Some? && d.value.neighbors == NeighbourMap(Words(wordList)) && WellFormed(d.value)
  {
    var toIndex, toWord := BuildIndex(wordList);
    var lines: seq<string>;
    if stored.None? {
      ghost var order, lists;
      lines, order, lists := Precompute.Precompute(Words(wordList));
      LoadPrecomputed(Words(wordList), lines, order, lists);
    } else {
      lines := stored.value;
    }
    var neighbors := LoadNeighbors(lines);
    if neighbors.None? {
      return None;
    }
    d := Some(Dictionary(toIndex, toWord, neighbors.value));
    if stored.None? {
      NeighbourMapClosed(Words(wordList));
    }
  }
}
