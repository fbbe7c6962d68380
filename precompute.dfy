/**
 * `precompute` (ladders.py:54-95): group the word ids into anagram buckets,
 * then for every bucket probe the keys one letter longer (an ASCII letter
 * inserted) and one letter shorter (a character deleted), union the buckets
 * found, and write one record per word id of the bucket.
 */
module Precompute {
  import opened Keys
  import opened Records

  /** The 26 consecutive characters starting at `first`. */
  function Alphabet(first: char): (r: string)
    requires first == 'a' || first == 'A'
    ensures |r| == 26
    ensures forall t :: 0 <= t < 26 ==> r[t] as int == first as int + t
  {
    seq(26, t requires 0 <= t < 26 => (first as int + t) as char)
  }

  /** `string.ascii_letters`: "abc...xyzABC...XYZ", in Python's order. */
  const Letters: string := Alphabet('a') + Alphabet('A')

  /** The characters of `Letters` are exactly the ASCII letters. */
  lemma LettersAreAscii(c: char)
    ensures c in Letters <==> 'a' <= c <= 'z' || 'A' <= c <= 'Z'
  {
    if 'a' <= c <= 'z' {
      assert Letters[c as int - 'a' as int] == c;
    } else if 'A' <= c <= 'Z' {
      assert Letters[26 + c as int - 'A' as int] == c;
    }
  }

  /** Anagram buckets: the key of each word, mapped to the ids of the words with that key. */
  type Buckets = map<Key, set<nat>>

  // ---------------------------------------------------------------------
  // The neighbour relation, stated independently of the probing
  // ---------------------------------------------------------------------

  /**
   * One move from `u` to `v`: `v`'s letters are `u`'s with one ASCII letter
   * added, or with one of its characters removed (order does not matter).
   */
  ghost predicate Move(u: string, v: string) {
    || (exists c :: c in Letters && multiset(v) == multiset(u) + multiset{c})
    || (exists c :: c in multiset(u) && multiset(v) == multiset(u) - multiset{c})
  }

  /** The ids of the words one move away from `u`. */
  ghost function Neighbourhood(words: seq<string>, u: string): set<nat> {
    set x: nat | x < |words| && Move(u, words[x])
  }

  /** The neighbour set precompute records for word id `i`. */
  ghost function Neighbours(words: seq<string>, i: nat): set<nat>
    requires i < |words|
  {
    Neighbourhood(words, words[i])
  }

  /** The whole adjacency graph precompute records: every id, with its neighbour set. */
  ghost function NeighbourMap(words: seq<string>): map<nat, set<nat>> {
    map i: nat | i < |words| :: Neighbours(words, i)
  }

  /** Every character of every word is one of the 52 ASCII letters. */
  ghost predicate AllLetters(words: seq<string>) {
    forall i, k :: 0 <= i < |words| && 0 <= k < |words[i]| ==> words[i][k] in Letters
  }

  // ---------------------------------------------------------------------
  // Anagram buckets (lines 56-61)
  // ---------------------------------------------------------------------

  function Lookup(b: Buckets, k: Key): set<nat> {
    if k in b then b[k] else {}
  }

  /** `b` puts every id below `n`, and only those, into the bucket of the word's key. */
  predicate BucketsUpTo(words: seq<string>, n: nat, b: Buckets)
    requires n <= |words|
  {
    && (forall i :: 0 <= i < n ==> SortLetters(words[i]) in b && i in b[SortLetters(words[i])])
    && (forall k :: k in b ==> forall i :: i in b[k] ==> i < n && SortLetters(words[i]) == k)
    && (forall k :: k in b ==> b[k] != {})
  }

  /** `b` puts every word id, and only those, into the bucket of the word's key. */
  predicate IsBucketing(words: seq<string>, b: Buckets) {
    BucketsUpTo(words, |words|, b)
  }

  lemma BucketsAdd(words: seq<string>, i: nat, b: Buckets, key: Key, b': Buckets)
    requires i < |words| && BucketsUpTo(words, i, b) && key == SortLetters(words[i])
    requires b' == b[key := Lookup(b, key) + {i}]
    ensures BucketsUpTo(words, i + 1, b')
  {
    forall j | 0 <= j < i + 1
      ensures SortLetters(words[j]) in b' && j in b'[SortLetters(words[j])]
    {
    }
    forall k, j | k in b' && j in b'[k]
      ensures j < i + 1 && SortLetters(words[j]) == k
    {
      if k != key {
        assert j in b[k];
      } else if j != i {
        assert j in Lookup(b, key);
      }
    }
  }

  /** Lines 59-61: `words[sort_letters(word)].add(i)` for every line `i`, empty lines included. */
  method BuildBuckets(words: seq<string>) returns (b: Buckets)
    ensures IsBucketing(words, b)
  {
    b := map[];
    for i := 0 to |words|
      invariant BucketsUpTo(words, i, b)
    {
      var key := SortLetters(words[i]);
      ghost var before := b;
      b := b[key := Lookup(b, key) + {i}];
      BucketsAdd(words, i, before, key, b);
    }
  }

  // ---------------------------------------------------------------------
  // Probing (lines 79-87)
  // ---------------------------------------------------------------------

  /** The union of the buckets reached by inserting each of the first `n` letters. */
  function InsertProbes(b: Buckets, key: Key, n: nat): set<nat>
    requires n <= |Letters|
  {
    if n == 0 then {}
    else InsertProbes(b, key, n - 1) + Lookup(b, SortLetters(key + [Letters[n - 1]]))
  }

  /** The union of the buckets reached by deleting each of the first `n` positions. */
  function DeleteProbes(b: Buckets, key: Key, n: nat): set<nat>
    requires n <= |key|
  {
    if n == 0 then {}
    else DeleteProbes(b, key, n - 1) + Lookup(b, SortLetters(key[..n - 1] + key[n..]))
  }

  lemma LookupMeaning(words: seq<string>, b: Buckets, w: string, x: nat)
    requires IsBucketing(words, b)
    ensures x in Lookup(b, SortLetters(w)) <==> x < |words| && multiset(words[x]) == multiset(w)
  {
    if x < |words| {
      SameKeyIffAnagram(words[x], w);
    }
  }

  lemma {:induction false} InsertProbesMeaning(words: seq<string>, b: Buckets, key: Key, n: nat, x: nat)
    requires IsBucketing(words, b) && n <= |Letters|
    ensures x in InsertProbes(b, key, n) <==>
      x < |words| && exists t :: 0 <= t < n && multiset(words[x]) == multiset(key) + multiset{Letters[t]}
  {
    if n > 0 {
      InsertProbesMeaning(words, b, key, n - 1, x);
      var c := Letters[n - 1];
      var longer := key + [c];
      LookupMeaning(words, b, longer, x);
      assert multiset(longer) == multiset(key) + multiset{c};
      if x < |words| && exists t :: 0 <= t < n && multiset(words[x]) == multiset(key) + multiset{Letters[t]} {
        var t :| 0 <= t < n && multiset(words[x]) == multiset(key) + multiset{Letters[t]};
        if t == n - 1 {
          assert multiset(words[x]) == multiset(longer);
        } else {
          assert x in InsertProbes(b, key, n - 1);
        }
      }
    }
  }

  lemma DeleteAt(key: Key, p: nat)
    requires p < |key|
    ensures multiset(key[..p] + key[p + 1..]) == multiset(key) - multiset{key[p]}
  {
    assert key == key[..p] + [key[p]] + key[p + 1..];
  }

  lemma {:induction false} DeleteProbesMeaning(words: seq<string>, b: Buckets, key: Key, n: nat, x: nat)
    requires IsBucketing(words, b) && n <= |key|
    ensures x in DeleteProbes(b, key, n) <==>
      x < |words| && exists p :: 0 <= p < n && multiset(words[x]) == multiset(key) - multiset{key[p]}
  {
    if n > 0 {
      DeleteProbesMeaning(words, b, key, n - 1, x);
      var shorter := key[..n - 1] + key[n..];
      LookupMeaning(words, b, shorter, x);
      DeleteAt(key, n - 1);
      var less := multiset(key) - multiset{key[n - 1]};
      assert multiset(shorter) == less;
      if x in DeleteProbes(b, key, n - 1) {
        var p :| 0 <= p < n - 1 && multiset(words[x]) == multiset(key) - multiset{key[p]};
        assert 0 <= p < n;
      } else if x in Lookup(b, SortLetters(shorter)) {
        assert multiset(words[x]) == less;
      }
      if x < |words| && exists p :: 0 <= p < n && multiset(words[x]) == multiset(key) - multiset{key[p]} {
        var p :| 0 <= p < n && multiset(words[x]) == multiset(key) - multiset{key[p]};
        if p == n - 1 {
          assert multiset(words[x]) == multiset(shorter);
        } else {
          assert x in DeleteProbes(b, key, n - 1);
        }
      }
    }
  }

  lemma InsertionsMeaning(key: Key, v: string)
    ensures (exists t :: 0 <= t < |Letters| && multiset(v) == multiset(key) + multiset{Letters[t]})
        <==> (exists c :: c in Letters && multiset(v) == multiset(key) + multiset{c})
  {
    if exists c :: c in Letters && multiset(v) == multiset(key) + multiset{c} {
      var c :| c in Letters && multiset(v) == multiset(key) + multiset{c};
      var t :| 0 <= t < |Letters| && Letters[t] == c;
    }
  }

  lemma DeletionsMeaning(key: Key, v: string)
    ensures (exists p :: 0 <= p < |key| && multiset(v) == multiset(key) - multiset{key[p]})
        <==> (exists c :: c in multiset(key) && multiset(v) == multiset(key) - multiset{c})
  {
    if exists c :: c in multiset(key) && multiset(v) == multiset(key) - multiset{c} {
      var c :| c in multiset(key) && multiset(v) == multiset(key) - multiset{c};
      assert c in key;
      var p :| 0 <= p < |key| && key[p] == c;
    }
    if exists p :: 0 <= p < |key| && multiset(v) == multiset(key) - multiset{key[p]} {
      var p :| 0 <= p < |key| && multiset(v) == multiset(key) - multiset{key[p]};
      assert key[p] in multiset(key);
    }
  }

  /** Probing all 52 insertions and all deletions reaches exactly the words one move away. */
  lemma ProbesMeaning(words: seq<string>, b: Buckets, key: Key)
    requires IsBucketing(words, b)
    ensures InsertProbes(b, key, |Letters|) + DeleteProbes(b, key, |key|) == Neighbourhood(words, key)
  {
    forall x: nat
      ensures x in InsertProbes(b, key, |Letters|) + DeleteProbes(b, key, |key|) <==> x in Neighbourhood(words, key)
    {
      ProbeMeaning(words, b, key, x);
    }
  }

  lemma ProbeMeaning(words: seq<string>, b: Buckets, key: Key, x: nat)
    requires IsBucketing(words, b)
    ensures x in InsertProbes(b, key, |Letters|) + DeleteProbes(b, key, |key|)
        <==> x < |words| && Move(key, words[x])
  {
    InsertProbesMeaning(words, b, key, |Letters|, x);
    DeleteProbesMeaning(words, b, key, |key|, x);
    if x < |words| {
      InsertionsMeaning(key, words[x]);
      DeletionsMeaning(key, words[x]);
    }
  }

  /** Lines 79-87: the union of the buckets one insertion or one deletion away from `key`. */
  method NeighboursOfKey(ghost words: seq<string>, b: Buckets, key: Key) returns (ns: set<nat>)
    requires IsBucketing(words, b)
    ensures ns == Neighbourhood(words, key)
  {
    ns := {};
    for j := 0 to |Letters|
      invariant ns == InsertProbes(b, key, j)
    {
      var probe := SortLetters(key + [Letters[j]]);
      if probe in b {
        ns := ns + b[probe];
      }
    }
    for p := 0 to |key|
      invariant ns == InsertProbes(b, key, |Letters|) + DeleteProbes(b, key, p)
    {
      var probe := SortLetters(key[..p] + key[p + 1..]);
      if probe in b {
        ns := ns + b[probe];
      }
    }
    ProbesMeaning(words, b, key);
  }

  /** Iterating over a set: its elements in some order, each once. */
  method Enumerate(s: set<nat>) returns (xs: seq<nat>)
    ensures Distinct(xs) && SetOf(xs) == s
  {
    xs := [];
    var rest := s;
    while rest != {}
      invariant rest <= s && Distinct(xs)
      invariant SetOf(xs) == s - rest
    {
      var x :| x in rest;
      assert SetOf(xs + [x]) == SetOf(xs) + {x};
      xs := xs + [x];
      rest := rest - {x};
    }
  }

  // ---------------------------------------------------------------------
  // Writing the records (lines 71-94)
  // ---------------------------------------------------------------------

  /** The ids `0 .. n - 1`, in order. */
  function Range(n: nat): (r: seq<nat>)
    ensures |r| == n && forall i :: 0 <= i < n ==> r[i] == i
  {
    seq(n, i requires 0 <= i < n => i)
  }

  lemma {:induction false} DistinctCard(xs: seq<nat>)
    requires Distinct(xs)
    ensures |SetOf(xs)| == |xs|
  {
    if xs != [] {
      var last := xs[|xs| - 1];
      var init := xs[..|xs| - 1];
      DistinctCard(init);
      assert xs == init + [last];
      assert SetOf(xs) == SetOf(init) + {last};
      assert last !in SetOf(init);
    }
  }

  /** A repetition-free sequence holding exactly the ids below `n` has length `n`. */
  lemma DistinctLength(xs: seq<nat>, n: nat)
    requires Distinct(xs)
    requires forall i: nat :: i in xs <==> i < n
    ensures |xs| == n
  {
    DistinctCard(xs);
    DistinctCard(Range(n));
    forall x: nat ensures x in SetOf(xs) <==> x in SetOf(Range(n)) {
      if x < n {
        assert Range(n)[x] == x;
      }
    }
    assert SetOf(xs) == SetOf(Range(n));
  }

  /**
   * What the records written so far say: line `k` is the record of id
   * `order[k]`, written with the enumeration `lists[k]` of its neighbour set,
   * and that enumeration is the one chosen for the id's bucket.
   */
  ghost predicate Written(words: seq<string>, lines: seq<string>, order: seq<nat>, lists: seq<seq<nat>>,
                          listOf: map<Key, seq<nat>>)
  {
    && |lines| == |order| == |lists|
    && Distinct(order)
    && (forall k :: 0 <= k < |lines| ==>
      && order[k] < |words|
      && lines[k] == FormatRecord(order[k], lists[k])
      && Distinct(lists[k])
      && SetOf(lists[k]) == Neighbours(words, order[k])
      && SortLetters(words[order[k]]) in listOf
      && lists[k] == listOf[SortLetters(words[order[k]])])
  }

  /** Writing the record of one more id of the bucket `key` keeps `Written`. */
  lemma WriteOne(words: seq<string>, lines: seq<string>, order: seq<nat>, lists: seq<seq<nat>>,
                 listOf: map<Key, seq<nat>>, key: Key, i: nat, neighbours: seq<nat>)
    requires Written(words, lines, order, lists, listOf)
    requires i < |words| && i !in order && key == SortLetters(words[i])
    requires key in listOf && listOf[key] == neighbours
    requires Distinct(neighbours) && SetOf(neighbours) == Neighbourhood(words, key)
    ensures Written(words, lines + [FormatRecord(i, neighbours)], order + [i], lists + [neighbours], listOf)
  {
    SortLettersCorrect(words[i]);
    assert Neighbourhood(words, key) == Neighbours(words, i);
    var order' := order + [i];
    forall a, c | 0 <= a < c < |order'|
      ensures order'[a] != order'[c]
    {
      if c == |order| {
        assert order[a] in order;
      }
    }
  }

  /** Choosing the enumeration of a new bucket keeps `Written`. */
  lemma ChooseList(words: seq<string>, lines: seq<string>, order: seq<nat>, lists: seq<seq<nat>>,
                   listOf: map<Key, seq<nat>>, key: Key, neighbours: seq<nat>)
    requires Written(words, lines, order, lists, listOf)
    requires forall k :: 0 <= k < |order| ==> SortLetters(words[order[k]]) != key
    ensures Written(words, lines, order, lists, listOf[key := neighbours])
  {
  }

  /**
   * Lines 56-94 without the I/O: the lines written to the data file, in
   * write order. `order[k]` is the id line `k` is about and `lists[k]` the
   * enumeration of its neighbour set used to write it.
   */
  method Precompute(words: seq<string>) returns (lines: seq<string>, ghost order: seq<nat>, ghost lists: seq<seq<nat>>)
    ensures |lines| == |order| == |lists| == |words|
    ensures Distinct(order) && forall i: nat :: i in order <==> i < |words|
    ensures forall k :: 0 <= k < |lines| ==>
      && order[k] < |words|
      && lines[k] == FormatRecord(order[k], lists[k])
      && Distinct(lists[k])
      && SetOf(lists[k]) == Neighbours(words, order[k])
    ensures forall k, k' ::
      0 <= k < |lines| && 0 <= k' < |lines| && SortLetters(words[order[k]]) == SortLetters(words[order[k']])
      ==> lists[k] == lists[k']
  {
    var buckets := BuildBuckets(words);
    var pending := buckets.Keys;
    lines, order, lists := [], [], [];
    ghost var listOf: map<Key, seq<nat>> := map[];
    while pending != {}
      invariant pending <= buckets.Keys
      invariant Written(words, lines, order, lists, listOf)
      invariant forall i: nat :: i in order <==> i < |words| && SortLetters(words[i]) !in pending
    {
      var key :| key in pending;
      pending := pending - {key};
      var ns := NeighboursOfKey(words, buckets, key);
      var neighbours := Enumerate(ns);
      ChooseList(words, lines, order, lists, listOf, key, neighbours);
      listOf := listOf[key := neighbours];
      var ids := buckets[key];
      while ids != {}
        invariant ids <= buckets[key]
        invariant Written(words, lines, order, lists, listOf)
        invariant forall i: nat :: i in order <==>
          (i < |words| && (SortLetters(words[i]) !in pending + {key} || (SortLetters(words[i]) == key && i !in ids)))
      {
        var i :| i in ids;
        ids := ids - {i};
        WriteOne(words, lines, order, lists, listOf, key, i, neighbours);
        lines := lines + [FormatRecord(i, neighbours)];
        order := order + [i];
        lists := lists + [neighbours];
      }
    }
    DistinctLength(order, |words|);
  }

  // ---------------------------------------------------------------------
  // Properties of the recorded neighbour relation
  // ---------------------------------------------------------------------

  /** A move makes a word exactly one character longer or shorter. */
  lemma MoveLength(u: string, v: string)
    requires Move(u, v)
    ensures |v| == |u| + 1 || |v| + 1 == |u|
  {
    assert |multiset(u)| == |u| && |multiset(v)| == |v|;
    if exists c :: c in Letters && multiset(v) == multiset(u) + multiset{c} {
      var c :| c in Letters && multiset(v) == multiset(u) + multiset{c};
    } else {
      var c :| c in multiset(u) && multiset(v) == multiset(u) - multiset{c};
      assert multiset(u) == multiset(v) + multiset{c};
    }
  }

  /**
   * A word is never its own neighbour, nor a neighbour of any word with the
   * same key: every probed key is one character longer or shorter.
   */
  lemma NoSelfNeighbours(words: seq<string>, i: nat, x: nat)
    requires i < |words| && x < |words|
    requires SortLetters(words[x]) == SortLetters(words[i])
    ensures x !in Neighbours(words, i)
  {
    SameKeyIffAnagram(words[x], words[i]);
    assert |words[x]| == |multiset(words[x])| == |multiset(words[i])| == |words[i]|;
    if Move(words[i], words[x]) {
      MoveLength(words[i], words[x]);
    }
  }

  /** Deleting `c` undoes inserting it, and inserting a letter undoes deleting it. */
  lemma MoveReverses(u: string, v: string)
    requires forall k :: 0 <= k < |u| ==> u[k] in Letters
    requires Move(u, v)
    ensures Move(v, u)
  {
    if exists c :: c in Letters && multiset(v) == multiset(u) + multiset{c} {
      var c :| c in Letters && multiset(v) == multiset(u) + multiset{c};
      InsertReverses(u, v, c);
    } else {
      var c :| c in multiset(u) && multiset(v) == multiset(u) - multiset{c};
      assert c in u;
      var k :| 0 <= k < |u| && u[k] == c;
      DeleteReverses(u, v, c);
    }
  }

  /** Adding a letter is undone by removing it. */
  lemma InsertReverses(u: string, v: string, c: char)
    requires multiset(v) == multiset(u) + multiset{c}
    ensures Move(v, u)
  {
    assert c in multiset(v) && multiset(u) == multiset(v) - multiset{c};
  }

  /** Removing a letter is undone by adding it back. */
  lemma DeleteReverses(u: string, v: string, c: char)
    requires c in Letters && c in multiset(u) && multiset(v) == multiset(u) - multiset{c}
    ensures Move(v, u)
  {
    assert multiset(u) == multiset(v) + multiset{c};
  }


  lemma InNeighbours(words: seq<string>, i: nat, x: nat)
    requires i < |words|
    ensures x in Neighbours(words, i) <==> x < |words| && Move(words[i], words[x])
  {
  }

  /** When every word is made of ASCII letters, the recorded relation is symmetric. */
  lemma NeighboursSymmetric(words: seq<string>, i: nat, j: nat)
    requires AllLetters(words)
    requires i < |words| && j < |words|
    ensures j in Neighbours(words, i) <==> i in Neighbours(words, j)
  {
    InNeighbours(words, i, j);
    InNeighbours(words, j, i);
    var u, v := words[i], words[j];
    assert forall k :: 0 <= k < |u| ==> u[k] in Letters by {
      forall k | 0 <= k < |u| ensures u[k] in Letters {
        assert words[i][k] == u[k];
      }
    }
    assert forall k :: 0 <= k < |v| ==> v[k] in Letters by {
      forall k | 0 <= k < |v| ensures v[k] in Letters {
        assert words[j][k] == v[k];
      }
    }
    if Move(u, v) {
      MoveReverses(u, v);
    }
    if Move(v, u) {
      MoveReverses(v, u);
    }
  }

  /**
   * Without the letters-only condition symmetry fails: deleting '1' takes
   * "a1" to "a", but '1' is not among the letters inserted from "a".
   */
  lemma AsymmetricWithDigit()
    ensures 1 in Neighbours(["a1", "a"], 0)
    ensures 0 !in Neighbours(["a1", "a"], 1)
  {
    var words := ["a1", "a"];
    assert multiset(words[0])['1'] == 1;
    assert '1' in multiset(words[0]) && multiset(words[1]) == multiset(words[0]) - multiset{'1'};
    forall c | c in Letters
      ensures multiset(words[0]) != multiset(words[1]) + multiset{c}
    {
      LettersAreAscii(c);
      assert (multiset(words[1]) + multiset{c})['1'] == 0;
    }
    forall c | c in multiset(words[1])
      ensures multiset(words[0]) != multiset(words[1]) - multiset{c}
    {
      assert (multiset(words[1]) - multiset{c})['1'] == 0;
    }
  }
}
