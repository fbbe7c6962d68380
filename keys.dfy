/**
 * The canonical anagram key of a word (`sort_letters`, ladders.py:39-41):
 * the word's characters in ascending code-point order.
 */
module Keys {

  /** A canonical key: the letters of a word, sorted. */
  type Key = seq<char>

  predicate Sorted(s: seq<char>) {
    forall i, j :: 0 <= i < j < |s| ==> s[i] <= s[j]
  }

  /** Inserts `c` before the first element of `s` that is not smaller than it. */
  function Insert(c: char, s: seq<char>): seq<char> {
    if s == [] then [c]
    else if c <= s[0] then [c] + s
    else [s[0]] + Insert(c, s[1..])
  }

  /** `"".join(sorted(word))`: the word's characters in ascending order. */
  function SortLetters(w: seq<char>): Key {
    if w == [] then [] else Insert(w[|w| - 1], SortLetters(w[..|w| - 1]))
  }

  lemma SortedCons(x: char, t: seq<char>)
    requires Sorted(t)
    requires forall k :: 0 <= k < |t| ==> x <= t[k]
    ensures Sorted([x] + t)
  {
    var r := [x] + t;
    forall i, j | 0 <= i < j < |r|
      ensures r[i] <= r[j]
    {
      if i > 0 {
        assert r[i] == t[i - 1] && r[j] == t[j - 1];
      } else {
        assert r[j] == t[j - 1];
      }
    }
  }

  /** Inserting adds exactly `c` to the elements. */
  lemma {:induction false} InsertElements(c: char, s: seq<char>)
    ensures multiset(Insert(c, s)) == multiset(s) + multiset{c}
  {
    if s != [] && c > s[0] {
      InsertElements(c, s[1..]);
      assert s == [s[0]] + s[1..];
    }
  }

  /** Inserting into a sorted sequence keeps it sorted. */
  lemma {:induction false} InsertSorted(c: char, s: seq<char>)
    requires Sorted(s)
    ensures Sorted(Insert(c, s))
  {
    if s != [] && c > s[0] {
      var tail := Insert(c, s[1..]);
      InsertSorted(c, s[1..]);
      InsertElements(c, s[1..]);
      assert s == [s[0]] + s[1..];
      forall k | 0 <= k < |tail|
        ensures s[0] <= tail[k]
      {
        assert tail[k] in multiset(tail);
        if tail[k] != c {
          assert tail[k] in multiset(s[1..]);
          assert tail[k] in s[1..];
        }
      }
      SortedCons(s[0], tail);
    } else if s != [] {
      SortedCons(c, s);
    }
  }

  /** A key is sorted and is an anagram of its word. */
  lemma {:induction false} SortLettersCorrect(w: seq<char>)
    ensures Sorted(SortLetters(w))
    ensures multiset(SortLetters(w)) == multiset(w)
  {
    if w != [] {
      SortLettersCorrect(w[..|w| - 1]);
      InsertSorted(w[|w| - 1], SortLetters(w[..|w| - 1]));
      InsertElements(w[|w| - 1], SortLetters(w[..|w| - 1]));
      assert w == w[..|w| - 1] + [w[|w| - 1]];
    }
  }

  /** The head of a sorted sequence is its least element. */
  lemma HeadIsLeast(a: seq<char>, x: char)
    requires Sorted(a) && x in multiset(a)
    ensures a != [] && a[0] <= x
  {
    assert x in a;
  }

  /** Two sorted sequences with the same elements are equal: a key is unique. */
  lemma {:induction false} SortedUnique(a: seq<char>, b: seq<char>)
    requires Sorted(a) && Sorted(b)
    requires multiset(a) == multiset(b)
    ensures a == b
  {
    if a != [] {
      SameHead(a, b);
      Behead(a);
      Behead(b);
      SortedUnique(a[1..], b[1..]);
      assert a == [a[0]] + a[1..] && b == [b[0]] + b[1..];
    } else {
      assert |b| == |multiset(b)| == |multiset(a)| == 0;
    }
  }

  /** Two sorted sequences with the same elements start with the same, least, element. */
  lemma SameHead(a: seq<char>, b: seq<char>)
    requires Sorted(a) && Sorted(b) && a != []
    requires multiset(a) == multiset(b)
    ensures b != [] && a[0] == b[0]
  {
    assert a[0] in multiset(a);
    HeadIsLeast(b, a[0]);
    HeadIsLeast(a, b[0]);
  }

  /** The tail of a sorted sequence is sorted and holds all but its head. */
  lemma Behead(a: seq<char>)
    requires Sorted(a) && a != []
    ensures Sorted(a[1..]) && multiset(a[1..]) == multiset(a) - multiset{a[0]}
  {
    assert a == [a[0]] + a[1..];
  }

  /** Two words share a key exactly when they are anagrams of each other. */
  lemma SameKeyIffAnagram(u: seq<char>, v: seq<char>)
    ensures SortLetters(u) == SortLetters(v) <==> multiset(u) == multiset(v)
  {
    SortLettersCorrect(u);
    SortLettersCorrect(v);
    if multiset(u) == multiset(v) {
      SortedUnique(SortLetters(u), SortLetters(v));
    }
  }

  /** Sorting is idempotent: a key is its own key. */
  lemma SortLettersIdempotent(w: seq<char>)
    ensures SortLetters(SortLetters(w)) == SortLetters(w)
  {
    SortLettersCorrect(w);
    SameKeyIffAnagram(SortLetters(w), w);
  }
}
