# WordLadder in Dafny

A model of `ladders.py`, a word-ladder finder. In this program, two words are
neighbours when one becomes an anagram of the other by adding one ASCII
letter or by removing one character.

- `precompute` puts the words of a word list into buckets keyed by their
  sorted letters (`sort_letters`).
- It then probes every bucket's one-letter insertions and deletions and
  writes one record `"id n1 n2 ..."` per word id.
- `load_data` numbers the words and reads those records back into the
  neighbour map, running `precompute` first when the data file is missing.
- `compute` searches breadth-first from the start word until the goal word
  is seen as a neighbour. It then spells the ladder by walking `came_from`
  back to the start (`generate_path`).
- `count_groups` splits the ids into groups by flood-filling.
- `find_words_in_group` collects what one word reaches.
- `find_longest_path` runs a breadth-first search from every word of a group
  and keeps the greatest distance found. It reports progress at the
  checkpoints `get_next_output` produces, with times written by
  `format_time`.

The modules:

| module | models | form |
|---|---|---|
| `Wrappers` | `Option` | datatype |
| `Keys` | `sort_letters` | functions and lemmas |
| `Records` | `str`/`int` on naturals, `strip`, `split(" ")`, `" ".join`, `lower`, the record line | functions and lemmas |
| `Precompute` | `precompute` | methods with loops, proved against the ghost relation `Move` |
| `Store` | `load_data`; the three global dictionaries become one `Dictionary` value, which is read-only once loaded | methods and functions |
| `Graph` | walks, reachability, distance, and the breadth-first-search invariant shared by every search | predicates and lemmas |
| `Ladder` | `check_words`, `generate_path`, `compute` | methods with loops |
| `Groups` | `count_groups`, `find_words_in_group`, `find_longest_path` | methods with loops |
| `Timing` | `format_time`, `get_next_output` | functions and lemmas |

**Entities.**
- Word ids are `nat`, the graph is `map<nat, set<nat>>`, and words are
  `string`.
- The model leaves the order of every loop over a set or dict free: each
  step takes an arbitrary element (`:|`), and every result is proved for
  every possible order. For dicts Python fixes insertion order, so
  `precompute` writes the buckets in the order their keys first occur; the
  model does not pin that down.
- Ghost parameters carry what exists only for the proof: search depths,
  parent pointers, the groups behind their counts, and the order in which
  sources were tried.

**Where the code and its design description disagree, the model follows the code:**
- `compute(w, w)` does not answer a one-word ladder unconditionally. The
  goal is only checked among the neighbours of expanded words. So `[w]` is
  answered exactly when `w` can reach itself again by one or more steps;
  otherwise the answer is "no path" (`Ladder.Compute`).
- Empty lines of the word list are not skipped. They take an id and a
  bucket like any other line.
- A word occurring twice keeps the id of its last line in `WORDS_TO_INDEX`
  (`Store.IndexRoundTrip`).
- The neighbour relation is guaranteed symmetric when every word is made of
  ASCII letters (`Precompute.NeighboursSymmetric`). Otherwise it may not be:
  insertion probes use letters only, while deletion probes remove any
  character (`Precompute.AsymmetricWithDigit`).
- Two distinct words with the same sorted letters (true anagrams) are never
  neighbours (`Precompute.NoSelfNeighbours`).

## Model

| member | source | states |
|---|---|---|
| Keys.SortLettersCorrect | ladders.py:39-41 | the key of a word is sorted and has exactly the word's characters, with their multiplicities |
| Keys.SameKeyIffAnagram | ladders.py:39-41 | two words have the same key if and only if they are anagrams of each other (equal multisets) |
| Keys.SortLettersIdempotent | ladders.py:39-41 | a key is its own key |
| Records.NormalizeIdempotent | ladders.py:60 | a normalized word-list line has no capital and no whitespace at either end, so normalizing it again changes nothing |
| Records.NatRoundTrip | ladders.py:113 | `int` of `str(n)` is `n` for every natural `n` |
| Records.SplitJoin | ladders.py:112 | splitting on a space what was joined with spaces gives back the pieces, when no piece contains a space |
| Records.RecordRoundTrip | ladders.py:89-94 | the line written for an id and any enumeration of its neighbour set parses back to exactly that id and set; a record with no neighbours, written `"i\n"`, parses to the empty set |
| Precompute.LettersAreAscii | ladders.py:80 | the insertion alphabet holds exactly the characters 'a'..'z' and 'A'..'Z' |
| Precompute.BuildBuckets | ladders.py:59-61 | every line id is in the bucket of its word's key, every bucket holds only ids whose word has that key, and no bucket is empty |
| Precompute.NeighboursOfKey | ladders.py:79-87 | the union of the insertion and deletion probes is exactly the set of ids whose words are one move from the key |
| Precompute.Enumerate | ladders.py:89 | the enumeration of a set lists each member exactly once and nothing else |
| Precompute.Precompute | ladders.py:54-95 | exactly one record line per word id (none missing or repeated); each line is that id's formatted record with its complete neighbour set; ids with the same key are written with the same neighbour list |
| Precompute.MoveLength | ladders.py:80-87 | a move changes the length of a word by exactly one |
| Precompute.NoSelfNeighbours | ladders.py:79-87 | no id has itself, or any id with the same key, as a neighbour |
| Precompute.NeighboursSymmetric | ladders.py:79-87 | over words made only of ASCII letters, `j` is a neighbour of `i` if and only if `i` is a neighbour of `j` |
| Precompute.AsymmetricWithDigit | ladders.py:80-87 | with a non-letter character the relation is not symmetric: "a" is a neighbour of "a1" but not the reverse |
| Store.BuildIndex | ladders.py:100-104 | every line id maps to its normalized word; every word seen maps to the last line holding it, and no other word is indexed |
| Store.IndexRoundTrip | ladders.py:100-104 | a word's id spells that word, and every id's word has an id at least as large (duplicates keep the last) |
| Store.LoadedSomeIff | ladders.py:110-113 | reading the data file succeeds if and only if every line is a record (otherwise `int` raises) |
| Store.ApplyLast | ladders.py:110-113 | the loaded map holds exactly the ids of the records, and each id has the neighbour set of its last record |
| Store.LoadNeighbors | ladders.py:110-113 | the loop leaves the neighbour map that the records give one after another; a line that is not a record is an error |
| Store.LoadPrecomputed | ladders.py:107-113 | the lines precompute writes, in whatever order, load back as every word id's complete neighbour set |
| Store.NeighbourMapClosed | ladders.py:79-94 | every neighbour the precomputed graph records is a word id, and no id is its own neighbour |
| Store.NeighbourMapSymmetric | ladders.py:79-94 | over words made only of ASCII letters, the precomputed graph is symmetric |
| Store.LoadData | ladders.py:98-114 | the word index is built from the word list. An existing data file loads exactly as its records say, or fails when a line is not a record. A missing data file is precomputed, and the graph loaded is the true neighbour map, well formed |
| Graph.TreeWalk | ladders.py:117-124 | following parents back from a discovered node gives a walk from the start whose steps equal the node's depth |
| Graph.FirstSighting | ladders.py:165-170 | when no node shallower than depth `d` has the goal as a neighbour, no walk of one step or more reaches the goal in fewer than `d + 1` steps |
| Graph.Exhausted | ladders.py:160-176 | when the search ends without seeing the goal, the goal is not reachable in one or more steps |
| Graph.SearchPop | ladders.py:160-161 | taking the front of the queue keeps the search invariant: queued depths are non-decreasing and differ by at most one, and depths are distances |
| Graph.DepthIsDistance | ladders.py:171-174 | the depth at which a search discovers a node is its distance from the start |
| Ladder.CheckWords | ladders.py:137-143 | true if and only if every word is in the word index |
| Ladder.GeneratePath | ladders.py:117-124 | the ids spell a walk from start to goal with depth-of-goal steps, and each word is the indexed word of its id |
| Ladder.GoalSeen | ladders.py:166-167 | when the goal is first seen from `word`, the goal is reachable and no ladder is shorter than one step past `word`'s depth |
| Ladder.Expand | ladders.py:165-174 | scanning a word either finds the goal with a tree that gives a shortest walk to it, or queues every undiscovered neighbour and keeps the search invariant |
| Ladder.Answer | ladders.py:169 | the ladder spelled from `came_from` is a shortest walk of one step or more, spelled word by word |
| Ladder.ShortestLadder | ladders.py:152-177 | "no path" if and only if the goal is not reachable by one step or more; otherwise a shortest walk from start to goal, or `[s]` when start and goal are the same word |
| Ladder.Compute | ladders.py:146-177 | an unknown word if and only if one of the two words is not indexed; otherwise exactly what `ShortestLadder` promises, between the two words' ids |
| Groups.FindWordsInGroup | ladders.py:206-215 | the result is exactly the set of ids reachable from the start id |
| Groups.Spread | ladders.py:194-198 | all neighbours still left are queued and removed from `todo`; the queue gains exactly the newly grouped ids, all reachable from the seed |
| Groups.FloodFill | ladders.py:190-198 | the count is the size of the group filled; the group holds the seed and ids it reaches, taken only from `todo`; no edge leaves it except into earlier groups |
| Groups.AddGroup | ladders.py:199 | appending a flood-filled group keeps the groups disjoint, seeded, closed to later groups, and their counts summing to the ids grouped |
| Groups.GroupAll | ladders.py:187-199 | the groups partition every id of the graph, with each count the size of its group |
| Groups.CountGroups | ladders.py:187-199 | the group counts sum to the number of word ids; the groups are disjoint, cover every id, and each is reached from its seed |
| Groups.GroupsAreComponents | ladders.py:187-199 | in a symmetric graph, each group is exactly the set of ids its seed reaches: the groups are the connected components |
| Groups.Visit | ladders.py:260-266 | scanning a word queues its undiscovered neighbours one step further and keeps every earlier `steps_to` entry |
| Groups.Eccentricity | ladders.py:248-266 | the word last taken from the queue is at distance `steps_to[word]` from the source, and every reachable word is within that distance |
| Groups.TryAll | ladders.py:247-270 | every word of the group is tried once. No source has a word farther than the maximum. The maximum is found first from the recorded source, because earlier sources reach nothing at that distance |
| Groups.FindLongestPath | ladders.py:234-273 | an unknown start word if and only if it is not indexed; "no ladder" if and only if the group is that one word; otherwise a pair of the group at distance `length` ≥ 1, no pair of the group farther apart, and the first such source tried |
| Timing.FormatTimeRoundTrip | ladders.py:218-224 | reading back the hours, minutes and seconds written gives the number of seconds formatted |
| Timing.OneHour | ladders.py:218-224 | 3600 seconds is not more than an hour, so it is written "60m 0s" |
| Timing.HourAndSecond | ladders.py:218-224 | 3601 seconds is written "1h 1s", with no minutes piece |
| Timing.NextOutput | ladders.py:227-232 | the next checkpoint is always greater than the current one |
| Timing.CheckpointTens | ladders.py:244-256 | progress is reported at 10, 20, ..., 100 |
| Timing.CheckpointHundreds | ladders.py:244-256 | then at 200, 300, ..., 1000 |
| Timing.CheckpointThousands | ladders.py:244-256 | then at every multiple of 1000 |

## Left out

- Reading files, writing the output file, gzip and the data-file path are
  not modelled. The word list and the data file arrive as sequences of lines.
  The missing data file (`os.path.isfile`) is an `Option` parameter of
  `Store.LoadData`.
- Console output is not modelled: the progress bar, "Words visited" and
  the "new longest path" lines.
- The `ZeroDivisionError` of the progress cadence is not modelled. In
  `precompute`, `output_steps` is the number of distinct sorted-letter keys
  divided by 100. It is zero, and `words_done % output_steps` raises, whenever
  there are fewer than 100 distinct keys, however long the list. This happens
  after the data file has already been created for writing. In `compute`,
  `output_steps` is the number of distinct normalized words divided by 100,
  with the same effect below 100 such words.
- An empty word list makes `precompute`'s `print("Read", i+1, ...)` raise
  `UnboundLocalError`, because the loop never binds `i`. This happens both
  when `precompute` is run directly and inside `load_data` when the data file
  is missing. Precompute.Precompute returns no lines instead, and
  Store.LoadData returns an empty, well-formed dictionary.
- Groups.CountGroups: after the last group is counted, the source reports the
  group sizes with `Counter`, which is never imported, so every call ends in
  `NameError`. The model returns the counts the flood fill computed.
- `find_longest_path`'s elapsed-time and estimated-time arithmetic uses
  floating point and the clock, and is not modelled.
- Timing.FormatTime: takes a whole number of seconds; the `int(time)`
  truncation of a float is not modelled.
- Iteration order is left free. Sets iterate in an order Python does not
  specify. Dicts iterate in insertion order, so `precompute` visits the buckets
  in first-occurrence order, but the model does not fix it. So the model does
  not pin down which shortest ladder, which source, which seed or which bucket
  order is picked, and it does not state that re-running `precompute` gives
  byte-identical output.
- Records.ParseRecord: accepts only decimal digit strings as numerals.
  Python's `int` also accepts a sign, underscores, surrounding whitespace
  and non-ASCII decimal digits; the model rejects all of these. Negative ids
  cannot occur in files `precompute` writes.
- Records.Lower: lowers only ASCII capitals; Python's full Unicode case
  mapping is not modelled.
- Store.WellFormed: the searches are modelled only on dictionaries in which
  three things hold:
  - the ids with a record are exactly the lines of the word list, so every
    line id has a neighbour set and every record's id is a line of the list;
  - every recorded neighbour has a record of its own;
  - every indexed word's id has a record.

  Ladder.Compute, Groups.CountGroups and Groups.FindLongestPath are not
  modelled on a data file that breaks these, such as a stale one from another
  word list. On such a file the source may raise `KeyError`: when it takes an id
  with no record from the queue, or spells a path id that has no word. Or it
  may answer silently from the stale graph. For example, `count_groups` skips
  neighbour ids it does not know.
- Groups.FindLongestPath: an unknown start word answers `UnknownStart`
  where the source raises `KeyError`.
- Groups.FindLongestPath: for a group of one word the source crashes on
  `INDEX_TO_WORD[None]`; the model answers `NoLadder` instead.
- The command-line entry point (`main`, argument parsing) is not modelled.

