/**
 * The shortest word ladder (ladders.py:117-177): check both words, search
 * breadth-first from the start word until the goal word is seen as a
 * neighbour, then follow `came_from` back to spell the ladder.
 */
module Ladder {
  import opened Graph
  import opened Store

  /** Lines 137-143: every word is in the word index. */
  method CheckWords(toIndex: map<string, nat>, words: seq<string>) returns (ok: bool)
    ensures ok <==> forall k :: 0 <= k < |words| ==> words[k] in toIndex
  {
    for k := 0 to |words|
      invariant forall j :: 0 <= j < k ==> words[j] in toIndex
    {
      if words[k] !in toIndex {
        return false;
      }
    }
    return true;
  }

  /**
   * Lines 117-124: walk `came_from` back from `goal` to `start`, reverse,
   * and spell each id. The ghost `depth` is the search tree `came_from`
   * belongs to; it bounds the walk back.
   */
  method GeneratePath(g: Graph, toWord: map<nat, string>, cameFrom: map<nat, nat>, start: nat, goal: nat,
                      ghost depth: map<nat, nat>)
    returns (ids: seq<nat>, words: seq<string>)
    requires Tree(g, cameFrom, depth, start) && goal in depth && g.Keys <= toWord.Keys
    ensures Walk(g, ids, start, goal) && |ids| == depth[goal] + 1
    ensures |words| == |ids| && forall k :: 0 <= k < |ids| ==> ids[k] in toWord && words[k] == toWord[ids[k]]
  {
    var path: seq<nat> := [];
    var cur := goal;
    while cur != start
      invariant cur in depth && |path| + depth[cur] == depth[goal]
      invariant BackWalk(g, path + [cur], goal, cur)
      decreases depth[cur]
    {
      var next := cameFrom[cur];
      BackWalkExtend(g, path + [cur], goal, cur, next);
      assert path + [cur] + [next] == (path + [cur]) + [next];
      path := path + [cur];
      cur := next;
    }
    path := path + [start];
    ids := seq(|path|, k requires 0 <= k < |path| => path[|path| - 1 - k]);
    ReversedWalk(g, path, ids, start, goal);
    words := seq(|ids|, k requires 0 <= k < |ids| => toWord[ids[k]]);
  }

  /** `path` follows the edges backwards, from `last` at its end to `first` at its head. */
  ghost predicate BackWalk(g: Graph, path: seq<nat>, first: nat, last: nat) {
    && path != [] && path[0] == first && path[|path| - 1] == last
    && (forall k :: 0 <= k < |path| ==> path[k] in g)
    && (forall k :: 0 <= k < |path| - 1 ==> path[k] in g[path[k + 1]])
  }

  lemma BackWalkExtend(g: Graph, path: seq<nat>, first: nat, last: nat, next: nat)
    requires BackWalk(g, path, first, last) && next in g && last in g[next]
    ensures BackWalk(g, path + [next], first, next)
  {
  }

  /** A walk taken backwards along the edges, reversed, is a walk. */
  lemma ReversedWalk(g: Graph, path: seq<nat>, ids: seq<nat>, start: nat, goal: nat)
    requires BackWalk(g, path, goal, start)
    requires |ids| == |path| && forall k :: 0 <= k < |path| ==> ids[k] == path[|path| - 1 - k]
    ensures Walk(g, ids, start, goal)
  {
    forall i | 0 <= i < |ids| - 1
      ensures ids[i + 1] in g[ids[i]]
    {
      var k := |path| - 2 - i;
      assert ids[i + 1] == path[k] && ids[i] == path[k + 1];
    }
  }

  /** What `compute` ends with: a bad word, no ladder, or a ladder as ids and as words. */
  datatype Outcome = UnknownWord | NoPath | Found(ids: seq<nat>, words: seq<string>)

  /**
   * The goal is seen as a neighbour of `word`: the ladder through `word`
   * is one step longer than `word`'s depth, and none is shorter.
   */
  lemma GoalSeen(g: Graph, s: nat, t: nat, done: set<nat>, queue: seq<nat>, expanded: set<nat>,
                 depth: map<nat, nat>, parent: map<nat, nat>, word: nat)
    requires Closed(g)
    requires Search(g, s, done, queue, expanded, depth, parent, word)
    requires t in g[word]
    requires forall e :: e in expanded ==> t !in g[e]
    requires s != t ==> t !in done
    ensures ReachablePlus(g, s, t)
    ensures s != t ==> Tree(g, parent[t := word], depth[t := depth[word] + 1], s)
    ensures s == t ==> Tree(g, parent[t := word], depth, s)
    ensures s != t ==> forall w :: Walk(g, w, s, t) && |w| >= 2 ==> |w| >= depth[word] + 2
  {
    var w := TreeWalk(g, parent, depth, s, word);
    WalkExtend(g, w, s, word, t);
    if s != t {
      SearchLayered(g, s, done, queue, expanded, depth, parent, word);
      forall w' | Walk(g, w', s, t) && |w'| >= 2
        ensures |w'| >= depth[word] + 2
      {
        FirstSighting(g, depth, s, t, depth[word], w');
      }
    }
  }

  /**
   * Lines 146-151: an unknown word ends the search before it starts.
   * Otherwise the answer is that of the search between the two ids.
   */
  method Compute(d: Dictionary, start: string, goal: string) returns (r: Outcome)
    requires WellFormed(d)
    ensures r.UnknownWord? <==> start !in d.wordsToIndex || goal !in d.wordsToIndex
    ensures !r.UnknownWord? ==>
      var s := d.wordsToIndex[start];
      var t := d.wordsToIndex[goal];
      && (r.NoPath? <==> !ReachablePlus(d.neighbors, s, t))
      && (r.Found? && s != t ==> ShortestWalk(d.neighbors, r.ids, s, t))
      && (r.Found? && s == t ==> r.ids == [s])
    ensures r.Found? ==>
      && |r.words| == |r.ids|
      && forall k :: 0 <= k < |r.ids| ==> r.ids[k] in d.indexToWord && r.words[k] == d.indexToWord[r.ids[k]]
  {
    var ok := CheckWords(d.wordsToIndex, [start, goal]);
    if !ok {
      return UnknownWord;
    }
    assert [start, goal][0] == start && [start, goal][1] == goal;
    r := ShortestLadder(d.neighbors, d.indexToWord, d.wordsToIndex[start], d.wordsToIndex[goal]);
  }

  /**
   * Lines 152-177. The ladder found is a shortest walk of one step or more
   * from `s` to `t`; "no path" is answered exactly when there is none.
   * For `s == t` the one-word ladder is answered only when `s` can reach
   * itself again.
   */
  method ShortestLadder(g: Graph, toWord: map<nat, string>, s: nat, t: nat) returns (r: Outcome)
    requires Closed(g) && s in g && g.Keys == toWord.Keys
    ensures !r.UnknownWord?
    ensures r.NoPath? <==> !ReachablePlus(g, s, t)
    ensures r.Found? && s != t ==> ShortestWalk(g, r.ids, s, t)
    ensures r.Found? && s == t ==> r.ids == [s]
    ensures r.Found? ==>
      && |r.words| == |r.ids|
      && forall k :: 0 <= k < |r.ids| ==> r.ids[k] in toWord && r.words[k] == toWord[r.ids[k]]
  {
    var queue: seq<nat> := [s];
    var done: set<nat> := {s};
    var cameFrom: map<nat, nat> := map[];
    var word: nat := s;
    ghost var depth: map<nat, nat> := map[s := 0];
    ghost var expanded: set<nat> := {};
    SearchStart(g, s);
    while queue != []
      invariant Search(g, s, done, queue, expanded, depth, cameFrom, word)
      invariant forall v :: v in done ==> v in expanded || v in queue
      invariant forall e :: e in expanded ==> t !in g[e]
      invariant s != t ==> t !in done
      decreases 2 * |g.Keys - done| + |queue|
    {
      SearchPop(g, s, done, queue, expanded, depth, cameFrom, word);
      word := queue[0];
      queue := queue[1..];
      var found;
      found, queue, done, cameFrom, depth := Expand(g, s, t, word, queue, done, cameFrom, expanded, depth);
      if found {
        r := Answer(g, toWord, cameFrom, s, t, depth);
        return;
      }
      expanded := expanded + {word};
    }
    Exhausted(g, depth, s, t);
    return NoPath;
  }

  /** Lines 169-171: spell the ladder found, which is a shortest one. */
  method Answer(g: Graph, toWord: map<nat, string>, cameFrom: map<nat, nat>, s: nat, t: nat, ghost depth: map<nat, nat>)
    returns (r: Outcome)
    requires g.Keys == toWord.Keys
    requires ReachablePlus(g, s, t) && Tree(g, cameFrom, depth, s) && t in depth
    requires s != t ==> forall w :: Walk(g, w, s, t) && |w| >= 2 ==> |w| >= depth[t] + 1
    requires s == t ==> depth[t] == 0
    ensures r.Found?
    ensures s != t ==> ShortestWalk(g, r.ids, s, t)
    ensures s == t ==> r.ids == [s]
    ensures |r.words| == |r.ids| && forall k :: 0 <= k < |r.ids| ==> r.ids[k] in toWord && r.words[k] == toWord[r.ids[k]]
  {
    var ids, words := GeneratePath(g, toWord, cameFrom, s, t, depth);
    r := Found(ids, words);
  }

  /**
   * Lines 165-174: scan the neighbours of `word`. At the goal, record
   * where it came from and stop (`found`); otherwise queue every neighbour
   * not yet discovered. `depth` follows along as the search tree's depths.
   */
  method Expand(g: Graph, ghost s: nat, t: nat, word: nat, queue: seq<nat>, done: set<nat>, cameFrom: map<nat, nat>,
                ghost expanded: set<nat>, ghost depth: map<nat, nat>)
    returns (found: bool, queue': seq<nat>, done': set<nat>, cameFrom': map<nat, nat>, ghost depth': map<nat, nat>)
    requires Closed(g) && word in g
    requires Search(g, s, done, queue, expanded, depth, cameFrom, word)
    requires forall e :: e in expanded ==> t !in g[e]
    requires s != t ==> t !in done
    ensures found ==> ReachablePlus(g, s, t)
    ensures found ==> Tree(g, cameFrom', depth', s) && t in depth'
    ensures found && s != t ==> forall w :: Walk(g, w, s, t) && |w| >= 2 ==> |w| >= depth'[t] + 1
    ensures found && s == t ==> depth'[t] == 0
    ensures !found ==> Search(g, s, done', queue', expanded + {word}, depth', cameFrom', word)
    ensures !found ==> t !in g[word] && (s != t ==> t !in done')
    ensures !found ==> 2 * |g.Keys - done'| + |queue'| <= 2 * |g.Keys - done| + |queue|
  {
    queue', done', cameFrom', depth' := queue, done, cameFrom, depth;
    var rest := g[word];
    while rest != {}
      invariant Search(g, s, done', queue', expanded, depth', cameFrom', word)
      invariant rest <= g[word] && g[word] - rest <= done' && t !in g[word] - rest
      invariant s != t ==> t !in done'
      invariant 2 * |g.Keys - done'| + |queue'| <= 2 * |g.Keys - done| + |queue|
      decreases rest
    {
      var neighbor :| neighbor in rest;
      rest := rest - {neighbor};
      if neighbor == t {
        GoalSeen(g, s, t, done', queue', expanded, depth', cameFrom', word);
        depth' := if s == t then depth' else depth'[t := depth'[word] + 1];
        cameFrom' := cameFrom'[neighbor := word];
        return true, queue', done', cameFrom', depth';
      }
      if neighbor !in done' {
        SearchDiscover(g, s, done', queue', expanded, depth', cameFrom', word, neighbor);
        DiscoverShrinks(g.Keys, done', neighbor);
        queue' := queue' + [neighbor];
        done' := done' + {neighbor};
        cameFrom' := cameFrom'[neighbor := word];
        depth' := depth'[neighbor := depth'[word] + 1];
      }
    }
    found := false;
  }
}
