/**
 * The searches ladders.py runs "for fun" (lines 184-273): the connected
 * groups of the word graph, the words in one group, and the longest
 * shortest ladder inside a group.
 */
module Groups {
  import opened Records
  import opened Graph
  import opened Store

  // ---------------------------------------------------------------------
  // find_words_in_group (lines 206-215)
  // ---------------------------------------------------------------------

  /** Lines 206-215: the words reachable from `s`, found breadth-first. */
  method FindWordsInGroup(g: Graph, s: nat) returns (result: set<nat>)
    requires Closed(g) && s in g
    ensures forall v :: v in result <==> Reachable(g, s, v)
  {
    var queue: seq<nat> := [s];
    result := {s};
    ghost var expanded: set<nat> := {};
    WalkSingle(g, s);
    while queue != []
      invariant result <= g.Keys && s in result
      invariant forall v :: v in result ==> Reachable(g, s, v)
      invariant forall v :: v in queue ==> v in result
      invariant forall v :: v in result ==> v in expanded || v in queue
      invariant forall e :: e in expanded ==> e in result && g[e] <= result
      decreases 2 * |g.Keys - result| + |queue|
    {
      ghost var measure := 2 * |g.Keys - result| + |queue|;
      var word := queue[0];
      queue := queue[1..];
      var rest := g[word];
      while rest != {}
        invariant result <= g.Keys && s in result && word in result
        invariant forall v :: v in result ==> Reachable(g, s, v)
        invariant forall v :: v in queue ==> v in result
        invariant forall v :: v in result ==> v in expanded || v in queue || v == word
        invariant forall e :: e in expanded ==> e in result && g[e] <= result
        invariant rest <= g[word] && g[word] - rest <= result
        invariant 2 * |g.Keys - result| + |queue| < measure
        decreases rest
      {
        var neighbor :| neighbor in rest;
        rest := rest - {neighbor};
        if neighbor !in result {
          ReachStep(g, s, word, neighbor);
          DiscoverShrinks(g.Keys, result, neighbor);
          queue := queue + [neighbor];
          result := result + {neighbor};
        }
      }
      expanded := expanded + {word};
    }
    forall v | Reachable(g, s, v)
      ensures v in result
    {
      var w :| Walk(g, w, s, v);
      StaysInside(g, result, w, s, v);
    }
  }

  // ---------------------------------------------------------------------
  // count_groups (lines 187-199)
  // ---------------------------------------------------------------------

  /** All the ids in the first `n` groups. */
  function UnionUpTo(groups: seq<set<nat>>, n: nat): set<nat>
    requires n <= |groups|
  {
    if n == 0 then {} else UnionUpTo(groups, n - 1) + groups[n - 1]
  }

  /** All the ids in the groups. */
  function Union(groups: seq<set<nat>>): set<nat> {
    UnionUpTo(groups, |groups|)
  }

  function Sum(counts: seq<nat>): nat {
    if counts == [] then 0 else Sum(counts[..|counts| - 1]) + counts[|counts| - 1]
  }

  lemma {:induction false} UnionMembers(groups: seq<set<nat>>, n: nat, v: nat)
    requires n <= |groups|
    ensures v in UnionUpTo(groups, n) <==> exists k :: 0 <= k < n && v in groups[k]
  {
    if n > 0 {
      UnionMembers(groups, n - 1, v);
    }
  }

  lemma {:induction false} UnionAppend(groups: seq<set<nat>>, group: set<nat>, n: nat)
    requires n <= |groups|
    ensures UnionUpTo(groups + [group], n) == UnionUpTo(groups, n)
  {
    if n > 0 {
      UnionAppend(groups, group, n - 1);
      assert (groups + [group])[n - 1] == groups[n - 1];
    }
  }

  /** `counts[k]` is the size of group `k`, which holds its seed `seeds[k]` and only ids that seed reaches. */
  ghost predicate Seeded(g: Graph, counts: seq<nat>, groups: seq<set<nat>>, seeds: seq<nat>) {
    && |counts| == |groups| == |seeds|
    && (forall k :: 0 <= k < |groups| ==> counts[k] == |groups[k]| && seeds[k] in groups[k])
    && (forall k, v :: 0 <= k < |groups| && v in groups[k] ==> Reachable(g, seeds[k], v))
  }

  /** No id is in two groups. */
  ghost predicate Disjoint(groups: seq<set<nat>>) {
    forall j, k :: 0 <= j < k < |groups| ==> groups[j] !! groups[k]
  }

  /** No edge leads from a group to a later one. */
  ghost predicate ClosedUpTo(g: Graph, groups: seq<set<nat>>) {
    forall k, u :: 0 <= k < |groups| && u in groups[k] ==> u in g && g[u] <= UnionUpTo(groups, k + 1)
  }

  /** What the groups found so far satisfy. */
  ghost predicate Partial(g: Graph, counts: seq<nat>, groups: seq<set<nat>>, seeds: seq<nat>) {
    && Seeded(g, counts, groups, seeds)
    && Disjoint(groups)
    && ClosedUpTo(g, groups)
    && Sum(counts) == |Union(groups)|
  }

  lemma AddDisjoint(groups: seq<set<nat>>, group: set<nat>)
    requires Disjoint(groups) && group !! Union(groups)
    ensures Disjoint(groups + [group])
  {
    var groups' := groups + [group];
    forall j, k | 0 <= j < k < |groups'|
      ensures groups'[j] !! groups'[k]
    {
      if k == |groups| {
        forall v | v in groups[j]
          ensures v !in group
        {
          UnionMembers(groups, |groups|, v);
        }
      }
    }
  }

  lemma AddClosed(g: Graph, groups: seq<set<nat>>, group: set<nat>)
    requires ClosedUpTo(g, groups)
    requires forall u :: u in group ==> u in g && g[u] <= Union(groups) + group
    ensures ClosedUpTo(g, groups + [group])
    ensures Union(groups + [group]) == Union(groups) + group
  {
    var groups' := groups + [group];
    UnionAppend(groups, group, |groups|);
    forall k, u | 0 <= k < |groups'| && u in groups'[k]
      ensures u in g && g[u] <= UnionUpTo(groups', k + 1)
    {
      if k < |groups| {
        UnionAppend(groups, group, k + 1);
      }
    }
  }

  lemma SumAppend(counts: seq<nat>, c: nat)
    ensures Sum(counts + [c]) == Sum(counts) + c
  {
    assert (counts + [c])[..|counts|] == counts;
  }

  /** Closing one more group, disjoint from the earlier ones, keeps `Partial`. */
  lemma AddGroup(g: Graph, counts: seq<nat>, groups: seq<set<nat>>, seeds: seq<nat>, group: set<nat>, seed: nat)
    requires Partial(g, counts, groups, seeds)
    requires seed in group && group !! Union(groups)
    requires forall v :: v in group ==> Reachable(g, seed, v)
    requires forall u :: u in group ==> u in g && g[u] <= Union(groups) + group
    ensures Partial(g, counts + [|group|], groups + [group], seeds + [seed])
    ensures Union(groups + [group]) == Union(groups) + group
  {
    AddSeeded(g, counts, groups, seeds, group, seed);
    AddDisjoint(groups, group);
    AddClosed(g, groups, group);
    AddSum(counts, groups, group);
  }

  lemma AddSeeded(g: Graph, counts: seq<nat>, groups: seq<set<nat>>, seeds: seq<nat>, group: set<nat>, seed: nat)
    requires Seeded(g, counts, groups, seeds)
    requires seed in group && forall v :: v in group ==> Reachable(g, seed, v)
    ensures Seeded(g, counts + [|group|], groups + [group], seeds + [seed])
  {
  }

  lemma AddSum(counts: seq<nat>, groups: seq<set<nat>>, group: set<nat>)
    requires Sum(counts) == |Union(groups)| && group !! Union(groups)
    requires Union(groups + [group]) == Union(groups) + group
    ensures Sum(counts + [|group|]) == |Union(groups + [group])|
  {
    SumAppend(counts, |group|);
    assert Union(groups) * group == {};
  }

  /**
   * Lines 187-199: take any id not yet grouped, flood-fill the ids it
   * reaches among those not yet grouped, and count them. The ghost
   * `groups[k]` is the set counted by `counts[k]` and `seeds[k]` the id it
   * was started from. The groups partition the ids, so the counts add up to
   * their number, and no edge leads from a group to a later one.
   */
  method CountGroups(d: Dictionary) returns (counts: seq<nat>, ghost groups: seq<set<nat>>, ghost seeds: seq<nat>)
    requires WellFormed(d)
    ensures Partial(d.neighbors, counts, groups, seeds)
    ensures Union(groups) == d.indexToWord.Keys
    ensures Sum(counts) == |d.indexToWord.Keys|
  {
    counts, groups, seeds := GroupAll(d.neighbors);
  }

  /** Lines 188-199 on the graph itself: group every node. */
  method GroupAll(g: Graph) returns (counts: seq<nat>, ghost groups: seq<set<nat>>, ghost seeds: seq<nat>)
    requires Closed(g)
    ensures Partial(g, counts, groups, seeds) && Union(groups) == g.Keys
  {
    var todo := g.Keys;
    counts, groups, seeds := [], [], [];
    while todo != {}
      invariant Partial(g, counts, groups, seeds)
      invariant Union(groups) + todo == g.Keys && Union(groups) !! todo
      decreases |todo|
    {
      var seed :| seed in todo;
      PickSeed(Union(groups), todo, seed, g.Keys);
      var count, group := FloodFill(g, seed, todo - {seed}, Union(groups));
      MoveOut(Union(groups), todo, seed, group, g.Keys);
      AddGroup(g, counts, groups, seeds, group, seed);
      todo := todo - group;
      counts, groups, seeds := counts + [count], groups + [group], seeds + [seed];
    }
  }

  /** Moving `group` from `todo` to the grouped ids keeps them a partition of `all`. */
  lemma PickSeed(grouped: set<nat>, todo: set<nat>, seed: nat, all: set<nat>)
    requires grouped + todo == all && grouped !! todo && seed in todo
    ensures grouped + (todo - {seed}) + {seed} == all && grouped !! (todo - {seed}) && seed !in grouped
  {
  }

  lemma MoveOut(grouped: set<nat>, todo: set<nat>, seed: nat, group: set<nat>, all: set<nat>)
    requires grouped + todo == all && grouped !! todo && seed in todo && seed in group
    requires group <= (todo - {seed}) + {seed}
    ensures group !! grouped && |todo - group| < |todo|
    ensures (grouped + group) + (todo - group) == all && (grouped + group) !! (todo - group)
  {
    assert todo - group < todo by {
      assert seed in todo - (todo - group);
    }
  }

  /**
   * Lines 190-198: count the ids reached from `seed` through ids of `todo`,
   * each taken out of `todo` as it is queued. Returns the count and, for
   * the proof, the set counted; `grouped` are the ids of earlier groups.
   */
  method FloodFill(g: Graph, seed: nat, todo: set<nat>, ghost grouped: set<nat>) returns (count: nat, group: set<nat>)
    requires Closed(g) && seed in g && seed !in todo && seed !in grouped
    requires grouped + todo + {seed} == g.Keys && grouped !! todo
    ensures count == |group| && seed in group && group <= todo + {seed}
    ensures forall v :: v in group ==> Reachable(g, seed, v)
    ensures forall u :: u in group ==> u in g && g[u] <= grouped + group
  {
    var left := todo;
    var queue: seq<nat> := [seed];
    count := 0;
    group := {seed};
    ghost var visited: set<nat> := {};
    FloodStart(g, seed, todo, grouped);
    while queue != []
      invariant Flood(g, seed, todo, grouped, queue, left, group, count, visited)
      decreases 2 * |left| + |queue|
    {
      queue, left, group, count, visited := FloodStep(g, seed, todo, grouped, queue, left, group, count, visited);
    }
    FloodDone(g, seed, todo, grouped, left, group, count, visited);
  }

  lemma FloodStart(g: Graph, seed: nat, todo: set<nat>, grouped: set<nat>)
    requires Closed(g) && seed in g && seed !in todo && seed !in grouped
    requires grouped + todo + {seed} == g.Keys && grouped !! todo
    ensures Flood(g, seed, todo, grouped, [seed], todo, {seed}, 0, {})
  {
    WalkSingle(g, seed);
  }

  /** With nothing left in the queue, every id found has had its neighbours scanned. */
  lemma FloodDone(g: Graph, seed: nat, todo: set<nat>, grouped: set<nat>, left: set<nat>, group: set<nat>,
                  count: nat, visited: set<nat>)
    requires Flood(g, seed, todo, grouped, [], left, group, count, visited)
    ensures count == |group| && seed in group && group <= todo + {seed}
    ensures forall v :: v in group ==> Reachable(g, seed, v)
    ensures forall u :: u in group ==> u in g && g[u] <= grouped + group
  {
    assert group == visited;
  }

  /**
   * The state of the flood fill from `seed`: `group` holds the ids found,
   * `visited` those whose neighbours have been scanned, `queue` the others,
   * and `left` the ids of `todo` not found yet.
   */
  ghost predicate Flood(g: Graph, seed: nat, todo: set<nat>, grouped: set<nat>, queue: seq<nat>, left: set<nat>,
                        group: set<nat>, count: nat, visited: set<nat>) {
    && Closed(g)
    && count + |queue| == |group|
    && seed in group && group !! left && group <= todo + {seed}
    && left <= todo && grouped + group + left == g.Keys
    && (forall v :: v in queue ==> v in group)
    && (forall v :: v in group ==> Reachable(g, seed, v))
    && (forall v :: v in group ==> v in visited || v in queue)
    && visited <= group && Expanded(g, visited, grouped + group)
  }

  /** Lines 191-198, one turn of the loop: take the next queued id, count it and spread from it. */
  method FloodStep(g: Graph, ghost seed: nat, ghost todo: set<nat>, ghost grouped: set<nat>, queue: seq<nat>,
                   left: set<nat>, group: set<nat>, count: nat, ghost visited: set<nat>)
    returns (queue': seq<nat>, left': set<nat>, group': set<nat>, count': nat, ghost visited': set<nat>)
    requires Flood(g, seed, todo, grouped, queue, left, group, count, visited) && queue != []
    ensures Flood(g, seed, todo, grouped, queue', left', group', count', visited')
    ensures 2 * |left'| + |queue'| < 2 * |left| + |queue|
  {
    var word := queue[0];
    queue' := queue[1..];
    count' := count + 1;
    queue', left', group' := Spread(g, seed, word, queue', left, group, grouped);
    ExpandedGrow(g, visited, grouped + group, grouped + group', word);
    visited' := visited + {word};
  }

  /** Every neighbour of an id of `visited` is in `within`. */
  ghost predicate Expanded(g: Graph, visited: set<nat>, within: set<nat>) {
    forall u :: u in visited ==> u in g && g[u] <= within
  }

  lemma ExpandedGrow(g: Graph, visited: set<nat>, within: set<nat>, within': set<nat>, u: nat)
    requires Expanded(g, visited, within) && within <= within'
    requires u in g && g[u] <= within'
    ensures Expanded(g, visited + {u}, within')
  {
  }

  /** Lines 194-198: queue and count out every neighbour of `word` still in `left`. */
  method Spread(g: Graph, ghost seed: nat, word: nat, queue: seq<nat>, left: set<nat>, group: set<nat>,
                ghost grouped: set<nat>)
    returns (queue': seq<nat>, left': set<nat>, group': set<nat>)
    requires Closed(g) && word in group
    requires group !! left && grouped + group + left == g.Keys
    requires forall v :: v in group ==> Reachable(g, seed, v)
    ensures group <= group' <= group + left && left' <= left && group' !! left' && grouped + group' + left' == g.Keys
    ensures |group'| + |queue| == |group| + |queue'|
    ensures forall v :: v in queue ==> v in queue'
    ensures forall v :: v in queue' ==> v in queue || v in group' - group
    ensures forall v :: v in group' - group ==> v in queue'
    ensures forall v :: v in group' ==> Reachable(g, seed, v)
    ensures g[word] <= grouped + group'
    ensures 2 * |left'| + |queue'| <= 2 * |left| + |queue|
  {
    queue', left', group' := queue, left, group;
    var rest := g[word];
    ghost var seen: set<nat> := {};
    while rest != {}
      invariant group <= group' <= group + left && left' <= left && group' !! left' && grouped + group' + left' == g.Keys
      invariant |group'| + |queue| == |group| + |queue'|
      invariant forall v :: v in queue ==> v in queue'
      invariant forall v :: v in queue' ==> v in queue || v in group' - group
      invariant forall v :: v in group' - group ==> v in queue'
      invariant forall v :: v in group' ==> Reachable(g, seed, v)
      invariant g[word] == seen + rest && seen <= grouped + group'
      invariant 2 * |left'| + |queue'| <= 2 * |left| + |queue|
      decreases rest
    {
      var neighbor :| neighbor in rest;
      rest := rest - {neighbor};
      seen := seen + {neighbor};
      if neighbor in left' {
        ReachStep(g, seed, word, neighbor);
        queue' := queue' + [neighbor];
        left' := left' - {neighbor};
        group' := group' + {neighbor};
      }
    }
  }

  /** An id of group `k` is in none of the groups before it. */
  lemma NotInPrefix(groups: seq<set<nat>>, k: nat, u: nat, n: nat)
    requires Disjoint(groups) && k < |groups| && n <= k && u in groups[k]
    ensures u !in UnionUpTo(groups, n)
  {
    UnionMembers(groups, n, u);
    forall i | 0 <= i < n
      ensures u !in groups[i]
    {
      assert groups[i] !! groups[k];
    }
  }

  /** In a symmetric graph a neighbour of group `k` is in no earlier group, which would have taken it in. */
  lemma NotInEarlier(g: Graph, groups: seq<set<nat>>, k: nat, u: nat, v: nat, j: nat)
    requires Symmetric(g) && Disjoint(groups) && ClosedUpTo(g, groups)
    requires j < k < |groups| && u in groups[k] && u in g && v in g[u]
    ensures v !in groups[j]
  {
    NotInPrefix(groups, k, u, j + 1);
    assert v in g && u in g[v];
  }

  /**
   * In a symmetric graph (which it is whenever every word is made of ASCII letters), no edge
   * leaves a group, so each group is exactly the ids its seed reaches: the
   * groups are the connected components.
   */
  lemma GroupsAreComponents(g: Graph, counts: seq<nat>, groups: seq<set<nat>>, seeds: seq<nat>)
    requires Symmetric(g) && Partial(g, counts, groups, seeds)
    ensures forall k, v :: 0 <= k < |groups| ==> (v in groups[k] <==> Reachable(g, seeds[k], v))
  {
    forall k, u | 0 <= k < |groups| && u in groups[k]
      ensures u in g && g[u] <= groups[k]
    {
      forall v | v in g[u]
        ensures v in groups[k]
      {
        UnionMembers(groups, k + 1, v);
        forall j | 0 <= j < k
          ensures v !in groups[j]
        {
          NotInEarlier(g, groups, k, u, v, j);
        }
      }
    }
    forall k, v | 0 <= k < |groups| && Reachable(g, seeds[k], v)
      ensures v in groups[k]
    {
      var w :| Walk(g, w, seeds[k], v);
      StaysInside(g, groups[k], w, seeds[k], v);
    }
  }

  // ---------------------------------------------------------------------
  // find_longest_path (lines 234-273)
  // ---------------------------------------------------------------------

  /**
   * Lines 248-266: breadth-first search from `s` recording `steps_to`.
   * The node taken from the queue last (`far`) is at the greatest distance
   * from `s`, and `steps` is that distance.
   */
  method Eccentricity(g: Graph, s: nat) returns (far: nat, steps: nat)
    requires Closed(g) && s in g
    ensures IsDistance(g, s, far, steps)
    ensures forall y :: Reachable(g, s, y) ==> Within(g, s, y, steps)
  {
    var queue: seq<nat> := [s];
    var done: set<nat> := {s};
    var stepsTo: map<nat, nat> := map[s := 0];
    var word: nat := s;
    ghost var parent: map<nat, nat> := map[];
    ghost var expanded: set<nat> := {};
    SearchStart(g, s);
    while queue != []
      invariant Search(g, s, done, queue, expanded, stepsTo, parent, word)
      invariant forall v :: v in done ==> v in expanded || v in queue
      invariant Deepest(expanded, stepsTo, word)
      invariant word in expanded || queue == [s]
      decreases 2 * |g.Keys - done| + |queue|
    {
      SearchPop(g, s, done, queue, expanded, stepsTo, parent, word);
      ghost var (word0, stepsTo0) := (word, stepsTo);
      word := queue[0];
      queue := queue[1..];
      queue, done, stepsTo, parent := Visit(g, s, word, queue, done, stepsTo, expanded, parent);
      DeepestStep(expanded, stepsTo0, stepsTo, word0, word);
      expanded := expanded + {word};
    }
    far, steps := word, stepsTo[word];
    FarthestLast(g, s, done, expanded, stepsTo, parent, word);
  }

  /** No node expanded so far is farther from the source than `word`. */
  ghost predicate Deepest(expanded: set<nat>, stepsTo: map<nat, nat>, word: nat) {
    && word in stepsTo
    && forall e :: e in expanded ==> e in stepsTo && stepsTo[e] <= stepsTo[word]
  }

  lemma DeepestStep(expanded: set<nat>, stepsTo: map<nat, nat>, stepsTo': map<nat, nat>, word: nat, next: nat)
    requires Deepest(expanded, stepsTo, word) && Extends(stepsTo, stepsTo')
    requires next in stepsTo && stepsTo[word] <= stepsTo[next]
    ensures Deepest(expanded + {next}, stepsTo', next)
  {
  }

  /** When the queue runs dry, the node expanded last is at the greatest distance. */
  lemma FarthestLast(g: Graph, s: nat, done: set<nat>, expanded: set<nat>, stepsTo: map<nat, nat>,
                     parent: map<nat, nat>, word: nat)
    requires Search(g, s, done, [], expanded, stepsTo, parent, word)
    requires forall v :: v in done ==> v in expanded
    requires Deepest(expanded, stepsTo, word)
    ensures IsDistance(g, s, word, stepsTo[word])
    ensures forall y :: Reachable(g, s, y) ==> Within(g, s, y, stepsTo[word])
  {
    DepthIsDistance(g, parent, stepsTo, s, word);
    forall y | Reachable(g, s, y)
      ensures Within(g, s, y, stepsTo[word])
    {
      var w :| Walk(g, w, s, y);
      StaysInside(g, done, w, s, y);
      var tw := TreeWalk(g, parent, stepsTo, s, y);
    }
  }

  /** `m'` keeps every entry of `m`. */
  ghost predicate Extends(m: map<nat, nat>, m': map<nat, nat>) {
    forall v :: v in m ==> v in m' && m'[v] == m[v]
  }

  /** Lines 261-266: queue each undiscovered neighbour of `word`, one step further than `word`. */
  method Visit(g: Graph, ghost s: nat, word: nat, queue: seq<nat>, done: set<nat>, stepsTo: map<nat, nat>,
               ghost expanded: set<nat>, ghost parent: map<nat, nat>)
    returns (queue': seq<nat>, done': set<nat>, stepsTo': map<nat, nat>, ghost parent': map<nat, nat>)
    requires Closed(g) && word in g
    requires Search(g, s, done, queue, expanded, stepsTo, parent, word)
    ensures Search(g, s, done', queue', expanded + {word}, stepsTo', parent', word)
    ensures Extends(stepsTo, stepsTo')
    ensures 2 * |g.Keys - done'| + |queue'| <= 2 * |g.Keys - done| + |queue|
  {
    queue', done', stepsTo', parent' := queue, done, stepsTo, parent;
    var rest := g[word];
    while rest != {}
      invariant Search(g, s, done', queue', expanded, stepsTo', parent', word)
      invariant rest <= g[word] && g[word] - rest <= done'
      invariant Extends(stepsTo, stepsTo')
      invariant 2 * |g.Keys - done'| + |queue'| <= 2 * |g.Keys - done| + |queue|
      decreases rest
    {
      var neighbor :| neighbor in rest;
      rest := rest - {neighbor};
      if neighbor !in done' {
        SearchDiscover(g, s, done', queue', expanded, stepsTo', parent', word, neighbor);
        DiscoverShrinks(g.Keys, done', neighbor);
        queue' := queue' + [neighbor];
        done' := done' + {neighbor};
        stepsTo' := stepsTo'[neighbor := stepsTo'[word] + 1];
        parent' := parent'[neighbor := word];
      }
    }
  }

  /** Every node `x` reaches, it reaches within `k` steps. */
  ghost predicate AllWithin(g: Graph, x: nat, k: nat) {
    forall y :: Reachable(g, x, y) ==> Within(g, x, y, k)
  }

  lemma AllWithinMono(g: Graph, x: nat, k: nat, k': nat)
    requires AllWithin(g, x, k) && k <= k'
    ensures AllWithin(g, x, k')
  {
    forall y | Reachable(g, x, y)
      ensures Within(g, x, y, k')
    {
      WithinMono(g, x, y, k, k');
    }
  }

  /** Every source in `order` reaches all it reaches within `k` steps. */
  ghost predicate AllBounded(g: Graph, order: seq<nat>, k: nat) {
    forall j :: 0 <= j < |order| ==> AllWithin(g, order[j], k)
  }

  lemma AllBoundedMono(g: Graph, order: seq<nat>, k: nat, k': nat)
    requires AllBounded(g, order, k) && k <= k'
    ensures AllBounded(g, order, k')
  {
    forall j | 0 <= j < |order|
      ensures AllWithin(g, order[j], k')
    {
      AllWithinMono(g, order[j], k, k');
    }
  }

  lemma AllBoundedAppend(g: Graph, order: seq<nat>, x: nat, k: nat)
    requires AllBounded(g, order, k) && AllWithin(g, x, k)
    ensures AllBounded(g, order + [x], k)
  {
    assert forall j :: 0 <= j < |order| ==> (order + [x])[j] == order[j];
  }

  lemma ReachTrans(g: Graph, a: nat, b: nat, c: nat)
    requires Reachable(g, a, b) && Reachable(g, b, c)
    ensures Reachable(g, a, c)
  {
    var w1 :| Walk(g, w1, a, b);
    var w2 :| Walk(g, w2, b, c);
    var w := w1 + w2[1..];
    forall i | 0 <= i < |w| - 1
      ensures w[i + 1] in g[w[i]]
    {
      if i + 1 < |w1| {
      } else if i + 1 == |w1| {
        assert w[i] == w2[0] && w[i + 1] == w2[1];
      } else {
        assert w[i] == w2[i - |w1| + 1] && w[i + 1] == w2[i - |w1| + 2];
      }
    }
    assert Walk(g, w, a, c);
  }

  /** What `find_longest_path` reports: an unknown word, a group of one word, or the longest ladder. */
  datatype Longest = UnknownStart | NoLadder | Ladder(from: nat, to: nat, length: nat)

  /**
   * Lines 234-273. Every word of the start word's group is tried as a
   * source, in the ghost `order`. The ladder reported is a shortest ladder
   * between its ends, no word of the group has a farther word, and its
   * source is the FIRST one tried at that distance (`max_length` is only
   * replaced by a strictly greater one). A group of one word, where the
   * source crashes on `INDEX_TO_WORD[None]`, answers `NoLadder`.
   */
  method FindLongestPath(d: Dictionary, startWord: string) returns (r: Longest, ghost order: seq<nat>)
    requires WellFormed(d)
    ensures r.UnknownStart? <==> startWord !in d.wordsToIndex
    ensures startWord in d.wordsToIndex ==>
      var g := d.neighbors;
      var s := d.wordsToIndex[startWord];
      && Distinct(order) && (forall x :: x in order <==> Reachable(g, s, x))
      && (r.NoLadder? <==> forall y :: Reachable(g, s, y) ==> y == s)
      && (r.Ladder? ==>
        && r.length >= 1 && Reachable(g, s, r.from) && IsDistance(g, r.from, r.to, r.length)
        && (forall x :: Reachable(g, s, x) ==> AllWithin(g, x, r.length))
        && exists k :: 0 <= k < |order| && order[k] == r.from &&
             forall j :: 0 <= j < k ==> AllWithin(g, order[j], r.length - 1))
  {
    order := [];
    if startWord !in d.wordsToIndex {
      return UnknownStart, order;
    }
    var g := d.neighbors;
    var s := d.wordsToIndex[startWord];
    var group := FindWordsInGroup(g, s);
    WalkSingle(g, s);
    assert s in group;
    var maxLength, maxStart, maxEnd;
    ghost var best;
    maxLength, maxStart, maxEnd, order, best := TryAll(g, group);
    if maxLength == 0 {
      forall y | Reachable(g, s, y)
        ensures y == s
      {
        var j :| 0 <= j < |order| && order[j] == s;
        WithinZero(g, s, y);
      }
      return NoLadder, order;
    }
    forall x | Reachable(g, s, x)
      ensures AllWithin(g, x, maxLength)
    {
      var j :| 0 <= j < |order| && order[j] == x;
    }
    ReachTrans(g, s, maxStart, maxEnd);
    FarApart(g, maxStart, maxEnd, maxLength);
    return Ladder(maxStart, maxEnd, maxLength), order;
  }

  /** A word at distance one or more is another word. */
  lemma FarApart(g: Graph, from: nat, to: nat, length: nat)
    requires IsDistance(g, from, to, length) && length >= 1 && from in g
    ensures from != to && Reachable(g, from, to)
  {
    assert Walk(g, [from], from, from);
  }

  /**
   * `order[best]` is `from`, the first source in `order` with a word at
   * distance `length`: every earlier source reaches all it reaches in fewer steps.
   */
  ghost predicate Improved(g: Graph, order: seq<nat>, best: nat, from: nat, to: nat, length: nat) {
    && length >= 1 && best < |order| && order[best] == from && IsDistance(g, from, to, length)
    && forall j :: 0 <= j < best ==> AllWithin(g, order[j], length - 1)
  }

  lemma ImprovedAppend(g: Graph, order: seq<nat>, best: nat, from: nat, to: nat, length: nat, x: nat)
    requires Improved(g, order, best, from, to, length)
    ensures Improved(g, order + [x], best, from, to, length)
  {
    assert forall j :: 0 <= j < |order| ==> (order + [x])[j] == order[j];
  }

  lemma ImprovedNew(g: Graph, order: seq<nat>, from: nat, to: nat, length: nat)
    requires length >= 1 && AllBounded(g, order, length - 1) && IsDistance(g, from, to, length)
    ensures Improved(g, order + [from], |order|, from, to, length)
  {
    assert forall j :: 0 <= j < |order| ==> (order + [from])[j] == order[j];
  }

  /**
   * Lines 243-271 on the graph: search from every id of `group` in turn
   * (the ghost `order`), keeping the greatest distance seen and where it
   * was first seen.
   */
  method TryAll(g: Graph, group: set<nat>)
    returns (maxLength: nat, maxStart: nat, maxEnd: nat, ghost order: seq<nat>, ghost best: nat)
    requires Closed(g) && group <= g.Keys
    ensures Distinct(order) && forall x :: x in order <==> x in group
    ensures AllBounded(g, order, maxLength)
    ensures maxLength > 0 ==> maxStart in group && Improved(g, order, best, maxStart, maxEnd, maxLength)
  {
    maxLength, maxStart, maxEnd := 0, 0, 0;
    order, best := [], 0;
    var todo := group;
    while todo != {}
      invariant todo <= group
      invariant forall x :: x in group <==> x in order || x in todo
      invariant forall x :: x in order ==> x !in todo
      invariant Distinct(order)
      invariant AllBounded(g, order, maxLength)
      invariant maxLength > 0 ==> maxStart in group && Improved(g, order, best, maxStart, maxEnd, maxLength)
      decreases |todo|
    {
      var start :| start in todo;
      todo := todo - {start};
      var word, steps := Eccentricity(g, start);
      assert AllWithin(g, start, steps);
      if steps > maxLength {
        AllBoundedMono(g, order, maxLength, steps - 1);
        ImprovedNew(g, order, start, word, steps);
        AllBoundedMono(g, order, steps - 1, steps);
        maxLength, maxStart, maxEnd := steps, start, word;
        best := |order|;
      } else {
        AllWithinMono(g, start, steps, maxLength);
        if maxLength > 0 {
          ImprovedAppend(g, order, best, maxStart, maxEnd, maxLength, start);
        }
      }
      AllBoundedAppend(g, order, start, maxLength);
      order := order + [start];
    }
  }
}
