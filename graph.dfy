/**
 * The word graph as ladders.py holds it in `NEIGHBORS`: a map from a word id
 * to the set of ids one move away. Walks, reachability and distance are
 * defined here once, with the facts about breadth-first search that the
 * searches of ladders.py (`compute`, `count_groups`, `find_words_in_group`,
 * `find_longest_path`) share.
 */
module Graph {
  type Graph = map<nat, set<nat>>

  /** Every neighbour is itself a node: looking it up never fails. */
  ghost predicate Closed(g: Graph) {
    forall u :: u in g ==> g[u] <= g.Keys
  }

  /** The relation is symmetric: `v` is a neighbour of `u` iff `u` is one of `v`. */
  ghost predicate Symmetric(g: Graph) {
    forall u, v :: u in g && v in g[u] ==> v in g && u in g[v]
  }

  /** `w` is a nonempty sequence of nodes, each a neighbour of the one before. */
  ghost predicate IsWalk(g: Graph, w: seq<nat>) {
    && |w| >= 1
    && (forall i :: 0 <= i < |w| ==> w[i] in g)
    && (forall i :: 0 <= i < |w| - 1 ==> w[i + 1] in g[w[i]])
  }

  /** A walk from `s` to `t`; it visits `|w|` nodes and takes `|w| - 1` steps. */
  ghost predicate Walk(g: Graph, w: seq<nat>, s: nat, t: nat) {
    IsWalk(g, w) && w[0] == s && w[|w| - 1] == t
  }

  ghost predicate Reachable(g: Graph, s: nat, t: nat) {
    exists w :: Walk(g, w, s, t)
  }

  /** `t` can be reached from `s` in at least one step. */
  ghost predicate ReachablePlus(g: Graph, s: nat, t: nat) {
    exists w :: Walk(g, w, s, t) && |w| >= 2
  }

  /** `p` is a walk of at least one step from `s` to `t`, and no such walk is shorter. */
  ghost predicate ShortestWalk(g: Graph, p: seq<nat>, s: nat, t: nat) {
    && Walk(g, p, s, t) && |p| >= 2
    && forall w :: Walk(g, w, s, t) && |w| >= 2 ==> |p| <= |w|
  }

  /** `t` is reachable from `s` in `k` steps and in no fewer. */
  ghost predicate IsDistance(g: Graph, s: nat, t: nat, k: nat) {
    && (exists w :: Walk(g, w, s, t) && |w| == k + 1)
    && forall w :: Walk(g, w, s, t) ==> |w| >= k + 1
  }

  /** `t` is reachable from `s` in at most `k` steps. */
  ghost predicate Within(g: Graph, s: nat, t: nat, k: nat) {
    exists w :: Walk(g, w, s, t) && |w| <= k + 1
  }

  // ---------------------------------------------------------------------
  // Walks
  // ---------------------------------------------------------------------

  lemma WalkSingle(g: Graph, s: nat)
    requires s in g
    ensures Walk(g, [s], s, s)
  {
  }

  lemma WalkInit(g: Graph, w: seq<nat>, s: nat, t: nat)
    requires Walk(g, w, s, t) && |w| >= 2
    ensures Walk(g, w[..|w| - 1], s, w[|w| - 2]) && t in g[w[|w| - 2]]
  {
  }

  lemma WalkExtend(g: Graph, w: seq<nat>, s: nat, u: nat, v: nat)
    requires Walk(g, w, s, u) && v in g[u] && v in g
    ensures Walk(g, w + [v], s, v)
  {
  }

  /** One more step from a reachable node reaches its neighbour. */
  lemma ReachStep(g: Graph, s: nat, u: nat, v: nat)
    requires Reachable(g, s, u) && v in g[u] && v in g
    ensures Reachable(g, s, v)
  {
    var w :| Walk(g, w, s, u);
    WalkExtend(g, w, s, u, v);
  }

  /** A set holding `s` and closed under neighbours holds every node reachable from `s`. */
  lemma {:induction false} StaysInside(g: Graph, inside: set<nat>, w: seq<nat>, s: nat, t: nat)
    requires s in inside
    requires forall u :: u in inside ==> u in g && g[u] <= inside
    requires Walk(g, w, s, t)
    ensures t in inside
    decreases |w|
  {
    if |w| >= 2 {
      WalkInit(g, w, s, t);
      StaysInside(g, inside, w[..|w| - 1], s, w[|w| - 2]);
    }
  }

  // ---------------------------------------------------------------------
  // Breadth-first search trees
  // ---------------------------------------------------------------------

  /**
   * `depth` gives each discovered node the number of steps at which it was
   * discovered, and `parent` the node it was discovered from.
   */
  ghost predicate Tree(g: Graph, parent: map<nat, nat>, depth: map<nat, nat>, s: nat) {
    && s in depth && depth[s] == 0
    && depth.Keys <= g.Keys
    && forall v :: v in depth && v != s ==>
      && v in parent && parent[v] in depth
      && v in g[parent[v]]
      && depth[v] == depth[parent[v]] + 1
  }

  /** No walk from `s` reaches a discovered node in fewer steps than its depth. */
  ghost predicate NoShortcut(g: Graph, depth: map<nat, nat>, s: nat) {
    forall v, w :: v in depth && Walk(g, w, s, v) ==> |w| >= depth[v] + 1
  }

  /** Every discovered node below depth `d` has all its neighbours discovered. */
  ghost predicate Layered(g: Graph, depth: map<nat, nat>, d: nat) {
    forall u :: u in depth && depth[u] < d ==> u in g && g[u] <= depth.Keys
  }

  /** Following the parents back from `v` gives a walk of `depth[v]` steps from `s`. */
  lemma TreeWalk(g: Graph, parent: map<nat, nat>, depth: map<nat, nat>, s: nat, v: nat)
    returns (w: seq<nat>)
    requires Tree(g, parent, depth, s) && v in depth
    ensures Walk(g, w, s, v) && |w| == depth[v] + 1
    decreases depth[v]
  {
    if v == s {
      w := [s];
    } else {
      var u := parent[v];
      var w' := TreeWalk(g, parent, depth, s, u);
      WalkExtend(g, w', s, u, v);
      w := w' + [v];
    }
  }

  /** In a search tree without shortcuts, the depth of a node is its distance. */
  lemma DepthIsDistance(g: Graph, parent: map<nat, nat>, depth: map<nat, nat>, s: nat, v: nat)
    requires Tree(g, parent, depth, s) && NoShortcut(g, depth, s) && v in depth
    ensures IsDistance(g, s, v, depth[v])
  {
    var w := TreeWalk(g, parent, depth, s, v);
  }

  /**
   * A walk from `s` that ends outside the discovered nodes must first leave
   * them from a node whose neighbours are not all discovered, which lies at
   * depth `d` or more: so it takes at least `d + 1` steps.
   */
  lemma {:induction false} LeaveDiscovered(g: Graph, depth: map<nat, nat>, s: nat, d: nat, w: seq<nat>, v: nat)
    requires s in depth && NoShortcut(g, depth, s) && Layered(g, depth, d)
    requires Walk(g, w, s, v) && v !in depth
    ensures |w| >= d + 2
    decreases |w|
  {
    WalkInit(g, w, s, v);
    var x := w[|w| - 2];
    var p := w[..|w| - 1];
    if x in depth {
      assert |p| >= depth[x] + 1;
    } else {
      LeaveDiscovered(g, depth, s, d, p, x);
    }
  }

  /**
   * The goal is first seen as a neighbour of a node at depth `d`: no node
   * below depth `d` has the goal as a neighbour, so every walk of one step
   * or more to the goal takes at least `d + 1` steps.
   */
  lemma FirstSighting(g: Graph, depth: map<nat, nat>, s: nat, t: nat, d: nat, w: seq<nat>)
    requires s in depth && NoShortcut(g, depth, s) && Layered(g, depth, d)
    requires forall x :: x in depth && depth[x] < d ==> t !in g[x]
    requires Walk(g, w, s, t) && |w| >= 2
    ensures |w| >= d + 2
  {
    WalkInit(g, w, s, t);
    var x := w[|w| - 2];
    var p := w[..|w| - 1];
    if x in depth {
      assert |p| >= depth[x] + 1;
    } else {
      LeaveDiscovered(g, depth, s, d, p, x);
    }
  }

  /**
   * Once every discovered node has all its neighbours discovered and none
   * has the goal as a neighbour, the goal is not reachable in one step or more.
   */
  lemma Exhausted(g: Graph, depth: map<nat, nat>, s: nat, t: nat)
    requires s in depth && NoShortcut(g, depth, s)
    requires forall x :: x in depth ==> x in g && g[x] <= depth.Keys && t !in g[x]
    ensures !ReachablePlus(g, s, t)
  {
    if ReachablePlus(g, s, t) {
      var w :| Walk(g, w, s, t) && |w| >= 2;
      FirstSighting(g, depth, s, t, |w|, w);
    }
  }

  /** Discovering the neighbour `v` of `u` at depth `depth[u] + 1` keeps the tree without shortcuts. */
  lemma Discover(g: Graph, parent: map<nat, nat>, depth: map<nat, nat>, s: nat, u: nat, v: nat)
    requires Tree(g, parent, depth, s) && NoShortcut(g, depth, s)
    requires u in depth && Layered(g, depth, depth[u])
    requires v in g[u] && v in g && v !in depth
    ensures Tree(g, parent[v := u], depth[v := depth[u] + 1], s)
    ensures NoShortcut(g, depth[v := depth[u] + 1], s)
  {
    var depth' := depth[v := depth[u] + 1];
    forall x, w | x in depth' && Walk(g, w, s, x)
      ensures |w| >= depth'[x] + 1
    {
      if x == v {
        LeaveDiscovered(g, depth, s, depth[u], w, v);
      }
    }
  }

  // ---------------------------------------------------------------------
  // The queue of a breadth-first search
  // ---------------------------------------------------------------------

  /**
   * The queue holds discovered nodes whose depths never decrease from front
   * to back and lie between `lo` and `lo + 1`, `lo` being the depth of the
   * node last taken from the queue.
   */
  ghost predicate Frontier(depth: map<nat, nat>, queue: seq<nat>, lo: nat) {
    && (forall i :: 0 <= i < |queue| ==> queue[i] in depth && lo <= depth[queue[i]] <= lo + 1)
    && (forall i, j :: 0 <= i <= j < |queue| ==> depth[queue[i]] <= depth[queue[j]])
  }

  /** Taking the front of the queue keeps the frontier, now measured from the front's depth. */
  lemma FrontierPop(depth: map<nat, nat>, queue: seq<nat>, lo: nat)
    requires Frontier(depth, queue, lo) && queue != []
    ensures Frontier(depth, queue[1..], depth[queue[0]])
  {
    forall i | 0 <= i < |queue| - 1
      ensures depth[queue[0]] <= depth[queue[1..][i]] <= depth[queue[0]] + 1
    {
      assert queue[1..][i] == queue[i + 1];
    }
  }

  /** Appending a node one deeper than the last one taken keeps the frontier. */
  lemma FrontierPush(depth: map<nat, nat>, queue: seq<nat>, lo: nat, v: nat)
    requires Frontier(depth, queue, lo) && v !in depth
    ensures Frontier(depth[v := lo + 1], queue + [v], lo)
  {
    var depth' := depth[v := lo + 1];
    var queue' := queue + [v];
    forall i | 0 <= i < |queue|
      ensures queue'[i] in depth && queue'[i] != v && depth'[queue'[i]] == depth[queue[i]]
    {
    }
  }

  /** Discovering a node takes it out of the undiscovered ones. */
  lemma DiscoverShrinks(nodes: set<nat>, done: set<nat>, v: nat)
    requires v in nodes && v !in done
    ensures |nodes - (done + {v})| == |nodes - done| - 1
  {
    assert nodes - (done + {v}) == (nodes - done) - {v};
  }

  /** A bound on the steps needed to reach `t` may be loosened. */
  lemma WithinMono(g: Graph, s: nat, t: nat, k: nat, k': nat)
    requires Within(g, s, t, k) && k <= k'
    ensures Within(g, s, t, k')
  {
  }

  /** Zero steps reach only the start. */
  lemma WithinZero(g: Graph, s: nat, t: nat)
    requires Within(g, s, t, 0)
    ensures s == t
  {
  }

  // ---------------------------------------------------------------------
  // The state of a breadth-first search
  // ---------------------------------------------------------------------

  /**
   * A breadth-first search from `s` in progress: `done` holds the
   * discovered nodes, `queue` those still to be expanded, `expanded` those
   * whose neighbours have all been discovered, and `word` the node last
   * taken from the queue (possibly being expanded). `depth` and `parent`
   * record the search tree.
   */
  ghost predicate Search(g: Graph, s: nat, done: set<nat>, queue: seq<nat>, expanded: set<nat>,
                         depth: map<nat, nat>, parent: map<nat, nat>, word: nat)
  {
    && done == depth.Keys
    && Tree(g, parent, depth, s) && NoShortcut(g, depth, s)
    && word in depth
    && Frontier(depth, queue, depth[word])
    && (forall v :: v in done ==> v in expanded || v in queue || v == word)
    && (forall e :: e in expanded ==> e in done && g[e] <= done)
  }

  /** The search starts with only `s` discovered and queued. */
  lemma SearchStart(g: Graph, s: nat)
    requires s in g
    ensures Search(g, s, {s}, [s], {}, map[s := 0], map[], s)
  {
    forall v, w | v in map[s := 0] && Walk(g, w, s, v)
      ensures |w| >= 1
    {
    }
  }

  /** Nodes shallower than the one being expanded have been expanded. */
  lemma SearchLayered(g: Graph, s: nat, done: set<nat>, queue: seq<nat>, expanded: set<nat>,
                      depth: map<nat, nat>, parent: map<nat, nat>, word: nat)
    requires Search(g, s, done, queue, expanded, depth, parent, word)
    ensures forall x :: x in depth && depth[x] < depth[word] ==> x in expanded
    ensures Layered(g, depth, depth[word])
  {
  }

  /** Discovering an undiscovered neighbour of `word` and queueing it keeps the search state. */
  lemma SearchDiscover(g: Graph, s: nat, done: set<nat>, queue: seq<nat>, expanded: set<nat>,
                       depth: map<nat, nat>, parent: map<nat, nat>, word: nat, v: nat)
    requires Search(g, s, done, queue, expanded, depth, parent, word)
    requires word in g && v in g[word] && v in g && v !in done
    ensures Search(g, s, done + {v}, queue + [v], expanded, depth[v := depth[word] + 1], parent[v := word], word)
  {
    SearchLayered(g, s, done, queue, expanded, depth, parent, word);
    Discover(g, parent, depth, s, word, v);
    FrontierPush(depth, queue, depth[word], v);
  }

  /** Taking the front of the queue keeps the search state, with the front as `word`. */
  lemma SearchPop(g: Graph, s: nat, done: set<nat>, queue: seq<nat>, expanded: set<nat>,
                  depth: map<nat, nat>, parent: map<nat, nat>, word: nat)
    requires Search(g, s, done, queue, expanded, depth, parent, word) && queue != []
    requires forall v :: v in done ==> v in expanded || v in queue
    ensures Search(g, s, done, queue[1..], expanded, depth, parent, queue[0])
  {
    FrontierPop(depth, queue, depth[word]);
    forall v | v in done
      ensures v in expanded || v in queue[1..] || v == queue[0]
    {
      if v in queue && v != queue[0] {
        var i :| 0 <= i < |queue| && queue[i] == v;
        assert queue[1..][i - 1] == v;
      }
    }
  }
}
