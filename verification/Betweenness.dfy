/**
 Approximate betweenness: a breadth-first tree from every node, walked back from
 every reached node. Proved: the trees are shortest-path trees, the walk back from
 a target visits exactly the interior of a shortest path, and the scores add up to
 the sum of distance minus one over all ordered pairs of connected nodes.
 */
module Betweenness {
  import opened RealMath

  /** Outgoing neighbours of every node; parallel edges repeat a neighbour. */
  type Net = seq<seq<nat>>

  ghost predicate ValidNet(net: Net) {
    forall u, i :: 0 <= u < |net| && 0 <= i < |net[u]| ==> net[u][i] < |net|
  }

  // ----- distances, without reference to any search

  /** There is a walk of exactly k edges from s to v. */
  ghost predicate Reach(net: Net, s: nat, v: nat, k: nat)
    decreases k
  {
    if k == 0 then v == s
    else exists u: nat :: u < |net| && Reach(net, s, u, k - 1) && v in net[u]
  }

  ghost predicate IsDistance(net: Net, s: nat, v: nat, d: nat) {
    Reach(net, s, v, d) && forall k: nat :: k < d ==> !Reach(net, s, v, k)
  }

  /** The map holds exactly the nodes reachable from s, with their distances. */
  ghost predicate DistanceMap(net: Net, s: nat, level: map<nat, nat>) {
    && (forall v :: v in level ==> IsDistance(net, s, v, level[v]))
    && (forall v: nat, k: nat :: Reach(net, s, v, k) ==> v in level)
  }

  // ----- predecessor trees

  /** Every entry hangs one level below its predecessor, and the root is its own. */
  ghost predicate Rooted(net: Net, s: nat, pred: map<nat, nat>, level: map<nat, nat>) {
    && pred.Keys == level.Keys
    && s in pred && level[s] == 0
    && (forall v :: v in pred ==> v < |net|)
    && (forall v :: v in pred && v != s ==>
          pred[v] in pred && pred[v] < |net| && v in net[pred[v]] && level[v] == level[pred[v]] + 1)
  }

  /** All neighbours of u are reached, at most one level further out. */
  ghost predicate Expanded(net: Net, level: map<nat, nat>, u: nat) {
    u < |net| && u in level && forall v :: v in net[u] ==> v in level && level[v] <= level[u] + 1
  }

  ghost predicate Tree(net: Net, s: nat, pred: map<nat, nat>, level: map<nat, nat>) {
    Rooted(net, s, pred, level) && forall u :: u in pred ==> Expanded(net, level, u)
  }

  lemma {:induction false} TreeReaches(net: Net, s: nat, pred: map<nat, nat>, level: map<nat, nat>, v: nat)
    requires Rooted(net, s, pred, level) && v in pred
    ensures Reach(net, s, v, level[v])
    decreases level[v]
  {
    if v != s {
      TreeReaches(net, s, pred, level, pred[v]);
    }
  }

  lemma {:induction false} TreeIsShortest(net: Net, s: nat, pred: map<nat, nat>, level: map<nat, nat>, v: nat, k: nat)
    requires Tree(net, s, pred, level) && Reach(net, s, v, k)
    ensures v in level && level[v] <= k
    decreases k
  {
    hide Tree;
    if k == 0 {
      RootLevel(net, s, pred, level);
    } else {
      var u: nat :| u < |net| && Reach(net, s, u, k - 1) && v in net[u];
      TreeIsShortest(net, s, pred, level, u, k - 1);
      NeighbourLevel(net, s, pred, level, u, v);
    }
  }

  lemma RootLevel(net: Net, s: nat, pred: map<nat, nat>, level: map<nat, nat>)
    requires Tree(net, s, pred, level)
    ensures s in level && level[s] == 0
  {}

  lemma NeighbourLevel(net: Net, s: nat, pred: map<nat, nat>, level: map<nat, nat>, u: nat, v: nat)
    requires Tree(net, s, pred, level) && u in level && u < |net| && v in net[u]
    ensures v in level && level[v] <= level[u] + 1
  {
    assert u in pred;
  }

  /** Such a tree is a shortest-path tree: its levels are the distances. */
  lemma TreeDistances(net: Net, s: nat, pred: map<nat, nat>, level: map<nat, nat>)
    requires Tree(net, s, pred, level)
    ensures DistanceMap(net, s, level)
  {
    forall v: nat, k: nat | Reach(net, s, v, k)
      ensures v in level && level[v] <= k
    {
      TreeIsShortest(net, s, pred, level, v, k);
    }
    forall v | v in level
      ensures IsDistance(net, s, v, level[v])
    {
      TreeReaches(net, s, pred, level, v);
    }
  }

  /** The predecessors form a tree along edges whose depths are the distances of exactly the reachable nodes. */
  ghost predicate ShortestPathTree(net: Net, s: nat, pred: map<nat, nat>) {
    exists level :: DistanceMap(net, s, level) && Tree(net, s, pred, level)
  }

  // ----- the search

  /** The queue holds reached nodes from nearest to farthest, spanning at most one level from base on. */
  ghost predicate Layered(level: map<nat, nat>, queue: seq<nat>, base: nat) {
    && (forall i :: 0 <= i < |queue| ==> queue[i] in level && base <= level[queue[i]] <= base + 1)
    && (forall i, j :: 0 <= i < j < |queue| ==> level[queue[i]] <= level[queue[j]])
  }

  /** Between two rounds of the search, with base the level of the queue's head. */
  ghost predicate Searching(net: Net, s: nat, pred: map<nat, nat>, level: map<nat, nat>, queue: seq<nat>, base: nat) {
    && Rooted(net, s, pred, level)
    && Layered(level, queue, base)
    && (forall v :: v in level ==> level[v] <= base + 1)
    && (forall u :: u in pred && u !in queue ==> Expanded(net, level, u))
  }

  /** Discovering v from a node on level base. */
  lemma Discover(net: Net, s: nat, pred: map<nat, nat>, level: map<nat, nat>, queue: seq<nat>, base: nat, node: nat,
                 v: nat)
    requires Rooted(net, s, pred, level) && Layered(level, queue, base)
    requires forall u :: u in level ==> level[u] <= base + 1
    requires node in pred && level[node] == base && node < |net| && v in net[node] && v < |net| && v !in pred
    ensures var pred', level' := pred[v := node], level[v := base + 1];
            && Rooted(net, s, pred', level')
            && Layered(level', queue + [v], base)
            && (forall u :: u in level' ==> level'[u] <= base + 1)
            && (forall u: nat :: Expanded(net, level, u) ==> Expanded(net, level', u))
  {
    var level' := level[v := base + 1];
    forall u: nat | Expanded(net, level, u)
      ensures Expanded(net, level', u)
    {
      assert forall x :: x in net[u] ==> x in level;
    }
  }

  /** One round: take in the neighbours of a node that has just left the queue. */
  method Expand(net: Net, ghost s: nat, pred0: map<nat, nat>, ghost level0: map<nat, nat>, queue0: seq<nat>, node: nat)
    returns (pred: map<nat, nat>, ghost level: map<nat, nat>, queue: seq<nat>)
    requires ValidNet(net) && node in pred0 && node < |net|
    requires Rooted(net, s, pred0, level0) && Layered(level0, queue0, level0[node])
    requires forall v :: v in level0 ==> level0[v] <= level0[node] + 1
    ensures node in level0 && Rooted(net, s, pred, level) && Layered(level, queue, level0[node])
    ensures forall v :: v in level ==> level[v] <= level0[node] + 1
    ensures Expanded(net, level, node) && queue0 <= queue
    ensures forall u: nat :: Expanded(net, level0, u) ==> Expanded(net, level, u)
    ensures forall u :: u in pred && u !in pred0 ==> u in queue
    ensures |queue| - |queue0| == |pred| - |pred0|
  {
    hide Rooted, Layered, Expanded;
    SameKeys(net, s, pred0, level0);
    ghost var base := level0[node];
    pred, level, queue := pred0, level0, queue0;
    for i := 0 to |net[node]|
      invariant Rooted(net, s, pred, level) && Layered(level, queue, base)
      invariant node in pred && node in level && level[node] == base
      invariant forall v :: v in level ==> level[v] <= base + 1
      invariant forall k :: 0 <= k < i ==> net[node][k] in level
      invariant pred.Keys == level.Keys
      invariant queue0 <= queue
      invariant forall u: nat :: Expanded(net, level0, u) ==> Expanded(net, level, u)
      invariant forall u :: u in pred && u !in pred0 ==> u in queue
      invariant |queue| - |queue0| == |pred| - |pred0|
    {
      var v := net[node][i];
      if v !in pred {
        Discover(net, s, pred, level, queue, base, node, v);
        pred := pred[v := node];
        level := level[v := base + 1];
        queue := queue + [v];
      }
    }
    NowExpanded(net, level, node);
  }

  lemma SameKeys(net: Net, s: nat, pred: map<nat, nat>, level: map<nat, nat>)
    requires Rooted(net, s, pred, level)
    ensures pred.Keys == level.Keys
  {}

  lemma NowExpanded(net: Net, level: map<nat, nat>, node: nat)
    requires node < |net| && node in level
    requires forall k :: 0 <= k < |net[node]| ==> net[node][k] in level
    requires forall v :: v in level ==> level[v] <= level[node] + 1
    ensures Expanded(net, level, node)
  {}

  method Search(net: Net, s: nat) returns (pred: map<nat, nat>, ghost level: map<nat, nat>)
    requires ValidNet(net) && s < |net|
    ensures ShortestPathTree(net, s, pred) && Tree(net, s, pred, level)
  {
    hide Rooted, Layered, Expanded, DistanceMap;
    var queue := [s];
    pred := map[s := s];
    level := map[s := 0];
    ghost var base := 0;
    SearchStarts(net, s);
    while queue != []
      invariant Searching(net, s, pred, level, queue, base)
      decreases |queue| + 2 * (|net| - |pred|)
    {
      var node := queue[0];
      NextRound(net, s, pred, level, queue, base);
      assert queue == [node] + queue[1..];
      queue := queue[1..];
      base := level[node];
      ghost var before, pending := pred, queue;
      pred, level, queue := Expand(net, s, pred, level, queue, node);
      RoundEnds(net, s, before, pred, level, pending, queue, node, base);
    }
    TreeDistances(net, s, pred, level);
  }

  lemma SearchStarts(net: Net, s: nat)
    requires s < |net|
    ensures Searching(net, s, map[s := s], map[s := 0], [s], 0)
  {}

  /** With the head's level as base, the rest of the queue is still layered. */
  lemma NextRound(net: Net, s: nat, pred: map<nat, nat>, level: map<nat, nat>, queue: seq<nat>, base: nat)
    requires Searching(net, s, pred, level, queue, base) && queue != []
    ensures queue[0] in pred && queue[0] in level && queue[0] < |net|
    ensures Layered(level, queue[1..], level[queue[0]])
    ensures forall v :: v in level ==> level[v] <= level[queue[0]] + 1
  {}

  lemma RoundEnds(net: Net, s: nat, before: map<nat, nat>, pred: map<nat, nat>, level: map<nat, nat>,
                  pending: seq<nat>, queue: seq<nat>, node: nat, base: nat)
    requires Rooted(net, s, pred, level) && Layered(level, queue, base) && pending <= queue
    requires forall v :: v in level ==> level[v] <= base + 1
    requires forall u :: u in before && u !in [node] + pending ==> Expanded(net, level, u)
    requires Expanded(net, level, node)
    requires forall u :: u in pred && u !in before ==> u in queue
    ensures Searching(net, s, pred, level, queue, base)
    ensures |pred| <= |net|
  {
    forall u | u in pred && u !in queue
      ensures Expanded(net, level, u)
    {
      if u != node {
        assert u !in [node] + pending;
      }
    }
    ReachedAtMostAll(|net|, pred.Keys);
    assert |pred.Keys| == |pred|;
  }

  lemma {:induction false} ReachedAtMostAll(n: nat, nodes: set<nat>)
    requires forall v :: v in nodes ==> v < n
    ensures |nodes| <= n
  {
    if n > 0 {
      ReachedAtMostAll(n - 1, nodes - {n - 1});
    }
  }

  // ----- walking back

  /** The nodes strictly between s and t on the tree. */
  ghost function Interior(net: Net, s: nat, pred: map<nat, nat>, level: map<nat, nat>, t: nat): seq<nat>
    requires Rooted(net, s, pred, level) && t in pred && t != s
    decreases level[t]
  {
    if pred[t] == s then [] else Interior(net, s, pred, level, pred[t]) + [pred[t]]
  }

  ghost predicate IsRoute(net: Net, route: seq<nat>) {
    forall i :: 0 <= i < |route| - 1 ==> route[i] < |net| && route[i + 1] in net[route[i]]
  }

  /** Together with its ends the interior is a walk along edges of exactly the target's level. */
  lemma {:induction false} InteriorIsRoute(net: Net, s: nat, pred: map<nat, nat>, level: map<nat, nat>, t: nat)
    requires Rooted(net, s, pred, level) && t in pred && t != s
    ensures |Interior(net, s, pred, level, t)| == level[t] - 1
    ensures IsRoute(net, [s] + Interior(net, s, pred, level, t) + [t])
    decreases level[t]
  {
    var p := pred[t];
    if p != s {
      InteriorIsRoute(net, s, pred, level, p);
      var before := [s] + Interior(net, s, pred, level, p) + [p];
      assert [s] + Interior(net, s, pred, level, t) + [t] == before + [t];
      assert before[|before| - 1] == p;
    }
  }

  /** How often nodes with a label occur in a list. */
  function Hits(labels: seq<string>, nodes: seq<nat>, l: string): nat {
    if nodes == [] then 0
    else
      var u := nodes[|nodes| - 1];
      Hits(labels, nodes[..|nodes| - 1], l) + (if u < |labels| && labels[u] == l then 1 else 0)
  }

  lemma {:induction false} HitsConcat(labels: seq<string>, a: seq<nat>, b: seq<nat>, l: string)
    ensures Hits(labels, a + b, l) == Hits(labels, a, l) + Hits(labels, b, l)
    decreases |b|
  {
    if b == [] {
      assert a + b == a;
    } else {
      assert (a + b)[..|a + b| - 1] == a + b[..|b| - 1];
      HitsConcat(labels, a, b[..|b| - 1], l);
    }
  }

  /** The scores grew by one per visit of a node with that label, in total by the number of visits. */
  ghost predicate Credited(labels: seq<string>, before: map<string, real>, after: map<string, real>, visits: seq<nat>) {
    && after.Keys == before.Keys
    && (forall l :: l in before ==> after[l] == before[l] + Hits(labels, visits, l) as real)
    && MapSum(after) == MapSum(before) + |visits| as real
  }

  lemma CreditedNothing(labels: seq<string>, scores: map<string, real>)
    ensures Credited(labels, scores, scores, [])
  {}

  lemma CreditedConcat(labels: seq<string>, a: map<string, real>, b: map<string, real>, c: map<string, real>,
                       x: seq<nat>, y: seq<nat>)
    requires Credited(labels, a, b, x) && Credited(labels, b, c, y)
    ensures Credited(labels, a, c, x + y)
  {
    hide MapSum;
    forall l
      ensures Hits(labels, x + y, l) == Hits(labels, x, l) + Hits(labels, y, l)
    {
      HitsConcat(labels, x, y, l);
    }
  }

  lemma CreditedVisit(labels: seq<string>, scores: map<string, real>, u: nat)
    requires u < |labels| && labels[u] in scores
    ensures Credited(labels, scores, scores[labels[u] := scores[labels[u]] + 1.0], [u])
  {
    hide MapSum;
    MapSumInsert(scores, labels[u], scores[labels[u]] + 1.0);
    forall l
      ensures Hits(labels, [u], l) == if labels[u] == l then 1 else 0
    {
      assert [u][..0] == [];
    }
  }

  ghost predicate AllScored(labels: seq<string>, scores: map<string, real>) {
    forall u :: 0 <= u < |labels| ==> labels[u] in scores
  }

  /** The inner while loop: the nodes on the way back to s get one point each. */
  method WalkBack(net: Net, labels: seq<string>, s: nat, pred: map<nat, nat>, ghost level: map<nat, nat>, t: nat,
                  before: map<string, real>)
    returns (scores: map<string, real>)
    requires Rooted(net, s, pred, level) && t in pred && t != s
    requires |labels| == |net| && AllScored(labels, before)
    ensures Credited(labels, before, scores, Interior(net, s, pred, level, t))
  {
    hide Credited;
    scores := before;
    CreditedNothing(labels, before);
    var cursor := t;
    ghost var visited: seq<nat> := [];
    while pred[cursor] != s
      invariant cursor in pred && cursor != s
      invariant AllScored(labels, scores)
      invariant Credited(labels, before, scores, visited)
      invariant BackFrom(labels, Interior(net, s, pred, level, cursor), visited, Interior(net, s, pred, level, t))
      decreases level[cursor]
    {
      var prev := pred[cursor];
      CreditedVisit(labels, scores, prev);
      CreditedConcat(labels, before, scores, scores[labels[prev] := scores[labels[prev]] + 1.0], visited, [prev]);
      BackOne(labels, Interior(net, s, pred, level, prev), prev, visited, Interior(net, s, pred, level, t));
      scores := scores[labels[prev] := scores[labels[prev]] + 1.0];
      visited := visited + [prev];
      cursor := prev;
    }
    CreditedSame(labels, before, scores, visited, Interior(net, s, pred, level, t));
  }

  /** What is left of the interior and what was visited are together the interior, in number and per label. */
  ghost predicate BackFrom(labels: seq<string>, left: seq<nat>, visited: seq<nat>, interior: seq<nat>) {
    && |left| + |visited| == |interior|
    && forall l :: Hits(labels, left, l) + Hits(labels, visited, l) == Hits(labels, interior, l)
  }

  lemma BackOne(labels: seq<string>, left: seq<nat>, u: nat, visited: seq<nat>, interior: seq<nat>)
    requires BackFrom(labels, left + [u], visited, interior)
    ensures BackFrom(labels, left, visited + [u], interior)
  {
    forall l
      ensures Hits(labels, left, l) + Hits(labels, visited + [u], l)
              == Hits(labels, left + [u], l) + Hits(labels, visited, l)
    {
      HitsConcat(labels, left, [u], l);
      HitsConcat(labels, visited, [u], l);
    }
  }

  lemma CreditedSame(labels: seq<string>, before: map<string, real>, after: map<string, real>, visited: seq<nat>,
                     interior: seq<nat>)
    requires Credited(labels, before, after, visited) && BackFrom(labels, [], visited, interior)
    ensures Credited(labels, before, after, interior)
  {
    hide MapSum;
    assert forall l :: Hits(labels, [], l) == 0;
  }

  // ----- all pairs

  datatype SearchTree = SearchTree(pred: map<nat, nat>, level: map<nat, nat>)

  ghost predicate HasRoot(net: Net, s: nat, tree: SearchTree) {
    Rooted(net, s, tree.pred, tree.level)
  }

  ghost predicate Grown(net: Net, s: nat, tree: SearchTree) {
    Tree(net, s, tree.pred, tree.level)
  }

  ghost function TargetVisits(net: Net, s: nat, tree: SearchTree, t: nat): seq<nat>
    requires HasRoot(net, s, tree)
  {
    if t in tree.pred && t != s then Interior(net, s, tree.pred, tree.level, t) else []
  }

  /** The interiors of the paths from s to the reached targets below k. */
  ghost function VisitsBelow(net: Net, s: nat, tree: SearchTree, k: nat): seq<nat>
    requires HasRoot(net, s, tree)
  {
    if k == 0 then [] else VisitsBelow(net, s, tree, k - 1) + TargetVisits(net, s, tree, k - 1)
  }

  /** The interiors of all paths from s. */
  ghost function SourceVisits(net: Net, s: nat, tree: SearchTree): seq<nat>
    requires HasRoot(net, s, tree)
  {
    VisitsBelow(net, s, tree, |net|)
  }

  ghost predicate AllRooted(net: Net, trees: seq<SearchTree>) {
    forall s :: 0 <= s < |trees| ==> HasRoot(net, s, trees[s])
  }

  /** The same for all sources, tree by tree. */
  ghost function AllVisits(net: Net, trees: seq<SearchTree>): seq<nat>
    requires AllRooted(net, trees)
  {
    if trees == [] then []
    else
      var s := |trees| - 1;
      AllVisits(net, trees[..s]) + SourceVisits(net, s, trees[s])
  }

  /** The sum of distance minus one over the targets below k other than s. */
  function ExcessBelow(s: nat, level: map<nat, nat>, k: nat): int {
    if k == 0 then 0
    else ExcessBelow(s, level, k - 1) + (if k - 1 in level && k - 1 != s then level[k - 1] as int - 1 else 0)
  }

  /** The sum of distance minus one from s, in a net with n nodes. */
  function SourceExcess(s: nat, level: map<nat, nat>, n: nat): int {
    ExcessBelow(s, level, n)
  }

  /** The same summed over all sources of a net with n nodes. */
  function TotalExcess(levels: seq<map<nat, nat>>, n: nat): int {
    if levels == [] then 0
    else
      var s := |levels| - 1;
      TotalExcess(levels[..s], n) + SourceExcess(s, levels[s], n)
  }

  lemma {:induction false} VisitsBelowCount(net: Net, s: nat, tree: SearchTree, k: nat)
    requires HasRoot(net, s, tree)
    ensures |VisitsBelow(net, s, tree, k)| == ExcessBelow(s, tree.level, k)
  {
    hide HasRoot, TargetVisits;
    if k > 0 {
      VisitsBelowCount(net, s, tree, k - 1);
      TargetVisitsCount(net, s, tree, k - 1);
    }
  }

  lemma TargetVisitsCount(net: Net, s: nat, tree: SearchTree, t: nat)
    requires HasRoot(net, s, tree)
    ensures |TargetVisits(net, s, tree, t)| == if t in tree.level && t != s then tree.level[t] as int - 1 else 0
  {
    assert t in tree.pred <==> t in tree.level;
    if t in tree.pred && t != s {
      InteriorIsRoute(net, s, tree.pred, tree.level, t);
    }
  }

  lemma SourceVisitsCount(net: Net, s: nat, tree: SearchTree)
    requires HasRoot(net, s, tree)
    ensures |SourceVisits(net, s, tree)| == SourceExcess(s, tree.level, |net|)
  {
    VisitsBelowCount(net, s, tree, |net|);
  }

  lemma {:induction false} AllVisitsCount(net: Net, trees: seq<SearchTree>, levels: seq<map<nat, nat>>)
    requires |trees| == |levels| && AllRooted(net, trees)
    requires forall s :: 0 <= s < |trees| ==> levels[s] == trees[s].level
    ensures |AllVisits(net, trees)| == TotalExcess(levels, |net|)
  {
    hide HasRoot, SourceVisits, SourceExcess;
    if trees != [] {
      var s := |trees| - 1;
      AllVisitsCount(net, trees[..s], levels[..s]);
      SourceVisitsCount(net, s, trees[s]);
    }
  }

  /** One source: search, then walk back from every other node that was reached. */
  method ScoreSource(net: Net, labels: seq<string>, s: nat, before: map<string, real>)
    returns (scores: map<string, real>, ghost tree: SearchTree)
    requires ValidNet(net) && s < |net| == |labels| && AllScored(labels, before)
    ensures Grown(net, s, tree) && HasRoot(net, s, tree) && AllScored(labels, scores)
    ensures Credited(labels, before, scores, SourceVisits(net, s, tree))
  {
    hide Credited, Rooted;
    var pred;
    ghost var level;
    pred, level := Search(net, s);
    tree := SearchTree(pred, level);
    scores := before;
    CreditedNothing(labels, before);
    for t := 0 to |net|
      invariant AllScored(labels, scores)
      invariant Credited(labels, before, scores, VisitsBelow(net, s, tree, t))
    {
      if t == s || t !in pred {
        CreditedNothing(labels, scores);
        CreditedConcat(labels, before, scores, scores, VisitsBelow(net, s, tree, t), []);
      } else {
        var next := WalkBack(net, labels, s, pred, level, t, scores);
        CreditedConcat(labels, before, scores, next, VisitsBelow(net, s, tree, t), Interior(net, s, pred, level, t));
        StillScored(labels, scores, next, Interior(net, s, pred, level, t));
        scores := next;
      }
    }
  }

  lemma StillScored(labels: seq<string>, before: map<string, real>, after: map<string, real>, visits: seq<nat>)
    requires AllScored(labels, before) && Credited(labels, before, after, visits)
    ensures AllScored(labels, after)
  {}

  function ZeroScores(labels: seq<string>): map<string, real> {
    map l | l in labels :: 0.0
  }

  /**
   `approximate_betweenness`: every label's score counts how often its nodes lie inside the chosen
   shortest paths, one path per ordered pair of distinct connected nodes.
   */
  method ApproximateBetweenness(net: Net, labels: seq<string>)
    returns (scores: map<string, real>, ghost trees: seq<SearchTree>)
    requires ValidNet(net) && |labels| == |net|
    ensures |trees| == |net| && AllRooted(net, trees) && forall s :: 0 <= s < |trees| ==> Grown(net, s, trees[s])
    ensures Credited(labels, ZeroScores(labels), scores, AllVisits(net, trees))
    ensures AddUpToDistances(net, scores)
  {
    hide Credited, Grown, HasRoot, AllRooted, SourceVisits;
    scores := ZeroScores(labels);
    trees := [];
    ghost var zero := scores;
    CreditedNothing(labels, zero);
    NoTrees(net);
    for s := 0 to |net|
      invariant |trees| == s && AllRooted(net, trees) && forall i :: 0 <= i < s ==> Grown(net, i, trees[i])
      invariant AllScored(labels, scores)
      invariant Credited(labels, zero, scores, AllVisits(net, trees))
    {
      var next;
      ghost var tree;
      next, tree := ScoreSource(net, labels, s, scores);
      CreditedConcat(labels, zero, scores, next, AllVisits(net, trees), SourceVisits(net, s, tree));
      OneMoreTree(net, trees, tree);
      trees := trees + [tree];
      scores := next;
    }
    ScoresAddUp(net, labels, scores, trees);
  }

  lemma NoTrees(net: Net)
    ensures AllRooted(net, []) && AllVisits(net, []) == []
  {}

  lemma OneMoreTree(net: Net, trees: seq<SearchTree>, tree: SearchTree)
    requires AllRooted(net, trees) && HasRoot(net, |trees|, tree)
    ensures AllRooted(net, trees + [tree])
    ensures AllVisits(net, trees + [tree]) == AllVisits(net, trees) + SourceVisits(net, |trees|, tree)
  {
    hide HasRoot, SourceVisits;
    assert (trees + [tree])[..|trees|] == trees;
  }

  // ----- what the scores add up to

  lemma DistancesUnique(net: Net, s: nat, a: map<nat, nat>, b: map<nat, nat>)
    requires DistanceMap(net, s, a) && DistanceMap(net, s, b)
    ensures a == b
  {
    hide Reach;
    forall v | v in a
      ensures v in b && a[v] == b[v]
    {
      assert IsDistance(net, s, v, a[v]);
      assert IsDistance(net, s, v, b[v]);
    }
    forall v | v in b
      ensures v in a
    {
      assert IsDistance(net, s, v, b[v]);
    }
  }

  lemma {:induction false} ZeroSum(m: map<string, real>, s: set<string>)
    requires forall l :: l in s ==> Get(m, l) == 0.0
    ensures SumOver(m, s) == 0.0
  {
    if s != {} {
      var l :| l in s;
      SumOverRemove(m, s, l);
      ZeroSum(m, s - {l});
    }
  }

  /** All scores together are the sum of distance minus one over the ordered pairs of distinct connected nodes. */
  ghost predicate AddUpToDistances(net: Net, scores: map<string, real>) {
    forall levels: seq<map<nat, nat>> :: AllDistances(net, levels)
           ==> MapSum(scores) == TotalExcess(levels, |net|) as real
  }

  ghost predicate AllDistances(net: Net, levels: seq<map<nat, nat>>) {
    |levels| == |net| && forall s :: 0 <= s < |net| ==> DistanceMap(net, s, levels[s])
  }

  lemma ScoresAddUp(net: Net, labels: seq<string>, scores: map<string, real>, trees: seq<SearchTree>)
    requires |trees| == |net| && AllRooted(net, trees) && forall s :: 0 <= s < |net| ==> Grown(net, s, trees[s])
    requires Credited(labels, ZeroScores(labels), scores, AllVisits(net, trees))
    ensures AddUpToDistances(net, scores)
  {
    hide AllDistances, Credited, Grown, AllRooted;
    forall levels: seq<map<nat, nat>> | AllDistances(net, levels)
      ensures MapSum(scores) == TotalExcess(levels, |net|) as real
    {
      ScoresSumToDistances(net, labels, scores, trees, levels);
    }
  }

  /**
   Whatever the order of the search: the betweenness scores of all labels add up to the sum, over
   all ordered pairs of distinct nodes with a path between them, of their distance minus one.
   */
  lemma ScoresSumToDistances(net: Net, labels: seq<string>, scores: map<string, real>, trees: seq<SearchTree>,
                             levels: seq<map<nat, nat>>)
    requires |trees| == |net| && AllDistances(net, levels)
    requires AllRooted(net, trees) && forall s :: 0 <= s < |net| ==> Grown(net, s, trees[s])
    requires Credited(labels, ZeroScores(labels), scores, AllVisits(net, trees))
    ensures MapSum(scores) == TotalExcess(levels, |net|) as real
  {
    hide DistanceMap, Tree, HasRoot;
    forall s | 0 <= s < |net|
      ensures levels[s] == trees[s].level
    {
      TreeDistances(net, s, trees[s].pred, trees[s].level);
      DistancesUnique(net, s, levels[s], trees[s].level);
    }
    AllVisitsCount(net, trees, levels);
    var zero := ZeroScores(labels);
    ZeroSum(zero, zero.Keys);
  }
}
