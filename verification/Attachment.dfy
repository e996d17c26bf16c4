/**
 Preferential attachment, the generator behind the overlay topologies. Proved
 over every sequence of random draws: the graph stays simple, undirected and
 connected, the degree list and the edge total agree with the adjacency, the
 weighted choice never falls through and picks each node with as many draws as
 it has neighbours, and the rejection loop can always make progress.
 */
module Attachment {

  /** The generator's state; totalEdges counts every undirected edge twice. */
  datatype Graph = Graph(adjacency: map<nat, set<nat>>, degrees: seq<nat>, totalEdges: nat)

  // ----- sums of degrees

  function DegreeSum(degrees: seq<nat>): nat {
    if degrees == [] then 0 else DegreeSum(degrees[..|degrees| - 1]) + degrees[|degrees| - 1]
  }

  /** The accumulated degree of the nodes before n. */
  function Below(degrees: seq<nat>, n: nat): nat
    requires n <= |degrees|
  {
    DegreeSum(degrees[..n])
  }

  lemma BelowStep(degrees: seq<nat>, n: nat)
    requires n < |degrees|
    ensures Below(degrees, n + 1) == Below(degrees, n) + degrees[n]
  {
    assert degrees[..n + 1][..n] == degrees[..n];
  }

  lemma BelowWhole(degrees: seq<nat>)
    ensures Below(degrees, |degrees|) == DegreeSum(degrees) && Below(degrees, 0) == 0
  {
    assert degrees[..|degrees|] == degrees;
  }

  lemma {:induction false} BelowMonotone(degrees: seq<nat>, i: nat, j: nat)
    requires i <= j <= |degrees|
    ensures Below(degrees, i) <= Below(degrees, j)
    decreases j
  {
    if i < j {
      BelowMonotone(degrees, i, j - 1);
      BelowStep(degrees, j - 1);
    }
  }

  // ----- sets of nodes

  function Nodes(n: nat): (s: set<nat>)
    ensures forall u: nat :: u in s <==> u < n
    ensures |s| == n
  {
    if n == 0 then {} else Nodes(n - 1) + {n - 1}
  }

  lemma {:induction false} SubsetSize<T>(a: set<T>, b: set<T>)
    requires a <= b
    ensures |a| <= |b|
    ensures |a| == |b| ==> a == b
  {
    if a != {} {
      var x :| x in a;
      SubsetSize(a - {x}, b - {x});
    }
  }

  // ----- well-formed graphs

  /** An undirected graph on the nodes below n, without loops. */
  ghost predicate Simple(adjacency: map<nat, set<nat>>, n: nat) {
    && (forall u: nat :: u in adjacency <==> u < n)
    && (forall u, v :: u in adjacency && v in adjacency[u] ==> v < n && v != u)
    && (forall u, v :: u in adjacency && v in adjacency[u] ==> v in adjacency && u in adjacency[v])
  }

  ghost predicate DegreesMatch(adjacency: map<nat, set<nat>>, degrees: seq<nat>) {
    forall u: nat :: u < |degrees| ==> u in adjacency && degrees[u] == |adjacency[u]|
  }

  ghost predicate WellFormed(g: Graph) {
    && Simple(g.adjacency, |g.degrees|)
    && DegreesMatch(g.adjacency, g.degrees)
    && g.totalEdges == DegreeSum(g.degrees)
  }

  /** A walk from u to v along edges. */
  ghost predicate Walk(adjacency: map<nat, set<nat>>, u: nat, v: nat, p: seq<nat>) {
    && p != [] && p[0] == u && p[|p| - 1] == v
    && (forall i :: 0 <= i < |p| ==> p[i] in adjacency)
    && (forall i :: 0 <= i < |p| - 1 ==> p[i + 1] in adjacency[p[i]])
  }

  ghost predicate Linked(g: Graph, u: nat, v: nat) {
    exists p :: Walk(g.adjacency, u, v, p)
  }

  ghost predicate Connected(g: Graph) {
    forall u: nat, v: nat :: u < |g.degrees| && v < |g.degrees| ==> Linked(g, u, v)
  }

  // ----- the operations

  function CliqueEdges(m0: nat): nat
    requires m0 >= 1
  {
    m0 * (m0 - 1)
  }

  function Clique(m0: nat): Graph
    requires m0 >= 1
  {
    Graph(map u: nat | u in Nodes(m0) :: Nodes(m0) - {u}, seq(m0, _ => m0 - 1), CliqueEdges(m0))
  }

  /** Connect a new node to the given targets. */
  function Attach(g: Graph, targets: set<nat>): Graph {
    var newNode := |g.degrees|;
    Graph(
      Joined(g.adjacency, targets, newNode)[newNode := targets],
      Bumped(g.degrees, targets) + [|targets|],
      g.totalEdges + 2 * |targets|)
  }

  function Joined(adjacency: map<nat, set<nat>>, targets: set<nat>, newNode: nat): map<nat, set<nat>> {
    map u | u in adjacency :: if u in targets then adjacency[u] + {newNode} else adjacency[u]
  }

  function Bumped(degrees: seq<nat>, targets: set<nat>): seq<nat> {
    seq(|degrees|, u requires 0 <= u < |degrees| => degrees[u] + (if u in targets then 1 else 0))
  }

  // ----- weighted choice

  /** The draws that choose node u: exactly degrees[u] many consecutive ones. */
  predicate Chosen(degrees: seq<nat>, target: nat, u: nat) {
    u < |degrees| && Below(degrees, u) <= target < Below(degrees, u) + degrees[u]
  }

  /** The draws that choose node u. */
  function DrawsOf(degrees: seq<nat>, u: nat): set<nat> {
    set t: nat | t < DegreeSum(degrees) && Chosen(degrees, t, u)
  }

  /** Preferential attachment: among all draws, exactly as many choose a node as it has neighbours. */
  lemma DrawsPerNode(degrees: seq<nat>, u: nat)
    requires u < |degrees|
    ensures |DrawsOf(degrees, u)| == degrees[u]
  {
    hide Below;
    var lo := Below(degrees, u);
    BelowStep(degrees, u);
    BelowMonotone(degrees, u + 1, |degrees|);
    BelowWhole(degrees);
    assert DrawsOf(degrees, u) == Between(lo, lo + degrees[u]);
  }

  function Between(lo: nat, hi: nat): (s: set<nat>)
    requires lo <= hi
    ensures forall t: nat :: t in s <==> lo <= t < hi
    ensures |s| == hi - lo
    decreases hi
  {
    if lo == hi then {} else Between(lo, hi - 1) + {hi - 1}
  }

  lemma ChosenUnique(degrees: seq<nat>, target: nat, u: nat, v: nat)
    requires Chosen(degrees, target, u) && Chosen(degrees, target, v)
    ensures u == v
  {
    hide Below;
    BelowStep(degrees, u);
    BelowStep(degrees, v);
    if u < v {
      BelowMonotone(degrees, u + 1, v);
    } else if v < u {
      BelowMonotone(degrees, v + 1, u);
    }
  }

  /** Every draw below the total chooses a node, so the panic after the loop is unreachable. */
  method ChooseNode(g: Graph, target: nat) returns (node: nat)
    requires WellFormed(g) && target < g.totalEdges
    ensures Chosen(g.degrees, target, node) && node < |g.degrees|
  {
    hide WellFormed, Below;
    assert g.totalEdges == DegreeSum(g.degrees) by { EdgeTotal(g); }
    var sum := 0;
    BelowWhole(g.degrees);
    for i := 0 to |g.degrees|
      invariant sum == Below(g.degrees, i) && sum <= target
    {
      BelowStep(g.degrees, i);
      sum := sum + g.degrees[i];
      if sum > target {
        return i;
      }
    }
    assert false;
  }

  lemma EdgeTotal(g: Graph)
    requires WellFormed(g)
    ensures g.totalEdges == DegreeSum(g.degrees)
  {}

  /** As long as some node is not yet a target and no node is isolated, some draw chooses a new target. */
  lemma ProgressPossible(g: Graph, targets: set<nat>) returns (target: nat, node: nat)
    requires WellFormed(g) && targets <= Nodes(|g.degrees|) && |targets| < |g.degrees|
    requires forall u: nat :: u < |g.degrees| ==> g.degrees[u] > 0
    ensures target < g.totalEdges && Chosen(g.degrees, target, node) && node !in targets
  {
    hide Below;
    var n := |g.degrees|;
    assert exists u :: u in Nodes(n) && u !in targets by {
      if Nodes(n) <= targets {
        SubsetSize(Nodes(n), targets);
      }
    }
    node :| node in Nodes(n) && node !in targets;
    target := Below(g.degrees, node);
    BelowStep(g.degrees, node);
    BelowMonotone(g.degrees, node + 1, n);
    BelowWhole(g.degrees);
  }

  // ----- every step keeps the graph well formed

  lemma {:induction false} ConstantTotal(degrees: seq<nat>, d: nat)
    requires forall i :: 0 <= i < |degrees| ==> degrees[i] == d
    ensures DegreeSum(degrees) == |degrees| * d
  {
    if degrees != [] {
      ConstantTotal(degrees[..|degrees| - 1], d);
      assert |degrees| * d == (|degrees| - 1) * d + d;
    }
  }

  lemma CliqueWellFormed(m0: nat)
    requires m0 >= 1
    ensures WellFormed(Clique(m0)) && Connected(Clique(m0))
  {
    var g := Clique(m0);
    ConstantTotal(g.degrees, m0 - 1);
    forall u: nat, v: nat | u < m0 && v < m0
      ensures Linked(g, u, v)
    {
      assert Walk(g.adjacency, u, v, if u == v then [u] else [u, v]);
    }
  }

  lemma {:induction false} BumpedTotal(degrees: seq<nat>, targets: set<nat>)
    requires targets <= Nodes(|degrees|)
    ensures DegreeSum(Bumped(degrees, targets)) == DegreeSum(degrees) + |targets|
  {
    hide Bumped;
    if degrees == [] {
      assert targets == {};
      NothingLinked(map[], degrees, 0);
    } else {
      var n := |degrees| - 1;
      BumpedInit(degrees, targets);
      BumpedTotal(degrees[..n], targets - {n});
    }
  }

  lemma BumpedInit(degrees: seq<nat>, targets: set<nat>)
    requires degrees != []
    ensures var n, bumped := |degrees| - 1, Bumped(degrees, targets);
            && |bumped| == n + 1 && bumped[..n] == Bumped(degrees[..n], targets - {n})
            && bumped[n] == degrees[n] + (if n in targets then 1 else 0)
  {}

  lemma JoinedSimple(adjacency: map<nat, set<nat>>, targets: set<nat>, n: nat)
    requires Simple(adjacency, n) && targets <= Nodes(n)
    ensures Simple(Joined(adjacency, targets, n)[n := targets], n + 1)
  {
    var joined := Joined(adjacency, targets, n)[n := targets];
    forall u, v | u in joined && v in joined[u]
      ensures v < n + 1 && v != u && u in joined[v]
    {
      if u < n && v < n {
        assert v in adjacency[u];
      }
    }
  }

  lemma NeighborsInRange(adjacency: map<nat, set<nat>>, n: nat, u: nat)
    requires Simple(adjacency, n) && u < n
    ensures forall v :: v in adjacency[u] ==> v < n
  {
    forall v | v in adjacency[u]
      ensures v < n
    {
      assert u in adjacency;
    }
  }

  lemma JoinedDegrees(adjacency: map<nat, set<nat>>, degrees: seq<nat>, targets: set<nat>)
    requires Simple(adjacency, |degrees|) && DegreesMatch(adjacency, degrees)
    ensures DegreesMatch(Joined(adjacency, targets, |degrees|)[|degrees| := targets],
                         Bumped(degrees, targets) + [|targets|])
  {
    var n := |degrees|;
    forall u: nat | u < n
      ensures n !in adjacency[u]
    {
      NeighborsInRange(adjacency, n, u);
    }
  }

  lemma AttachWellFormed(g: Graph, targets: set<nat>)
    requires WellFormed(g) && targets <= Nodes(|g.degrees|)
    ensures WellFormed(Attach(g, targets))
  {
    hide Simple, DegreesMatch, Joined, Bumped;
    JoinedSimple(g.adjacency, targets, |g.degrees|);
    JoinedDegrees(g.adjacency, g.degrees, targets);
    AttachedTotal(g.degrees, targets);
  }

  lemma AttachedTotal(degrees: seq<nat>, targets: set<nat>)
    requires targets <= Nodes(|degrees|)
    ensures |Bumped(degrees, targets)| == |degrees|
    ensures DegreeSum(Bumped(degrees, targets) + [|targets|]) == DegreeSum(degrees) + 2 * |targets|
  {
    BumpedTotal(degrees, targets);
    assert (Bumped(degrees, targets) + [|targets|])[..|degrees|] == Bumped(degrees, targets);
  }

  lemma WalkSurvives(g: Graph, targets: set<nat>, u: nat, v: nat, p: seq<nat>)
    requires WellFormed(g) && Walk(g.adjacency, u, v, p)
    ensures Walk(Attach(g, targets).adjacency, u, v, p)
  {}

  lemma LinkExtends(g: Graph, u: nat, v: nat, w: nat)
    requires Linked(g, u, v) && v in g.adjacency && w in g.adjacency && w in g.adjacency[v]
    ensures Linked(g, u, w)
  {
    var p :| Walk(g.adjacency, u, v, p);
    assert Walk(g.adjacency, u, w, p + [w]);
  }

  lemma LinkPrepends(g: Graph, w: nat, u: nat, v: nat)
    requires Linked(g, u, v) && w in g.adjacency && u in g.adjacency[w]
    ensures Linked(g, w, v)
  {
    var p :| Walk(g.adjacency, u, v, p);
    assert Walk(g.adjacency, w, v, [w] + p);
  }

  /** A new node with at least one link keeps the graph connected. */
  lemma AttachConnected(g: Graph, targets: set<nat>)
    requires WellFormed(g) && Connected(g) && targets <= Nodes(|g.degrees|) && targets != {}
    ensures Connected(Attach(g, targets))
  {
    hide Linked, Joined, Bumped;
    var n, g' := |g.degrees|, Attach(g, targets);
    var t :| t in targets;
    assert |g'.degrees| == n + 1 by { AttachedTotal(g.degrees, targets); }
    forall u: nat, v: nat | u <= n && v <= n
      ensures Linked(g', u, v)
    {
      LinkThrough(g, targets, t, u, v);
    }
  }

  /** The edges between the new node and a target. */
  lemma NewEdges(g: Graph, targets: set<nat>, t: nat)
    requires WellFormed(g) && targets <= Nodes(|g.degrees|) && t in targets
    ensures var n, g' := |g.degrees|, Attach(g, targets);
            && n in g'.adjacency && t in g'.adjacency && t in g'.adjacency[n] && n in g'.adjacency[t]
  {}

  /** In the extended graph old nodes keep their links and reach the new node through a target. */
  lemma LinkThrough(g: Graph, targets: set<nat>, t: nat, u: nat, v: nat)
    requires WellFormed(g) && Connected(g) && targets <= Nodes(|g.degrees|) && t in targets
    requires u <= |g.degrees| && v <= |g.degrees|
    ensures Linked(Attach(g, targets), u, v)
  {
    hide Linked, WellFormed, Attach;
    var n, g' := |g.degrees|, Attach(g, targets);
    NewEdges(g, targets, t);
    if u < n && v < n {
      OldLink(g, targets, u, v);
    } else if u < n {
      OldLink(g, targets, u, t);
      LinkExtends(g', u, t, n);
    } else if v < n {
      OldLink(g, targets, t, v);
      LinkPrepends(g', n, t, v);
    } else {
      SelfLink(g', n);
    }
  }

  lemma OldLink(g: Graph, targets: set<nat>, u: nat, v: nat)
    requires WellFormed(g) && Linked(g, u, v)
    ensures Linked(Attach(g, targets), u, v)
  {
    var p :| Walk(g.adjacency, u, v, p);
    WalkSurvives(g, targets, u, v, p);
  }

  lemma SelfLink(g: Graph, u: nat)
    requires u in g.adjacency
    ensures Linked(g, u, u)
  {
    assert Walk(g.adjacency, u, u, [u]);
  }

  // ----- whole generations

  /** The graph after attaching the given target sets one after the other. */
  function Grow(m0: nat, rounds: seq<set<nat>>): Graph
    requires m0 >= 1
  {
    if rounds == [] then Clique(m0) else Attach(Grow(m0, rounds[..|rounds| - 1]), rounds[|rounds| - 1])
  }

  /** Each round links its node to exactly m distinct earlier nodes. */
  ghost predicate Admissible(m0: nat, m: nat, rounds: seq<set<nat>>) {
    forall i :: 0 <= i < |rounds| ==> rounds[i] <= Nodes(m0 + i) && |rounds[i]| == m
  }

  /** The size, edge count, well-formedness and connectivity of every generated graph. */
  lemma {:induction false} GrownGraph(m0: nat, m: nat, rounds: seq<set<nat>>)
    requires m0 >= 1 && Admissible(m0, m, rounds)
    ensures var g := Grow(m0, rounds);
            && |g.degrees| == m0 + |rounds|
            && WellFormed(g)
            && g.totalEdges == CliqueEdges(m0) + 2 * m * |rounds|
            && (m >= 1 ==> Connected(g))
  {
    if rounds == [] {
      CliqueWellFormed(m0);
    } else {
      hide Connected, WellFormed, Joined, Bumped;
      var k := |rounds| - 1;
      GrownGraph(m0, m, rounds[..k]);
      var g := Grow(m0, rounds[..k]);
      AttachWellFormed(g, rounds[k]);
      if m >= 1 {
        AttachConnected(g, rounds[k]);
      }
      EdgesOfRounds(m, k);
    }
  }

  lemma {:induction false} NobodyIsolated(m0: nat, m: nat, rounds: seq<set<nat>>)
    requires m0 >= 2 && m >= 1 && Admissible(m0, m, rounds)
    ensures forall u: nat :: u < |Grow(m0, rounds).degrees| ==> Grow(m0, rounds).degrees[u] > 0
  {
    if rounds != [] {
      NobodyIsolated(m0, m, rounds[..|rounds| - 1]);
    }
  }

  /** In every generated graph a node short of its links can still draw a new one. */
  lemma NeverStuck(m0: nat, m: nat, rounds: seq<set<nat>>, targets: set<nat>) returns (target: nat, node: nat)
    requires m0 >= 2 && 1 <= m <= m0 && Admissible(m0, m, rounds)
    requires targets <= Nodes(m0 + |rounds|) && |targets| < m
    ensures var g := Grow(m0, rounds); target < g.totalEdges && Chosen(g.degrees, target, node) && node !in targets
  {
    GrownGraph(m0, m, rounds);
    NobodyIsolated(m0, m, rounds);
    target, node := ProgressPossible(Grow(m0, rounds), targets);
  }

  lemma EdgesOfRounds(m: nat, k: nat)
    ensures 2 * m * (k + 1) == 2 * m * k + 2 * m
  {}

  // ----- the object

  /** All nodes of the initial clique but i. */
  method NeighborsInClique(m0: nat, i: nat) returns (neighbors: set<nat>)
    requires i < m0
    ensures neighbors == Nodes(m0) - {i}
  {
    neighbors := {};
    for j := 0 to m0
      invariant forall u: nat :: u in neighbors <==> u < j && u != i
    {
      if i != j {
        neighbors := neighbors + {j};
      }
    }
  }

  /** Linking one more target. */
  lemma LinkStep(adjacency: map<nat, set<nat>>, degrees: seq<nat>, linked: set<nat>, newNode: nat, target: nat)
    requires target in adjacency && target < |degrees| && target !in linked
    ensures var joined, bumped := Joined(adjacency, linked, newNode), Bumped(degrees, linked);
            && target in joined && |bumped| == |degrees|
            && Joined(adjacency, linked + {target}, newNode) == joined[target := joined[target] + {newNode}]
            && Bumped(degrees, linked + {target}) == bumped[target := bumped[target] + 1]
  {}

  lemma TargetsExist(g: Graph, targets: set<nat>)
    requires WellFormed(g) && targets <= Nodes(|g.degrees|)
    ensures forall t :: t in targets ==> t in g.adjacency && t < |g.degrees|
  {}

  lemma NothingLinked(adjacency: map<nat, set<nat>>, degrees: seq<nat>, newNode: nat)
    ensures Joined(adjacency, {}, newNode) == adjacency && Bumped(degrees, {}) == degrees
  {}

  class BANetwork {
    var adjacency: map<nat, set<nat>>
    var degrees: seq<nat>
    var totalEdges: nat

    function View(): Graph
      reads this
    {
      Graph(adjacency, degrees, totalEdges)
    }

    constructor (m0: nat)
      requires m0 >= 1
      ensures View() == Clique(m0)
    {
      hide Nodes;
      var lists: map<nat, set<nat>>, counts: seq<nat> := map[], [];
      for i := 0 to m0
        invariant forall u: nat :: u in lists <==> u < i
        invariant forall u :: u in lists ==> lists[u] == Nodes(m0) - {u}
        invariant |counts| == i && forall u :: 0 <= u < i ==> counts[u] == m0 - 1
      {
        var neighbors := NeighborsInClique(m0, i);
        lists := lists[i := neighbors];
        counts := counts + [m0 - 1];
      }
      adjacency, degrees, totalEdges := lists, counts, CliqueEdges(m0);
    }

    /**
     Collect targets by repeated weighted choice, rejecting repeats; each round of the loop takes
     the next number of the generator, reduced to the range of the draw. Not done means that the
     numbers ran out while the loop was still collecting.
     */
    method CollectTargets(m: nat, numbers: seq<nat>) returns (done: bool, targets: set<nat>)
      requires WellFormed(View()) && (m > 0 ==> totalEdges > 0)
      ensures targets <= Nodes(|degrees|)
      ensures done ==> |targets| == if m < |degrees| then m else |degrees|
    {
      targets := {};
      var next := 0;
      while |targets| < m && |targets| < |degrees|
        invariant targets <= Nodes(|degrees|) && |targets| <= m && next <= |numbers|
        decreases |numbers| - next
      {
        if next == |numbers| {
          return false, targets;
        }
        var target := ChooseNode(View(), numbers[next] % totalEdges);
        if target != |degrees| {
          targets := targets + {target};
        }
        next := next + 1;
        SubsetSize(targets, Nodes(|degrees|));
      }
      SubsetSize(targets, Nodes(|degrees|));
      done := true;
    }

    /** Link a new node to the given targets, visiting them in any order. */
    method LinkNewNode(targets: set<nat>)
      requires WellFormed(View()) && targets <= Nodes(|degrees|)
      modifies this
      ensures View() == Attach(old(View()), targets)
    {
      hide WellFormed, Joined, Bumped, Nodes;
      TargetsExist(View(), targets);
      var newNode := |degrees|;
      var rest := targets;
      ghost var linked: set<nat> := {};
      NothingLinked(adjacency, degrees, newNode);
      while rest != {}
        invariant linked + rest == targets && linked !! rest
        invariant adjacency == Joined(old(adjacency), linked, newNode)
        invariant degrees == Bumped(old(degrees), linked)
        invariant totalEdges == old(totalEdges) + 2 * |linked|
      {
        var target :| target in rest;
        LinkStep(old(adjacency), old(degrees), linked, newNode, target);
        adjacency := adjacency[target := adjacency[target] + {newNode}];
        degrees := degrees[target := degrees[target] + 1];
        totalEdges := totalEdges + 2;
        rest := rest - {target};
        linked := linked + {target};
      }
      assert linked == targets;
      adjacency := adjacency[newNode := targets];
      degrees := degrees + [|targets|];
    }

    method AddNode(m: nat, numbers: seq<nat>) returns (done: bool, ghost targets: set<nat>)
      requires WellFormed(View()) && (m > 0 ==> totalEdges > 0)
      modifies this
      ensures !done ==> View() == old(View())
      ensures done ==>
                && targets <= Nodes(|old(degrees)|)
                && |targets| == (if m < |old(degrees)| then m else |old(degrees)|)
                && View() == Attach(old(View()), targets)
    {
      var chosen;
      done, chosen := CollectTargets(m, numbers);
      targets := chosen;
      if done {
        LinkNewNode(chosen);
      }
    }
  }

  /**
   `generate_ba_network`, with one list of numbers per added node. Whenever the collecting loops
   finish, the result is a connected simple graph with the full node and edge count.
   */
  method GenerateNetwork(nodes: nat, m0: nat, m: nat, numbers: seq<seq<nat>>) returns (done: bool, network: BANetwork)
    requires 1 <= m0 && m <= m0 && (m > 0 && nodes > m0 ==> m0 >= 2)
    requires nodes <= m0 + |numbers|
    ensures done ==>
              var g, n := network.View(), if nodes < m0 then m0 else nodes;
              && |g.degrees| == n
              && WellFormed(g) && (m >= 1 ==> Connected(g))
              && g.totalEdges == CliqueEdges(m0) + 2 * m * (n - m0)
  {
    hide WellFormed, Connected, CliqueEdges, Attach, Admissible;
    network := new BANetwork(m0);
    ghost var rounds: seq<set<nat>> := [];
    AdmissibleStart(m0, m);
    for k := 0 to if nodes < m0 then 0 else nodes - m0
      invariant |rounds| == k && Admissible(m0, m, rounds)
      invariant network.View() == Grow(m0, rounds) && fresh(network)
    {
      GrownGraph(m0, m, rounds);
      if m > 0 {
        SomeEdges(m0, m, k);
      }
      ghost var targets;
      done, targets := network.AddNode(m, numbers[k]);
      if !done {
        return;
      }
      AnotherRound(m0, m, rounds, targets);
      rounds := rounds + [targets];
    }
    GrownGraph(m0, m, rounds);
    done := true;
  }

  lemma AdmissibleStart(m0: nat, m: nat)
    ensures Admissible(m0, m, [])
  {}

  lemma AnotherRound(m0: nat, m: nat, rounds: seq<set<nat>>, targets: set<nat>)
    requires m0 >= 1 && Admissible(m0, m, rounds) && targets <= Nodes(m0 + |rounds|) && |targets| == m
    ensures Admissible(m0, m, rounds + [targets])
    ensures Grow(m0, rounds + [targets]) == Attach(Grow(m0, rounds), targets)
  {
    hide Attach, Clique;
    assert (rounds + [targets])[..|rounds|] == rounds;
  }

  lemma SomeEdges(m0: nat, m: nat, k: nat)
    requires m0 >= 2
    ensures CliqueEdges(m0) + 2 * m * k > 0
  {
    assert m0 * (m0 - 1) >= m0;
  }
}
