/**
 * `nx.single_source_shortest_path_length(H, s)`: a level-synchronous
 * breadth-first search over the undirected adjacency, returning for every
 * node reachable from s its hop count, in discovery order (s first, at 0).
 */
module ShortestPaths {
  import opened Graphs
  import opened Sequences
  import opened Reachability

  import opened Hops

  /** sizes(1) * 1 + sizes(2) * 2 + ... + sizes(k) * k. */
  function WeightedSum(sizes: nat -> nat, k: nat): nat {
    if k == 0 then 0 else WeightedSum(sizes, k - 1) + Times(k, sizes(k))
  }

  lemma {:induction false} WeightedSumZeroTail(sizes: nat -> nat, k: nat, j: nat)
    requires k <= j
    requires forall i :: k < i <= j ==> sizes(i) == 0
    ensures WeightedSum(sizes, j) == WeightedSum(sizes, k)
    decreases j
  {
    if j > k {
      WeightedSumZeroTail(sizes, k, j - 1);
    }
  }

  /** The number of nodes at each hop count from s. */
  function LayerSizes(g: Graph, s: Node): nat -> nat {
    i => |Layer(g, s, i)|
  }

  /** Sum of the distances of the nodes within k hops: each layer d weighs d per node. */
  function LevelSum(g: Graph, s: Node, k: nat): nat {
    WeightedSum(LayerSizes(g, s), k)
  }

  /** Sum of the shortest-path lengths from s to every node it reaches. */
  function DistanceSum(g: Graph, s: Node): nat {
    LevelSum(g, s, |g.nodes|)
  }

  lemma LayerEmptyAfter(g: Graph, s: Node, k: nat, i: nat)
    requires Ball(g, s, k + 1) == Ball(g, s, k)
    requires k < i
    ensures |Layer(g, s, i)| == 0
  {
    BallStable(g, s, k, i);
    BallStable(g, s, k, i - 1);
    assert Layer(g, s, i) == {};
  }

  /** Once the search stops growing, later hops add nothing to the distance sum. */
  lemma LevelSumStable(g: Graph, s: Node, k: nat, j: nat)
    requires Ball(g, s, k + 1) == Ball(g, s, k)
    requires k <= j
    ensures LevelSum(g, s, j) == LevelSum(g, s, k)
  {
    forall i | k < i <= j ensures LayerSizes(g, s)(i) == 0 {
      LayerEmptyAfter(g, s, k, i);
    }
    WeightedSumZeroTail(LayerSizes(g, s), k, j);
  }

  /**
   * After the rounds up to hop k, s comes first and every node within k
   * hops is listed once, with its hop count.
   */
  predicate Explored(g: Graph, s: Node, lengths: seq<Hop>, k: nat) {
    && |lengths| > 0 && lengths[0] == Hop(s, 0)
    && DistinctNodes(lengths)
    && HopNodes(lengths) == Ball(g, s, k)
    && (forall i :: 0 <= i < |lengths| ==> IsDistance(g, s, lengths[i].node, lengths[i].dist))
  }

  lemma ExploreStart(g: Graph, s: Node)
    ensures Explored(g, s, [Hop(s, 0)], 0)
    ensures Sum(HopDistances([Hop(s, 0)])) == LevelSum(g, s, 0)
    ensures OrderedUpTo([Hop(s, 0)], 0)
  {
    var start := [Hop(s, 0)];
    assert HopDistances(start) == [0];
    assert HopNodes(start) == {s};
  }

  lemma ExploreKeys(g: Graph, s: Node, lengths: seq<Hop>, k: nat, added: seq<Hop>)
    requires HopNodes(lengths) == Ball(g, s, k)
    requires HopNodes(added) == Layer(g, s, k + 1)
    ensures HopNodes(lengths + added) == Ball(g, s, k + 1)
    ensures DistinctNodes(lengths) && DistinctNodes(added) ==> DistinctNodes(lengths + added)
  {
    HopsAppendNodes(lengths, added);
    if DistinctNodes(lengths) && DistinctNodes(added) {
      HopsAppendDistinct(lengths, added);
    }
    BallMonotone(g, s, k, k + 1);
  }

  lemma ExploreDistances(g: Graph, s: Node, lengths: seq<Hop>, k: nat, added: seq<Hop>)
    requires forall i :: 0 <= i < |lengths| ==> IsDistance(g, s, lengths[i].node, lengths[i].dist)
    requires forall i :: 0 <= i < |added| ==> added[i].node in Layer(g, s, k + 1) && added[i].dist == k + 1
    ensures forall i :: 0 <= i < |lengths + added| ==>
              IsDistance(g, s, (lengths + added)[i].node, (lengths + added)[i].dist)
  {
    var r := lengths + added;
    forall i | 0 <= i < |r| ensures IsDistance(g, s, r[i].node, r[i].dist) {
      if i < |lengths| {
        assert r[i] == lengths[i];
      } else {
        assert r[i] == added[i - |lengths|];
      }
    }
  }

  /** Appending the next layer, all at hop k + 1, completes round k + 1. */
  lemma ExploreStep(g: Graph, s: Node, lengths: seq<Hop>, k: nat, added: seq<Hop>)
    requires Explored(g, s, lengths, k)
    requires HopsAt(added, Layer(g, s, k + 1), k + 1)
    ensures Explored(g, s, lengths + added, k + 1)
  {
    ExploreKeys(g, s, lengths, k, added);
    ExploreDistances(g, s, lengths, k, added);
  }

  /** After round k every entry is at least its predecessor, and the last lies at level k at most. */
  predicate OrderedUpTo(lengths: seq<Hop>, k: nat) {
    && |lengths| > 0 && lengths[|lengths| - 1].dist <= k
    && forall i :: 0 < i < |lengths| ==> lengths[i - 1].dist <= lengths[i].dist
  }

  lemma {:induction false} OrderedPair(lengths: seq<Hop>, k: nat, i: nat, j: nat)
    requires OrderedUpTo(lengths, k) && i < j < |lengths|
    ensures lengths[i].dist <= lengths[j].dist
    decreases j - i
  {
    if i + 1 < j {
      OrderedPair(lengths, k, i, j - 1);
    }
  }

  /** Neighbouring entries in order give the whole list in level order. */
  lemma OrderedLevels(lengths: seq<Hop>, k: nat)
    requires OrderedUpTo(lengths, k)
    ensures LevelOrder(lengths)
  {
    forall i, j | 0 <= i < j < |lengths|
      ensures lengths[i].dist <= lengths[j].dist
    {
      OrderedPair(lengths, k, i, j);
    }
  }

  /** Appending a layer at hop count k + 1 after entries at most k keeps the level order. */
  lemma OrderStep(lengths: seq<Hop>, k: nat, added: seq<Hop>, layer: set<Node>)
    requires OrderedUpTo(lengths, k)
    requires HopsAt(added, layer, k + 1)
    ensures OrderedUpTo(lengths + added, k + 1)
  {
    var all := lengths + added;
    forall i | 0 < i < |all|
      ensures all[i - 1].dist <= all[i].dist
    {
      if i < |lengths| {
        assert all[i - 1] == lengths[i - 1] && all[i] == lengths[i];
      } else if i == |lengths| {
        assert all[i - 1] == lengths[|lengths| - 1] && all[i] == added[0];
      } else {
        assert all[i - 1] == added[i - 1 - |lengths|] && all[i] == added[i - |lengths|];
      }
    }
    if added == [] {
      assert all == lengths;
    } else {
      assert all[|all| - 1] == added[|added| - 1];
    }
  }

  /** The hop counts listed after round k + 1 add up to the weighted layer sum. */
  lemma TallyStep(g: Graph, s: Node, lengths: seq<Hop>, k: nat, added: seq<Hop>)
    requires Sum(HopDistances(lengths)) == LevelSum(g, s, k)
    requires Sum(HopDistances(added)) == Times(k + 1, |Layer(g, s, k + 1)|)
    ensures Sum(HopDistances(lengths + added)) == LevelSum(g, s, k + 1)
  {
    HopsAppendSum(lengths, added);
  }

  /** While the frontier is non-empty, fewer rounds than nodes have been run. */
  lemma LevelBound(g: Graph, s: Node, k: nat)
    requires Valid(g) && s in g.nodes
    requires Layer(g, s, k) != {}
    ensures k < |g.nodes|
  {
    if k > 0 {
      BallGrowth(g, s, k);
      BallInNodes(g, s, k);
      NodeSetSize(g.nodes);
      SubsetSize(Ball(g, s, k), NodeSet(g));
    }
  }

  lemma EmptyLayerStops(g: Graph, s: Node, k: nat)
    requires Layer(g, s, k + 1) == {}
    ensures Ball(g, s, k + 1) == Ball(g, s, k)
  {
    BallMonotone(g, s, k, k + 1);
  }

  /** An empty layer past hop 0 means every reachable node has been found. */
  lemma SearchReachedAll(g: Graph, s: Node, level: nat)
    requires level > 0 && Layer(g, s, level) == {}
    requires level <= |g.nodes|
    ensures Ball(g, s, level) == Reach(g, s)
  {
    var k := level - 1;
    EmptyLayerStops(g, s, k);
    BallStable(g, s, k, |g.nodes|);
  }

  /** ... and the layers counted so far carry the whole distance sum. */
  lemma SearchSumComplete(g: Graph, s: Node, level: nat)
    requires level > 0 && Layer(g, s, level) == {}
    requires level <= |g.nodes|
    ensures LevelSum(g, s, level) == DistanceSum(g, s)
  {
    var k := level - 1;
    EmptyLayerStops(g, s, k);
    LevelSumStable(g, s, k, level);
    LevelSumStable(g, s, k, |g.nodes|);
  }

  method ShortestPathLengths(g: Graph, s: Node) returns (lengths: seq<Hop>)
    requires Valid(g) && s in g.nodes
    ensures |lengths| > 0 && lengths[0] == Hop(s, 0)
    ensures DistinctNodes(lengths)
    ensures HopNodes(lengths) == Reach(g, s)
    ensures forall i :: 0 <= i < |lengths| ==> IsDistance(g, s, lengths[i].node, lengths[i].dist)
    ensures Sum(HopDistances(lengths)) == DistanceSum(g, s)
    ensures LevelOrder(lengths)
  {
    lengths := [Hop(s, 0)];
    var seen := {s};
    var frontier := {s};
    var level := 0;
    ExploreStart(g, s);
    while frontier != {}
      invariant seen == Ball(g, s, level)
      invariant frontier == Layer(g, s, level)
      invariant level <= |g.nodes|
      invariant Explored(g, s, lengths, level)
      invariant Sum(HopDistances(lengths)) == LevelSum(g, s, level)
      invariant OrderedUpTo(lengths, level)
      decreases |g.nodes| - level
    {
      LevelBound(g, s, level);
      var next := Neighbors(g, frontier) - seen;
      LayerFromFrontier(g, s, level);
      BallMonotone(g, s, level, level + 1);
      var added := LayerHops(next, level + 1);
      ExploreStep(g, s, lengths, level, added);
      TallyStep(g, s, lengths, level, added);
      OrderStep(lengths, level, added, next);
      lengths := lengths + added;
      seen := seen + next;
      frontier := next;
      level := level + 1;
    }
    SearchReachedAll(g, s, level);
    SearchSumComplete(g, s, level);
    OrderedLevels(lengths, level);
  }
}
