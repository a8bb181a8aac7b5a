/**
 * The metrics of one small network worked out in full: an undirected path
 * a - b - c - d over four distinct nodes, with the distance estimator seeded
 * from all four.
 */
module Scenarios {
  import opened Graphs
  import opened Sequences
  import opened Reachability
  import opened ShortestPaths
  import opened Degrees
  import opened Components
  import opened Distances
  import opened Summaries

  predicate DistinctFour(a: Node, b: Node, c: Node, d: Node) {
    a != b && a != c && a != d && b != c && b != d && c != d
  }

  /** The undirected path a - b - c - d; `PathLoaded` shows `load_edgelist` builds it from three rows. */
  function Path(a: Node, b: Node, c: Node, d: Node): Graph {
    Graph(false, [a, b, c, d], [Edge(a, b), Edge(b, c), Edge(c, d)])
  }

  lemma PathValid(a: Node, b: Node, c: Node, d: Node)
    requires DistinctFour(a, b, c, d)
    ensures Valid(Path(a, b, c, d)) && NodeSet(Path(a, b, c, d)) == {a, b, c, d}
    ensures |{a, b, c, d}| == 4
  {
  }

  lemma PathRowsNodes(a: Node, b: Node, c: Node, d: Node)
    requires DistinctFour(a, b, c, d)
    ensures NodesFrom([Edge(a, b), Edge(b, c), Edge(c, d)]) == [a, b, c, d]
  {
    var rows := [Edge(a, b), Edge(b, c), Edge(c, d)];
    assert rows[..2] == [Edge(a, b), Edge(b, c)] && rows[..2][..1] == [Edge(a, b)] && rows[..2][..1][..0] == [];
    assert NodesFrom(rows[..2][..1]) == [a, b];
    assert NodesFrom(rows[..2]) == [a, b, c];
  }

  lemma PathRowsEdges(a: Node, b: Node, c: Node, d: Node)
    requires DistinctFour(a, b, c, d)
    ensures EdgesFrom([Edge(a, b), Edge(b, c), Edge(c, d)], false) == [Edge(a, b), Edge(b, c), Edge(c, d)]
  {
    var rows := [Edge(a, b), Edge(b, c), Edge(c, d)];
    assert rows[..2] == [Edge(a, b), Edge(b, c)] && rows[..2][..1] == [Edge(a, b)] && rows[..2][..1][..0] == [];
    assert EdgesFrom(rows[..2][..1], false) == [Edge(a, b)];
    assert EdgesFrom(rows[..2], false) == [Edge(a, b), Edge(b, c)];
  }

  /** Loading the rows (a, b), (b, c), (c, d) into an undirected graph gives the path. */
  lemma PathLoaded(a: Node, b: Node, c: Node, d: Node)
    requires DistinctFour(a, b, c, d)
    ensures Path(a, b, c, d) == FromEdgeList([Edge(a, b), Edge(b, c), Edge(c, d)], false)
  {
    PathRowsNodes(a, b, c, d);
    PathRowsEdges(a, b, c, d);
  }

  /** The neighbours of a set of nodes, edge by edge. */
  lemma PathNeighbors(a: Node, b: Node, c: Node, d: Node, S: set<Node>)
    ensures Neighbors(Path(a, b, c, d), S) ==
              (if a in S then {b} else {}) + (if b in S then {a, c} else {}) +
              (if c in S then {b, d} else {}) + (if d in S then {c} else {})
  {
    var e := Path(a, b, c, d).edges;
    assert e[1..] == [Edge(b, c), Edge(c, d)] && e[1..][1..] == [Edge(c, d)] && e[1..][1..][1..] == [];
    assert NeighborsIn(e[1..][1..][1..], S) == {};
    var n3 := NeighborsIn(e[1..][1..], S);
    assert n3 == (if c in S then {d} else {}) + (if d in S then {c} else {}) + NeighborsIn(e[1..][1..][1..], S);
    assert n3 == (if c in S then {d} else {}) + (if d in S then {c} else {});
    var n2 := NeighborsIn(e[1..], S);
    assert n2 == (if b in S then {c} else {}) + (if c in S then {b} else {}) + n3;
    assert NeighborsIn(e, S) == (if a in S then {b} else {}) + (if b in S then {a} else {}) + n2;
  }

  /** The distance sum of a search over four nodes, from its balls. */
  lemma DistanceSumOfBalls(g: Graph, s: Node, b1: set<Node>, b2: set<Node>, b3: set<Node>, b4: set<Node>)
    requires |g.nodes| == 4
    requires Ball(g, s, 1) == b1 && Ball(g, s, 2) == b2 && Ball(g, s, 3) == b3 && Ball(g, s, 4) == b4
    ensures DistanceSum(g, s) == |b1 - {s}| + 2 * |b2 - b1| + 3 * |b3 - b2| + 4 * |b4 - b3|
  {
    var sizes := LayerSizes(g, s);
    TimesIsProduct(1, |b1 - {s}|);
    TimesIsProduct(2, |b2 - b1|);
    TimesIsProduct(3, |b3 - b2|);
    TimesIsProduct(4, |b4 - b3|);
    assert WeightedSum(sizes, 1) == |b1 - {s}|;
    assert WeightedSum(sizes, 2) == |b1 - {s}| + 2 * |b2 - b1|;
    assert WeightedSum(sizes, 3) == |b1 - {s}| + 2 * |b2 - b1| + 3 * |b3 - b2|;
  }

  /** Layer sizes 1, 1, 1 seen from an end node x of the path x - y - z - w. */
  lemma EndLayers(x: Node, y: Node, z: Node, w: Node)
    requires DistinctFour(x, y, z, w)
    ensures |{x, y} - {x}| + 2 * |{x, y, z} - {x, y}| + 3 * |{x, y, z, w} - {x, y, z}| +
            4 * |{x, y, z, w} - {x, y, z, w}| == 6
  {
    assert {x, y} - {x} == {y} && {x, y, z} - {x, y} == {z} && {x, y, z, w} - {x, y, z} == {w};
    assert {x, y, z, w} - {x, y, z, w} == {};
  }

  /** Layer sizes 2, 1 seen from x, the inner node of l - x - r - w next to l. */
  lemma InnerLayers(l: Node, x: Node, r: Node, w: Node)
    requires DistinctFour(l, x, r, w)
    ensures |{l, x, r} - {x}| + 2 * |{l, x, r, w} - {l, x, r}| +
            3 * |{l, x, r, w} - {l, x, r, w}| + 4 * |{l, x, r, w} - {l, x, r, w}| == 4
  {
    assert {l, x, r} - {x} == {l, r} && {l, x, r, w} - {l, x, r} == {w};
    assert {l, x, r, w} - {l, x, r, w} == {};
  }

  lemma BallsFromA(a: Node, b: Node, c: Node, d: Node)
    requires DistinctFour(a, b, c, d)
    ensures Ball(Path(a, b, c, d), a, 1) == {a, b}
    ensures Ball(Path(a, b, c, d), a, 2) == {a, b, c}
    ensures Ball(Path(a, b, c, d), a, 3) == {a, b, c, d}
    ensures Ball(Path(a, b, c, d), a, 4) == {a, b, c, d}
  {
    PathNeighbors(a, b, c, d, {a});
    PathNeighbors(a, b, c, d, {a, b});
    PathNeighbors(a, b, c, d, {a, b, c});
    PathNeighbors(a, b, c, d, {a, b, c, d});
  }

  lemma BallsFromB(a: Node, b: Node, c: Node, d: Node)
    requires DistinctFour(a, b, c, d)
    ensures Ball(Path(a, b, c, d), b, 1) == {a, b, c}
    ensures Ball(Path(a, b, c, d), b, 2) == {a, b, c, d}
    ensures Ball(Path(a, b, c, d), b, 3) == {a, b, c, d}
    ensures Ball(Path(a, b, c, d), b, 4) == {a, b, c, d}
  {
    PathNeighbors(a, b, c, d, {b});
    PathNeighbors(a, b, c, d, {a, b, c});
    PathNeighbors(a, b, c, d, {a, b, c, d});
  }

  lemma BallsFromC(a: Node, b: Node, c: Node, d: Node)
    requires DistinctFour(a, b, c, d)
    ensures Ball(Path(a, b, c, d), c, 1) == {d, c, b}
    ensures Ball(Path(a, b, c, d), c, 2) == {d, c, b, a}
    ensures Ball(Path(a, b, c, d), c, 3) == {d, c, b, a}
    ensures Ball(Path(a, b, c, d), c, 4) == {d, c, b, a}
  {
    PathNeighbors(a, b, c, d, {c});
    PathNeighbors(a, b, c, d, {d, c, b});
    PathNeighbors(a, b, c, d, {d, c, b, a});
  }

  lemma BallsFromD(a: Node, b: Node, c: Node, d: Node)
    requires DistinctFour(a, b, c, d)
    ensures Ball(Path(a, b, c, d), d, 1) == {d, c}
    ensures Ball(Path(a, b, c, d), d, 2) == {d, c, b}
    ensures Ball(Path(a, b, c, d), d, 3) == {d, c, b, a}
    ensures Ball(Path(a, b, c, d), d, 4) == {d, c, b, a}
  {
    PathNeighbors(a, b, c, d, {d});
    PathNeighbors(a, b, c, d, {d, c});
    PathNeighbors(a, b, c, d, {d, c, b});
    PathNeighbors(a, b, c, d, {d, c, b, a});
  }

  /** From an end node the hop counts are 0, 1, 2, 3. */
  lemma FromEnd(a: Node, b: Node, c: Node, d: Node)
    requires DistinctFour(a, b, c, d)
    ensures Reach(Path(a, b, c, d), a) == {a, b, c, d}
    ensures DistanceSum(Path(a, b, c, d), a) == 6
  {
    BallsFromA(a, b, c, d);
    EndLayers(a, b, c, d);
    DistanceSumOfBalls(Path(a, b, c, d), a, {a, b}, {a, b, c}, {a, b, c, d}, {a, b, c, d});
  }

  /** From an inner node they are 0, 1, 1, 2. */
  lemma FromInner(a: Node, b: Node, c: Node, d: Node)
    requires DistinctFour(a, b, c, d)
    ensures Reach(Path(a, b, c, d), b) == {a, b, c, d}
    ensures DistanceSum(Path(a, b, c, d), b) == 4
  {
    BallsFromB(a, b, c, d);
    InnerLayers(a, b, c, d);
    DistanceSumOfBalls(Path(a, b, c, d), b, {a, b, c}, {a, b, c, d}, {a, b, c, d}, {a, b, c, d});
  }

  lemma FromOtherInner(a: Node, b: Node, c: Node, d: Node)
    requires DistinctFour(a, b, c, d)
    ensures Reach(Path(a, b, c, d), c) == {a, b, c, d}
    ensures DistanceSum(Path(a, b, c, d), c) == 4
  {
    BallsFromC(a, b, c, d);
    InnerLayers(d, c, b, a);
    DistanceSumOfBalls(Path(a, b, c, d), c, {d, c, b}, {d, c, b, a}, {d, c, b, a}, {d, c, b, a});
  }

  lemma FromOtherEnd(a: Node, b: Node, c: Node, d: Node)
    requires DistinctFour(a, b, c, d)
    ensures Reach(Path(a, b, c, d), d) == {a, b, c, d}
    ensures DistanceSum(Path(a, b, c, d), d) == 6
  {
    BallsFromD(a, b, c, d);
    EndLayers(d, c, b, a);
    DistanceSumOfBalls(Path(a, b, c, d), d, {d, c}, {d, c, b}, {d, c, b, a}, {d, c, b, a});
  }

  // ---------------------------------------------------------------------
  // Connected graphs
  // ---------------------------------------------------------------------

  lemma {:induction false} NothingLeft(g: Graph, todo: seq<Node>, seen: set<Node>)
    requires forall i :: 0 <= i < |todo| ==> todo[i] in seen
    ensures ComponentsFrom(g, todo, seen) == []
    decreases |todo|
  {
    if todo != [] {
      NothingLeft(g, todo[1..], seen);
    }
  }

  lemma {:induction false} KeepAllNodes(nodes: seq<Node>, keep: set<Node>)
    requires forall i :: 0 <= i < |nodes| ==> nodes[i] in keep
    ensures KeepNodes(nodes, keep) == nodes
    decreases |nodes|
  {
    if nodes != [] {
      KeepAllNodes(nodes[1..], keep);
    }
  }

  lemma {:induction false} KeepAllEdges(edges: seq<Edge>, keep: set<Node>)
    requires forall i :: 0 <= i < |edges| ==> edges[i].src in keep && edges[i].dst in keep
    ensures KeepEdges(edges, keep) == edges
    decreases |edges|
  {
    if edges != [] {
      KeepAllEdges(edges[1..], keep);
    }
  }

  /** g is undirected, not empty, and its first node reaches every node. */
  predicate Connected(g: Graph) {
    Valid(g) && !g.directed && |g.nodes| > 0 && Reach(g, g.nodes[0]) == NodeSet(g)
  }

  /**
   * In a connected undirected graph the single component is every node, and
   * the estimator searches the whole graph.
   */
  lemma ConnectedGraph(g: Graph)
    requires Connected(g)
    ensures ComponentList(g) == [NodeSet(g)]
    ensures Giant(g) == NodeSet(g)
    ensures GiantGraph(g) == g
  {
    var all := NodeSet(g);
    NothingLeft(g, g.nodes[1..], all);
    assert ComponentList(g) == [all] + ComponentsFrom(g, g.nodes[1..], {} + all);
    assert Largest([all]) == all;
    KeepAllNodes(g.nodes, all);
    KeepAllEdges(g.edges, all);
  }

  /** One seed that reaches more than itself adds its reach and its distance sum. */
  lemma SeedStep(h: Graph, seeds: seq<Node>, c: set<Node>, d: nat)
    requires |seeds| > 0 && |c| > 1
    requires Reach(h, seeds[|seeds| - 1]) == c && DistanceSum(h, seeds[|seeds| - 1]) == d
    ensures SeedTally(h, seeds).total == SeedTally(h, seeds[..|seeds| - 1]).total + d
    ensures SeedTally(h, seeds).count == SeedTally(h, seeds[..|seeds| - 1]).count + |c|
  {
  }

  /** Four seeds that each reach the same set of more than one node. */
  lemma TallyOfFour(h: Graph, seeds: seq<Node>, c: set<Node>, d0: nat, d1: nat, d2: nat, d3: nat)
    requires |seeds| == 4 && |c| > 1
    requires Reach(h, seeds[0]) == c && Reach(h, seeds[1]) == c
    requires Reach(h, seeds[2]) == c && Reach(h, seeds[3]) == c
    requires DistanceSum(h, seeds[0]) == d0 && DistanceSum(h, seeds[1]) == d1
    requires DistanceSum(h, seeds[2]) == d2 && DistanceSum(h, seeds[3]) == d3
    ensures SeedTally(h, seeds) == Tally(d0 + d1 + d2 + d3, 4 * |c|)
  {
    var p1, p2, p3 := seeds[..1], seeds[..2], seeds[..3];
    assert p1[..0] == [] && p2[..1] == p1 && p3[..2] == p2 && seeds[..3] == p3;
    assert SeedTally(h, []) == Tally(0, 0);
    SeedStep(h, p1, c, d0);
    SeedStep(h, p2, c, d1);
    SeedStep(h, p3, c, d2);
    SeedStep(h, seeds, c, d3);
  }

  /** Seeds drawn from a connected graph are drawn from its giant component. */
  lemma ConnectedSeeds(g: Graph, nodesSample: nat, seeds: seq<Node>)
    requires Connected(g)
    requires Distinct(seeds) && (forall i :: 0 <= i < |seeds| ==> seeds[i] in NodeSet(g))
    requires |seeds| == Min(nodesSample, |g.nodes|)
    ensures ValidSeeds(g, nodesSample, seeds)
  {
    ConnectedGraph(g);
    DistinctNodeSetSize(g.nodes);
  }

  /** A connected graph's tally over four seeds, each reaching every node. */
  lemma ConnectedTally(g: Graph, seeds: seq<Node>, d0: nat, d1: nat, d2: nat, d3: nat)
    requires Connected(g) && |g.nodes| > 1
    requires |seeds| == 4
    requires Reach(g, seeds[0]) == NodeSet(g) && Reach(g, seeds[1]) == NodeSet(g)
    requires Reach(g, seeds[2]) == NodeSet(g) && Reach(g, seeds[3]) == NodeSet(g)
    requires DistanceSum(g, seeds[0]) == d0 && DistanceSum(g, seeds[1]) == d1
    requires DistanceSum(g, seeds[2]) == d2 && DistanceSum(g, seeds[3]) == d3
    ensures SeedTally(GiantGraph(g), seeds) == Tally(d0 + d1 + d2 + d3, 4 * |g.nodes|)
  {
    ConnectedGraph(g);
    DistinctNodeSetSize(g.nodes);
    TallyOfFour(g, seeds, NodeSet(g), d0, d1, d2, d3);
  }

  /** A connected graph is all one component. */
  lemma ConnectedFraction(g: Graph)
    requires Connected(g)
    ensures Ratio(|Largest(ComponentList(g))|, |g.nodes|) == 1.0
  {
    ConnectedGraph(g);
    DistinctNodeSetSize(g.nodes);
    RatioSelf(|g.nodes|);
  }

  lemma RatioSelf(k: nat)
    requires k > 0
    ensures Ratio(k, k) == 1.0
  {
    var x := k as real;
    assert x != 0.0;
    assert Ratio(k, k) == x / x;
  }

  // ---------------------------------------------------------------------
  // The path's columns
  // ---------------------------------------------------------------------

  lemma PathConnected(a: Node, b: Node, c: Node, d: Node)
    requires DistinctFour(a, b, c, d)
    ensures Connected(Path(a, b, c, d)) && |Path(a, b, c, d).nodes| == 4
  {
    PathValid(a, b, c, d);
    FromEnd(a, b, c, d);
  }

  /**
   * Seeded from every node the estimator averages 20 over 16 hop counts,
   * 1.25: each seed's own 0 is among the averaged values. The mean over
   * pairs of distinct nodes would be 20 / 12.
   */
  lemma PathAverageDistance(a: Node, b: Node, c: Node, d: Node)
    requires DistinctFour(a, b, c, d)
    ensures ValidSeeds(Path(a, b, c, d), DistanceSample, [a, b, c, d])
    ensures AverageDistance(Path(a, b, c, d), [a, b, c, d]) == Mean(1.25)
  {
    var g := Path(a, b, c, d);
    PathValid(a, b, c, d);
    PathConnected(a, b, c, d);
    ConnectedSeeds(g, DistanceSample, [a, b, c, d]);
    FromEnd(a, b, c, d);
    FromInner(a, b, c, d);
    FromOtherInner(a, b, c, d);
    FromOtherEnd(a, b, c, d);
    ConnectedTally(g, [a, b, c, d], 6, 4, 4, 6);
    assert AverageDistance(g, [a, b, c, d]) == Mean(Ratio(20, 16));
  }

  /** Density 2m / (n (n - 1)) = 6 / 12. */
  lemma PathDensity(a: Node, b: Node, c: Node, d: Node)
    ensures Density(Path(a, b, c, d)) == 0.5
  {
  }

  /** Mean degree 2m / n = 6 / 4. */
  lemma PathMeanDegree(a: Node, b: Node, c: Node, d: Node)
    ensures MeanDegreeOf(Path(a, b, c, d)) == Success(UndirectedMean(1.5))
  {
  }

  /** One component holding every node. */
  lemma PathLargestFraction(a: Node, b: Node, c: Node, d: Node)
    requires DistinctFour(a, b, c, d)
    ensures Ratio(|Largest(ComponentList(Path(a, b, c, d)))|, |Path(a, b, c, d).nodes|) == 1.0
  {
    PathConnected(a, b, c, d);
    ConnectedFraction(Path(a, b, c, d));
  }
}
