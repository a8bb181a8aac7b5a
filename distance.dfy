/**
 * `estimate_average_distance`: the mean of the hop counts found by
 * breadth-first searches from sampled seeds inside the largest connected
 * component of the undirected projection.
 *
 * The seeds `random.sample` would draw are a parameter: any k distinct nodes
 * of the giant component, k = min(nodes_sample, size of the giant).
 */
module Distances {
  import opened Graphs
  import opened Sequences
  import opened Reachability
  import opened Hops
  import opened ShortestPaths
  import opened Components

  // ---------------------------------------------------------------------
  // H.subgraph(nodes).copy()
  // ---------------------------------------------------------------------

  /** The nodes that lie in keep, in node order. */
  function KeepNodes(nodes: seq<Node>, keep: set<Node>): (r: seq<Node>)
    ensures forall v :: v in r <==> v in nodes && v in keep
    decreases |nodes|
  {
    if nodes == [] then []
    else (if nodes[0] in keep then [nodes[0]] else []) + KeepNodes(nodes[1..], keep)
  }

  /** The edges with both ends in keep, in edge order. */
  function KeepEdges(edges: seq<Edge>, keep: set<Node>): (r: seq<Edge>)
    ensures forall e :: e in r <==> e in edges && e.src in keep && e.dst in keep
    decreases |edges|
  {
    if edges == [] then []
    else (if edges[0].src in keep && edges[0].dst in keep then [edges[0]] else []) + KeepEdges(edges[1..], keep)
  }

  /** The subgraph induced by keep: its nodes and every edge between two of them. */
  function Subgraph(g: Graph, keep: set<Node>): Graph {
    Graph(g.directed, KeepNodes(g.nodes, keep), KeepEdges(g.edges, keep))
  }

  lemma {:induction false} KeepNodesDistinct(nodes: seq<Node>, keep: set<Node>)
    requires Distinct(nodes)
    ensures Distinct(KeepNodes(nodes, keep))
    decreases |nodes|
  {
    if nodes != [] {
      var rest := nodes[1..];
      assert Distinct(rest) by {
        forall i, j | 0 <= i < j < |rest| ensures rest[i] != rest[j] {
          assert rest[i] == nodes[i + 1] && rest[j] == nodes[j + 1];
        }
      }
      KeepNodesDistinct(rest, keep);
      assert nodes[0] !in rest by {
        forall j | 0 <= j < |rest| ensures rest[j] != nodes[0] {
          assert rest[j] == nodes[j + 1];
        }
      }
    }
  }

  /** A list without repeats: its tail has none, and its head repeats nothing in the tail. */
  lemma NoDuplicatesTail(e: Edge, rest: seq<Edge>, directed: bool)
    requires NoDuplicates([e] + rest, directed)
    ensures NoDuplicates(rest, directed)
    ensures forall x :: x in rest ==> !SameEdge(e, x, directed)
  {
    var r := [e] + rest;
    forall i, j | 0 <= i < j < |rest| ensures !SameEdge(rest[i], rest[j], directed) {
      assert rest[i] == r[i + 1] && rest[j] == r[j + 1];
    }
    forall x | x in rest ensures !SameEdge(e, x, directed) {
      var k :| 0 <= k < |rest| && rest[k] == x;
      assert r[0] == e && r[k + 1] == x;
      assert !SameEdge(r[0], r[k + 1], directed);
    }
  }

  lemma NoDuplicatesCons(e: Edge, rest: seq<Edge>, directed: bool)
    requires NoDuplicates(rest, directed)
    requires forall x :: x in rest ==> !SameEdge(e, x, directed)
    ensures NoDuplicates([e] + rest, directed)
  {
    var r := [e] + rest;
    forall i, j | 0 <= i < j < |r| ensures !SameEdge(r[i], r[j], directed) {
      assert r[j] == rest[j - 1];
      if i > 0 {
        assert r[i] == rest[i - 1];
      }
    }
  }

  lemma {:induction false} KeepEdgesNoDuplicates(edges: seq<Edge>, directed: bool, keep: set<Node>)
    requires NoDuplicates(edges, directed)
    ensures NoDuplicates(KeepEdges(edges, keep), directed)
    decreases |edges|
  {
    if edges != [] {
      var rest := edges[1..];
      assert edges == [edges[0]] + rest;
      NoDuplicatesTail(edges[0], rest, directed);
      KeepEdgesNoDuplicates(rest, directed, keep);
      if edges[0].src in keep && edges[0].dst in keep {
        NoDuplicatesCons(edges[0], KeepEdges(rest, keep), directed);
      }
    }
  }

  lemma SubgraphValid(g: Graph, keep: set<Node>)
    requires Valid(g)
    ensures Valid(Subgraph(g, keep))
    ensures NodeSet(Subgraph(g, keep)) == NodeSet(g) * keep
  {
    KeepNodesDistinct(g.nodes, keep);
    KeepEdgesNoDuplicates(g.edges, g.directed, keep);
  }

  /** No edge has exactly one end in keep. */
  predicate EdgeClosed(g: Graph, keep: set<Node>) {
    forall e :: e in g.edges ==> (e.src in keep <==> e.dst in keep)
  }

  /** Inside an edge-closed set the subgraph has the same neighbours. */
  lemma SubgraphNeighbors(g: Graph, keep: set<Node>, S: set<Node>)
    requires S <= keep && EdgeClosed(g, keep)
    ensures Neighbors(Subgraph(g, keep), S) == Neighbors(g, S)
    ensures Neighbors(g, S) <= keep
  {
    var h := Subgraph(g, keep);
    forall w ensures w in Neighbors(h, S) <==> w in Neighbors(g, S) {
      NeighborsAdjacent(h, S, w);
      NeighborsAdjacent(g, S, w);
      if w in Neighbors(g, S) {
        var y :| y in S && Adjacent(g, y, w);
        assert Adjacent(h, y, w);
      }
    }
    forall w | w in Neighbors(g, S) ensures w in keep {
      NeighborsAdjacent(g, S, w);
    }
  }

  lemma {:induction false} SubgraphBall(g: Graph, keep: set<Node>, s: Node, k: nat)
    requires s in keep && EdgeClosed(g, keep)
    ensures Ball(Subgraph(g, keep), s, k) == Ball(g, s, k)
    ensures Ball(g, s, k) <= keep
    decreases k
  {
    if k > 0 {
      SubgraphBall(g, keep, s, k - 1);
      SubgraphNeighbors(g, keep, Ball(g, s, k - 1));
    }
  }

  /**
   * Searching the subgraph of a component from one of its nodes reaches the
   * whole component, and every hop count agrees with the one in the full
   * graph.
   */
  lemma SubgraphReach(g: Graph, c: set<Node>, s: Node)
    requires Valid(g) && IsComponent(g, c) && s in c
    ensures Valid(Subgraph(g, c)) && s in Subgraph(g, c).nodes
    ensures Reach(Subgraph(g, c), s) == c
    ensures forall d: nat :: Layer(Subgraph(g, c), s, d) == Layer(g, s, d)
  {
    var h := Subgraph(g, c);
    SubgraphValid(g, c);
    assert EdgeClosed(g, c) by {
      forall e | e in g.edges ensures e.src in c <==> e.dst in c {
        ComponentsClosed(g, c, e);
      }
    }
    forall d: nat ensures Layer(h, s, d) == Layer(g, s, d) {
      SubgraphBall(g, c, s, d);
      if d > 0 {
        SubgraphBall(g, c, s, d - 1);
      }
    }
    var n := |g.nodes|;
    SubgraphBall(g, c, s, n);
    assert |h.nodes| <= n by {
      DistinctNodeSetSize(h.nodes);
      DistinctNodeSetSize(g.nodes);
      SubsetSize(NodeSet(h), NodeSet(g));
    }
    ReachIsLargeBall(h, s, n);
  }

  // ---------------------------------------------------------------------
  // The giant component and the seeds
  // ---------------------------------------------------------------------

  /** `max(nx.connected_components(H), key=len)` on the undirected projection. */
  function Giant(g: Graph): set<Node> {
    var cs := ComponentList(Projection(g));
    if cs == [] then {} else Largest(cs)
  }

  /** The copy of the giant component's subgraph the searches run on. */
  function GiantGraph(g: Graph): Graph {
    Subgraph(Projection(g), Giant(g))
  }

  /** The projection joins exactly the pairs g joins, in one direction or the other. */
  lemma ProjectionNeighbors(g: Graph, S: set<Node>)
    requires Valid(g)
    ensures Neighbors(Projection(g), S) == Neighbors(g, S)
  {
    ProjectionValid(g);
    forall w ensures w in Neighbors(Projection(g), S) <==> w in Neighbors(g, S) {
      NeighborsAdjacent(Projection(g), S, w);
      NeighborsAdjacent(g, S, w);
      assert forall y :: Adjacent(Projection(g), y, w) <==> HasEdge(Projection(g).edges, false, y, w);
      assert forall y :: Adjacent(g, y, w) <==> HasEdge(g.edges, false, y, w);
    }
  }

  lemma {:induction false} ProjectionBall(g: Graph, s: Node, k: nat)
    requires Valid(g)
    ensures Ball(Projection(g), s, k) == Ball(g, s, k)
    decreases k
  {
    if k > 0 {
      ProjectionBall(g, s, k - 1);
      ProjectionNeighbors(g, Ball(g, s, k - 1));
    }
  }

  lemma {:induction false} ProjectionComponentsFrom(g: Graph, todo: seq<Node>, seen: set<Node>)
    requires Valid(g)
    ensures ComponentsFrom(Projection(g), todo, seen) == ComponentsFrom(g, todo, seen)
    decreases |todo|
  {
    if todo != [] {
      ProjectionBall(g, todo[0], |g.nodes|);
      ProjectionComponentsFrom(g, todo[1..], seen);
      ProjectionComponentsFrom(g, todo[1..], seen + Reach(g, todo[0]));
    }
  }

  /**
   * The weakly connected components of g are the connected components of its
   * projection, so the estimator's giant is the component
   * `biggest_component_fraction` reports.
   */
  lemma GiantIsLargest(g: Graph)
    requires Valid(g)
    ensures ComponentList(Projection(g)) == ComponentList(g)
    ensures |g.nodes| > 0 ==> Giant(g) == Largest(ComponentList(g))
  {
    ProjectionValid(g);
    ProjectionComponentsFrom(g, g.nodes, {});
  }

  /** What `sample(list(H.nodes()), min(nodes_sample, n))` can return. */
  predicate ValidSeeds(g: Graph, nodesSample: nat, seeds: seq<Node>) {
    && Distinct(seeds)
    && (forall i :: 0 <= i < |seeds| ==> seeds[i] in Giant(g))
    && |seeds| == Min(nodesSample, |Giant(g)|)
  }

  /** The subgraph of a component keeps exactly its nodes, once each. */
  lemma ComponentSubgraph(h: Graph, c: set<Node>)
    requires Valid(h) && IsComponent(h, c)
    ensures Valid(Subgraph(h, c)) && NodeSet(Subgraph(h, c)) == c
    ensures |Subgraph(h, c).nodes| == |c|
  {
    SubgraphValid(h, c);
    assert c <= NodeSet(h) by {
      forall u | u in c ensures u in NodeSet(h) { }
    }
    DistinctNodeSetSize(Subgraph(h, c).nodes);
  }

  /** The giant is a component of the projection, with at least one node when the graph has any. */
  lemma GiantIsComponent(g: Graph)
    requires Valid(g) && |g.nodes| > 0
    ensures IsComponent(Projection(g), Giant(g))
    ensures 0 < |Giant(g)| <= |g.nodes|
  {
    var h := Projection(g);
    ProjectionValid(g);
    LargestFraction(h);
    ComponentsEmpty(h);
  }

  lemma GiantFacts(g: Graph)
    requires Valid(g) && |g.nodes| > 0
    ensures IsComponent(Projection(g), Giant(g))
    ensures 0 < |Giant(g)| <= |g.nodes|
    ensures Valid(GiantGraph(g)) && NodeSet(GiantGraph(g)) == Giant(g)
    ensures |GiantGraph(g).nodes| == |Giant(g)|
  {
    GiantIsComponent(g);
    ProjectionValid(g);
    ComponentSubgraph(Projection(g), Giant(g));
  }

  /** Every seed's search covers the whole giant component. */
  lemma SeedsReachGiant(g: Graph, nodesSample: nat, seeds: seq<Node>)
    requires Valid(g) && |g.nodes| > 0 && ValidSeeds(g, nodesSample, seeds)
    ensures Valid(GiantGraph(g))
    ensures forall i :: 0 <= i < |seeds| ==> seeds[i] in GiantGraph(g).nodes
    ensures forall i :: 0 <= i < |seeds| ==> Reach(GiantGraph(g), seeds[i]) == Giant(g)
  {
    GiantFacts(g);
    ProjectionValid(g);
    forall i | 0 <= i < |seeds| ensures Reach(GiantGraph(g), seeds[i]) == Giant(g) {
      SubgraphReach(Projection(g), Giant(g), seeds[i]);
    }
  }

  // ---------------------------------------------------------------------
  // What the searches collect
  // ---------------------------------------------------------------------

  /** The number of hop counts collected and their sum. */
  datatype Tally = Tally(total: nat, count: nat)

  /**
   * A seed whose search finds more than itself adds one hop count per
   * reachable node, summing to its distance sum; a seed that reaches only
   * itself adds nothing.
   */
  function SeedTally(h: Graph, seeds: seq<Node>): Tally
    decreases |seeds|
  {
    if seeds == [] then Tally(0, 0)
    else
      var t := SeedTally(h, seeds[..|seeds| - 1]);
      var s := seeds[|seeds| - 1];
      if |Reach(h, s)| > 1 then Tally(t.total + DistanceSum(h, s), t.count + |Reach(h, s)|) else t
  }

  /** `np.nan`, or `float(np.mean(dists))`. */
  datatype Estimate = Undefined | Mean(value: real)

  function AverageDistance(g: Graph, seeds: seq<Node>): Estimate {
    var t := SeedTally(GiantGraph(g), seeds);
    if t.count == 0 then Undefined else Mean(Ratio(t.total, t.count))
  }

  lemma {:induction false} DistinctAt(lengths: seq<Hop>, i: nat, j: nat)
    requires DistinctNodes(lengths) && i < j < |lengths|
    ensures lengths[i].node != lengths[j].node
    decreases |lengths|
  {
    var init := lengths[..|lengths| - 1];
    if j < |lengths| - 1 {
      DistinctAt(init, i, j);
    } else {
      HopMembers(init);
      assert init[i] == lengths[i];
    }
  }

  lemma {:induction false} SumAtLeast(s: seq<nat>, i: nat)
    requires i < |s|
    ensures Sum(s) >= s[i]
    decreases |s|
  {
    if i > 0 {
      SumAtLeast(s[1..], i - 1);
    }
  }

  lemma {:induction false} SumAtMost(s: seq<nat>, m: nat)
    requires forall i :: 0 <= i < |s| ==> s[i] <= m
    ensures Sum(s) <= Times(m, |s|)
    decreases |s|
  {
    if s != [] {
      SumAtMost(s[1..], m);
      TimesAddsRow(m, |s| - 1);
    }
  }

  lemma TimesAddsRow(a: nat, b: nat)
    ensures Times(a, b + 1) == Times(a, b) + a
  {
  }

  lemma {:induction false} TimesIsProduct(a: nat, b: nat)
    ensures Times(a, b) == a * b
    decreases b
  {
    if b > 0 {
      TimesIsProduct(a, b - 1);
    }
  }

  /** A search that finds more than its seed lists some node at a positive hop count. */
  lemma SearchSumPositive(h: Graph, s: Node, lengths: seq<Hop>)
    requires |lengths| > 1 && lengths[0] == Hop(s, 0) && DistinctNodes(lengths)
    requires forall i :: 0 <= i < |lengths| ==> IsDistance(h, s, lengths[i].node, lengths[i].dist)
    ensures Sum(HopDistances(lengths)) > 0
  {
    DistinctAt(lengths, 0, 1);
    assert IsDistance(h, s, lengths[1].node, lengths[1].dist);
    SumAtLeast(HopDistances(lengths), 1);
  }

  /** Every hop count a search lists lies in [0, n - 1]. */
  lemma SearchDistancesBounded(h: Graph, s: Node, lengths: seq<Hop>)
    requires Valid(h) && s in h.nodes
    requires forall i :: 0 <= i < |lengths| ==> IsDistance(h, s, lengths[i].node, lengths[i].dist)
    ensures forall i :: 0 <= i < |HopDistances(lengths)| ==> HopDistances(lengths)[i] < |h.nodes|
  {
    forall i | 0 <= i < |lengths| ensures lengths[i].dist < |h.nodes| {
      DistanceBound(h, s, lengths[i].node, lengths[i].dist);
    }
  }

  lemma CollectStep(h: Graph, seeds: seq<Node>, i: nat, dists: seq<nat>, found: seq<nat>)
    requires i < |seeds|
    requires |dists| == SeedTally(h, seeds[..i]).count && Sum(dists) == SeedTally(h, seeds[..i]).total
    requires |found| == |Reach(h, seeds[i])| && Sum(found) == DistanceSum(h, seeds[i])
    ensures |found| > 1 ==>
              |dists + found| == SeedTally(h, seeds[..i + 1]).count &&
              Sum(dists + found) == SeedTally(h, seeds[..i + 1]).total
    ensures |found| <= 1 ==>
              |dists| == SeedTally(h, seeds[..i + 1]).count &&
              Sum(dists) == SeedTally(h, seeds[..i + 1]).total
  {
    assert seeds[..i + 1][..i] == seeds[..i];
    SumAppend(dists, found);
  }

  /**
   * `lengths` is what `nx.single_source_shortest_path_length(h, s)` returns:
   * the seed first at 0, then one entry per other reachable node, each at its
   * shortest hop count, level by level.
   */
  predicate Searched(h: Graph, s: Node, lengths: seq<Hop>) {
    && |lengths| > 0 && lengths[0] == Hop(s, 0)
    && DistinctNodes(lengths)
    && HopNodes(lengths) == Reach(h, s)
    && (forall i :: 0 <= i < |lengths| ==> IsDistance(h, s, lengths[i].node, lengths[i].dist))
    && LevelOrder(lengths)
  }

  /**
   * `lengths.values()` for one seed, with the search it came from: one hop
   * count per reachable node, adding up to the seed's distance sum, each in
   * [0, n - 1], and not all zero when the search found more than the seed.
   */
  method HopCounts(h: Graph, s: Node) returns (found: seq<nat>, lengths: seq<Hop>)
    requires Valid(h) && s in h.nodes
    ensures Searched(h, s, lengths) && found == HopDistances(lengths)
    ensures |found| == |Reach(h, s)| && Sum(found) == DistanceSum(h, s)
    ensures forall i :: 0 <= i < |found| ==> found[i] < |h.nodes|
    ensures |found| > 1 ==> Sum(found) > 0
  {
    lengths := ShortestPathLengths(h, s);
    HopCount(lengths);
    SearchDistancesBounded(h, s, lengths);
    if |lengths| > 1 {
      SearchSumPositive(h, s, lengths);
    }
    found := HopDistances(lengths);
  }

  /**
   * The values `dists.extend` collects from a run of searches, in order: all
   * hop counts of each search that found more than its seed.
   */
  function Collected(searches: seq<seq<Hop>>): seq<nat>
    decreases |searches|
  {
    if searches == [] then []
    else
      var last := searches[|searches| - 1];
      Collected(searches[..|searches| - 1]) + (if |last| > 1 then HopDistances(last) else [])
  }

  lemma CollectedSnoc(searches: seq<seq<Hop>>, lengths: seq<Hop>)
    ensures Collected(searches + [lengths]) ==
            Collected(searches) + (if |lengths| > 1 then HopDistances(lengths) else [])
  {
    assert (searches + [lengths])[..|searches|] == searches;
  }

  /** x is the shortest hop count of some node from a seed whose search found more than itself. */
  ghost predicate CountedHop(h: Graph, seeds: seq<Node>, x: nat) {
    exists i, v :: 0 <= i < |seeds| && |Reach(h, seeds[i])| > 1 && IsDistance(h, seeds[i], v, x)
  }

  lemma SearchCounted(h: Graph, seeds: seq<Node>, i: nat, lengths: seq<Hop>)
    requires i < |seeds| && Searched(h, seeds[i], lengths) && |lengths| > 1
    ensures forall k :: 0 <= k < |HopDistances(lengths)| ==> CountedHop(h, seeds, HopDistances(lengths)[k])
  {
    HopCount(lengths);
    forall k | 0 <= k < |lengths| ensures CountedHop(h, seeds, HopDistances(lengths)[k]) {
      assert IsDistance(h, seeds[i], lengths[k].node, HopDistances(lengths)[k]);
    }
  }

  /** What the collection loop has established after the first i seeds. */
  ghost predicate Collecting(h: Graph, seeds: seq<Node>, i: nat, dists: seq<nat>, searches: seq<seq<Hop>>) {
    && i <= |seeds| && |searches| == i
    && (forall k :: 0 <= k < i ==> Searched(h, seeds[k], searches[k]))
    && dists == Collected(searches)
    && |dists| == SeedTally(h, seeds[..i]).count
    && Sum(dists) == SeedTally(h, seeds[..i]).total
    && (forall j :: 0 <= j < |dists| ==> CountedHop(h, seeds, dists[j]) && dists[j] < |h.nodes|)
    && (|dists| > 0 ==> Sum(dists) > 0)
  }

  lemma SearchesStep(h: Graph, seeds: seq<Node>, searches: seq<seq<Hop>>, lengths: seq<Hop>)
    requires |searches| < |seeds|
    requires forall k :: 0 <= k < |searches| ==> Searched(h, seeds[k], searches[k])
    requires Searched(h, seeds[|searches|], lengths)
    ensures forall k :: 0 <= k < |searches| + 1 ==> Searched(h, seeds[k], (searches + [lengths])[k])
  {
    forall k | 0 <= k < |searches| + 1 ensures Searched(h, seeds[k], (searches + [lengths])[k]) {
      if k < |searches| {
        assert (searches + [lengths])[k] == searches[k];
      }
    }
  }

  lemma BoundsStep(h: Graph, seeds: seq<Node>, dists: seq<nat>, found: seq<nat>)
    requires forall j :: 0 <= j < |dists| ==> CountedHop(h, seeds, dists[j]) && dists[j] < |h.nodes|
    requires forall j :: 0 <= j < |found| ==> CountedHop(h, seeds, found[j]) && found[j] < |h.nodes|
    ensures forall j :: 0 <= j < |dists + found| ==>
              CountedHop(h, seeds, (dists + found)[j]) && (dists + found)[j] < |h.nodes|
  {
    forall j | 0 <= j < |dists + found|
      ensures CountedHop(h, seeds, (dists + found)[j]) && (dists + found)[j] < |h.nodes|
    {
      if j < |dists| {
        assert (dists + found)[j] == dists[j];
      } else {
        assert (dists + found)[j] == found[j - |dists|];
      }
    }
  }

  /** One turn of the loop: search from seeds[i] and extend `dists` when it found more than the seed. */
  method CollectSeed(h: Graph, seeds: seq<Node>, i: nat, dists: seq<nat>, searches: seq<seq<Hop>>)
    returns (dists': seq<nat>, searches': seq<seq<Hop>>)
    requires Valid(h) && i < |seeds| && seeds[i] in h.nodes
    requires Collecting(h, seeds, i, dists, searches)
    ensures Collecting(h, seeds, i + 1, dists', searches')
    ensures searches' == searches + [searches'[i]]
    ensures dists' == dists + (if |searches'[i]| > 1 then HopDistances(searches'[i]) else [])
  {
    var found, lengths := HopCounts(h, seeds[i]);
    CollectStep(h, seeds, i, dists, found);
    CollectedSnoc(searches, lengths);
    SearchesStep(h, seeds, searches, lengths);
    searches' := searches + [lengths];
    if |found| > 1 {
      SumAppend(dists, found);
      SearchCounted(h, seeds, i, lengths);
      BoundsStep(h, seeds, dists, found);
      dists' := dists + found;
    } else {
      dists' := dists;
    }
  }

  /**
   * The loop `for s in seeds: ... dists.extend(lengths.values())`, with the
   * searches it ran: `dists` is, in seed order, all hop counts of every
   * search that found more than its seed. So the collected values are as
   * many as the tally's count, add up to its total, are each a shortest hop
   * count from a counted seed in [0, n - 1], and are not all zero.
   */
  method CollectDistances(h: Graph, seeds: seq<Node>) returns (dists: seq<nat>, searches: seq<seq<Hop>>)
    requires Valid(h)
    requires forall i :: 0 <= i < |seeds| ==> seeds[i] in h.nodes
    ensures |searches| == |seeds|
    ensures forall i :: 0 <= i < |seeds| ==> Searched(h, seeds[i], searches[i])
    ensures dists == Collected(searches)
    ensures |dists| == SeedTally(h, seeds).count
    ensures Sum(dists) == SeedTally(h, seeds).total
    ensures forall j :: 0 <= j < |dists| ==> CountedHop(h, seeds, dists[j])
    ensures forall j :: 0 <= j < |dists| ==> dists[j] < |h.nodes|
    ensures |dists| > 0 ==> Sum(dists) > 0
  {
    dists, searches := [], [];
    assert seeds[..0] == [];
    for i := 0 to |seeds|
      invariant Collecting(h, seeds, i, dists, searches)
    {
      dists, searches := CollectSeed(h, seeds, i, dists, searches);
    }
    assert seeds[..|seeds|] == seeds;
  }

  lemma NonPositiveFactor(d: real, c: real)
    requires c > 0.0 && d * c <= 0.0
    ensures d <= 0.0
  {
  }

  /** A mean of counts in [0, m] with a positive sum lies in (0, m]. */
  lemma MeanBounds(total: nat, count: nat, m: nat)
    requires count > 0 && 0 < total <= Times(m, count)
    ensures 0.0 < Ratio(total, count) <= m as real
  {
    TimesIsProduct(m, count);
    var r, c := Ratio(total, count), count as real;
    var d := r - m as real;
    assert (m * count) as real == m as real * c;
    assert d * c == r * c - m as real * c;
    NonPositiveFactor(d, c);
  }

  /** The collected hop counts' mean lies in (0, n - 1]. */
  lemma CollectedMean(dists: seq<nat>, n: nat)
    requires |dists| > 0 && Sum(dists) > 0
    requires forall i :: 0 <= i < |dists| ==> dists[i] < n
    ensures 0.0 < Ratio(Sum(dists), |dists|) && Ratio(Sum(dists), |dists|) + 1.0 <= n as real
  {
    SumAtMost(dists, n - 1);
    MeanBounds(Sum(dists), |dists|, n - 1);
  }

  /**
   * The components of the projection and the first largest of them; None
   * when there are none, which happens exactly when there are no nodes.
   */
  method GiantComponent(g: Graph) returns (giant: Option<set<Node>>)
    requires Valid(g)
    ensures giant.None? <==> |g.nodes| == 0
    ensures giant.None? ==> Giant(g) == {}
    ensures giant.Some? ==> giant.value == Giant(g)
  {
    var h := Projection(g);
    ProjectionValid(g);
    var comps := ConnectedComponents(h);
    ComponentsEmpty(h);
    if comps == [] {
      return None;
    }
    giant := Some(Largest(comps));
  }

  /**
   * `estimate_average_distance(G, nodes_sample)` with the sampled seeds
   * given: undefined for an empty graph or when nothing was collected,
   * otherwise the mean hop count, which lies in (0, n - 1] for the giant's
   * size n.
   */
  method EstimateAverageDistance(g: Graph, nodesSample: nat, seeds: seq<Node>) returns (r: Estimate)
    requires Valid(g)
    requires ValidSeeds(g, nodesSample, seeds)
    ensures r == AverageDistance(g, seeds)
    ensures r.Mean? ==> 0.0 < r.value && r.value + 1.0 <= |Giant(g)| as real
  {
    var giant := GiantComponent(g);
    if giant.None? {
      assert |seeds| == 0;
      return Undefined;
    }
    var sub := Subgraph(Projection(g), giant.value);
    SeedsReachGiant(g, nodesSample, seeds);
    GiantFacts(g);
    var dists, searches := CollectDistances(sub, seeds);
    if |dists| == 0 {
      return Undefined;
    }
    CollectedMean(dists, |sub.nodes|);
    r := Mean(Ratio(Sum(dists), |dists|));
  }

  // ---------------------------------------------------------------------
  // When the estimate is undefined
  // ---------------------------------------------------------------------

  /** Seeds that all reach the same set c: every one counts, or none does. */
  lemma {:induction false} UniformTally(h: Graph, c: set<Node>, seeds: seq<Node>)
    requires forall i :: 0 <= i < |seeds| ==> Reach(h, seeds[i]) == c
    ensures SeedTally(h, seeds).count == if |c| > 1 then Times(|c|, |seeds|) else 0
    decreases |seeds|
  {
    if seeds != [] {
      var init := seeds[..|seeds| - 1];
      assert forall i :: 0 <= i < |init| ==> init[i] == seeds[i];
      UniformTally(h, c, init);
    }
  }

  /**
   * The estimate is undefined exactly when the graph has no nodes, the
   * sample size is 0, or the giant component is a single node.
   */
  lemma UndefinedExactly(g: Graph, nodesSample: nat, seeds: seq<Node>)
    requires Valid(g) && ValidSeeds(g, nodesSample, seeds)
    ensures AverageDistance(g, seeds) == Undefined <==>
              |g.nodes| == 0 || nodesSample == 0 || |Giant(g)| == 1
  {
    if |g.nodes| == 0 {
      ProjectionValid(g);
      ComponentsEmpty(Projection(g));
      assert seeds == [];
    } else {
      GiantFacts(g);
      SeedsReachGiant(g, nodesSample, seeds);
      UniformTally(GiantGraph(g), Giant(g), seeds);
      if |Giant(g)| > 1 && |seeds| > 0 {
        TimesAddsRow(|Giant(g)|, |seeds| - 1);
      }
    }
  }
}
