/**
 * `summarize_network`: the row of global metrics reported for one network.
 * The clustering and assortativity columns are not part of this model.
 */
module Summaries {
  import opened Graphs
  import opened Sequences
  import opened Degrees
  import opened Components
  import opened Distances

  /** `nx.density` of an undirected graph with n nodes and m edges. */
  function UndirectedDensity(n: nat, m: nat): (d: real)
    ensures m == 0 || n <= 1 ==> d == 0.0
    ensures n > 1 ==> d * (n * (n - 1)) as real == (2 * m) as real
    ensures d > 0.0 <==> m > 0 && n > 1
    ensures d >= 0.0
  {
    if m == 0 || n <= 1 then 0.0 else Ratio(2 * m, n * (n - 1))
  }

  /** The density column: computed on the undirected projection, so on its edge count. */
  function Density(g: Graph): real {
    var h := Projection(g);
    UndirectedDensity(|h.nodes|, |h.edges|)
  }

  /**
   * The density counts the projection's edges: a connection stored in both
   * directions of a directed graph counts once, so the count is at most m.
   */
  lemma DensityCountsProjection(g: Graph)
    requires Valid(g) && |g.nodes| > 1
    ensures Density(g) * (|g.nodes| * (|g.nodes| - 1)) as real == (2 * |Projection(g).edges|) as real
    ensures |Projection(g).edges| <= |g.edges|
    ensures !g.directed ==> Projection(g).edges == g.edges
  {
    ProjectionValid(g);
    var h := Projection(g);
    assert |h.nodes| == |g.nodes|;
    assert Density(g) == UndirectedDensity(|h.nodes|, |h.edges|);
  }

  /** A reciprocal pair: the directed graph has two edges, its density counts one. */
  lemma ReciprocalPairCountsOnce()
    ensures var g := Graph(true, [1, 2], [Edge(1, 2), Edge(2, 1)]);
            Valid(g) && |g.edges| == 2 && |Projection(g).edges| == 1 && Density(g) == 1.0
  {
    var g := Graph(true, [1, 2], [Edge(1, 2), Edge(2, 1)]);
    assert HasEdge([Edge(1, 2)], false, 2, 1);
    assert EdgesFrom(g.edges, false) == [Edge(1, 2)];
  }

  /** Self-loops count as edges, so the density column can exceed 1. */
  lemma SelfLoopsExceedOne()
    ensures var g := Graph(false, [1, 2], [Edge(1, 1), Edge(1, 2), Edge(2, 2)]);
            Valid(g) && Density(g) == 3.0
  {
  }

  /** The sample size `summarize_network` passes to the distance estimator. */
  const DistanceSample: nat := 100

  datatype Summary = Summary(
    name: string,
    directed: bool,
    n: nat,
    m: nat,
    density: real,
    degree: MeanDegree,
    largestFraction: real,
    averageDistance: Option<Estimate>)

  /**
   * `summarize_network(G, name, estimate_dist)`, with the estimator's seeds
   * given. An empty graph fails with the ZeroDivisionError `mean_degree`
   * raises; otherwise every column is the metric of the graph it names.
   */
  method SummarizeNetwork(g: Graph, name: string, estimateDist: bool, seeds: seq<Node>)
    returns (r: Result<Summary, Error>)
    requires Valid(g)
    requires estimateDist ==> ValidSeeds(g, DistanceSample, seeds)
    ensures r.Failure? <==> |g.nodes| == 0
    ensures r.Failure? ==> r.error == ZeroDivisionError
    ensures r.Success? ==>
              && r.value.name == name && r.value.directed == g.directed
              && r.value.n == |g.nodes| && r.value.m == |g.edges|
              && r.value.density == Density(g)
              && r.value.degree == MeanDegreeOf(g).value
              && r.value.largestFraction == Ratio(|Largest(ComponentList(g))|, |g.nodes|)
              && (r.value.averageDistance.Some? <==> estimateDist)
              && (estimateDist ==> r.value.averageDistance.value == AverageDistance(g, seeds))
    ensures r.Success? ==>
              && 0.0 < r.value.largestFraction <= 1.0
              && r.value.density >= 0.0
              && (r.value.averageDistance.Some? && r.value.averageDistance.value.Mean? ==>
                    0.0 < r.value.averageDistance.value.value &&
                    r.value.averageDistance.value.value + 1.0 <= |g.nodes| as real)
  {
    var n, m := |g.nodes|, |g.edges|;
    var s := BiggestComponentFraction(g);
    var deg := MeanDegreeOf(g);
    if deg.Failure? {
      return Failure(deg.error);
    }
    LargestFraction(g);
    var density := Density(g);
    var ell := None;
    if estimateDist {
      var e := EstimateAverageDistance(g, DistanceSample, seeds);
      GiantFacts(g);
      ell := Some(e);
    }
    r := Success(Summary(name, g.directed, n, m, density, deg.value, s.fraction, ell));
  }
}
