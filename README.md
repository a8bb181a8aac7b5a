# Global metrics of a real network, modelled in Dafny

`main.py` of redes-reais loads an edge list into a networkx graph and reports
one row of global metrics per network: the node and edge counts, the density,
the mean degree, the fraction of nodes in the largest (weakly) connected
component, and a sampled breadth-first estimate of the average shortest-path
distance inside that component. `compute_degree_summary` adds the node of
largest degree. This project models those operations and proves what they
compute.

Modules, one per file:

- `Graphs` (graph.dfy): a graph is its directedness, its nodes in first-appearance
  order and its edges, each stored once. `FromEdgeList` builds a graph from edge rows
  the way `nx.from_pandas_edgelist` does. `Projection` is `G.to_undirected()` for a
  directed graph and the graph itself otherwise.
- `Sequences`: `Sum`, Python's `max(..., key=...)` as `FirstMaxIndex` (the first
  maximal element), exact true division `Ratio`, and `Option`/`Result`.
- `Degrees`: degree tables, the handshake identity, `mean_degree` and
  `compute_degree_summary`.
- `Reachability`: `Ball(g, s, k)` is the nodes within k hops of s, ignoring edge
  direction. `Reach` is the ball of radius n. `IsDistance(g, s, v, d)` says that v is
  in layer d. Hop counts are proved to be shortest walk lengths.
- `Hops`, `ShortestPaths`: `nx.single_source_shortest_path_length` as a
  level-by-level breadth-first search. It returns node and hop-count entries.
- `Components`: the scan behind `nx.connected_components` and
  `nx.weakly_connected_components`, together with `biggest_component_fraction`.
- `Distances`: `estimate_average_distance`. This covers the giant component of the
  projection, the subgraph it induces, the per-seed searches and the mean.
- `Summaries`: the density and the `summarize_network` row.
- `Scenarios`: the path a - b - c - d over any four distinct nodes, worked out in full.

The graph is a value: networkx builds it once and the analyses only read it. The
loops of the source are methods with loop invariants:

- the component scan;
- the breadth-first search;
- the per-seed collection of distances.

Each loop is proved equal to a specification function, such as `ComponentList`,
`DistanceSum` or `SeedTally`. The properties are lemmas about those functions.

Three behaviours of the code are worth stating exactly, since the model follows them:

- **Seed distances.** `estimate_average_distance` extends `dists` with every value of
  the seed's `lengths` (`dists.extend(lengths.values())`), so the seed's own 0 is among
  them. On the path a - b - c - d seeded from all four nodes, the code averages a sum of
  20 over 16 values and gives 1.25 (`Scenarios.PathAverageDistance`). The mean over
  pairs of distinct nodes would be 20 / 12.
- **Density of a directed graph.** The code calls `nx.density` on the undirected
  projection, which gives 2 m' / (n (n - 1)). Here m' counts a reciprocal pair once
  (`Summaries.ReciprocalPairCountsOnce`).
- **The empty graph.** `summarize_network` on a graph without nodes returns no row:
  `mean_degree` divides by n = 0, so the call raises `ZeroDivisionError`. The model
  returns `Failure(ZeroDivisionError)`.

## Model

| member | source | states |
|---|---|---|
| Graphs.NodesFromSpec | main.py:15-17 | the nodes of a loaded graph are exactly the endpoints of the rows, each listed once |
| Graphs.EdgesFromSpec | main.py:15-17 | the stored edges come from the rows, contain no connection twice (in either direction when undirected), hold a connection exactly when some row does, and are no more than the rows |
| Graphs.FromEdgeListValid | main.py:13-18 | `load_edgelist` yields a well-formed graph of the requested directedness |
| Graphs.FromEdgeListContents | main.py:13-18 | the loaded graph's node set is the set of row endpoints; u-v is an edge exactly when a row (u, v), or (v, u) when undirected, is present; m is at most the row count |
| Graphs.RepeatedRowCollapses | main.py:15-17 | a repeated row adds nothing to the graph |
| Graphs.ReversedRowCollapses | main.py:17 | in an undirected graph a reversed row adds nothing |
| Graphs.RebuildFromEdges | main.py:15-17 | loading the stored edge sequence of a loaded graph gives the same graph back |
| Graphs.NodesFromAppends | main.py:15-17 | a new row adds its source, then its target, to the node list, each only if not yet listed |
| Graphs.NodesFromPrefix | main.py:15-17 | nodes keep their first-appearance order: the node list of some rows is a prefix of the node list of any extension of those rows |
| Graphs.ProjectionValid | main.py:54-57 | the undirected projection is well formed and undirected, keeps the node list, connects u and v exactly when the graph does in some direction, and has at most m edges |
| Degrees.GraphHandshake | main.py:30-35 | the in-degrees and out-degrees each sum to m, and the degrees of an undirected graph sum to 2m |
| Degrees.MeanDegreeOf | main.py:30-35 | n = 0 fails with ZeroDivisionError; otherwise a directed graph gets k_in = k_out with k_in * n = m, and an undirected one gets k with k * n = 2m |
| Degrees.MeanDegreeIsTableAverage | main.py:30-35 | k_in, k_out and k are the averages of the in-, out- and total degree tables |
| Degrees.MaxDegreeNode | main.py:104-116 | `max(degs, key=degs.get)` returns a node whose degree is the maximum and which precedes every other node of that degree |
| Degrees.RecordMax | main.py:104-106 | adds the node key and the degree key holding the first node of maximal degree and its degree; every other key is unchanged |
| Degrees.ComputeDegreeSummary | main.py:98-117 | the keys are max_in/max_out for a directed graph and max_node/max_deg otherwise, and none when there are no nodes; each node is the first of maximal degree and carries that degree |
| Reachability.ReachClosed | main.py:21-24 | an edge has both ends in a node's reach or neither |
| Reachability.ReachSame | main.py:21-24 | every node that s reaches reaches exactly what s reaches |
| Reachability.DistanceBound | main.py:69 | a hop count from s belongs to a reached node and is at most n - 1 |
| Reachability.DistanceUnique | main.py:69 | a node has at most one hop count from s |
| Reachability.ShortestHopCount | main.py:69 | a hop count d is the length of a shortest walk: a walk with d + 1 nodes exists and none is shorter |
| ShortestPaths.ShortestPathLengths | main.py:69 | returns one entry per reached node; the first entry is (s, 0), every entry is the shortest hop count, the entries come level by level (hop counts never decrease along the list), and the counts sum to `DistanceSum` |
| Components.ComponentsPartition | main.py:21-24 | the components are whole components, pairwise disjoint, cover every node, and every node's reach is among them |
| Components.ComponentsClosed | main.py:21-24 | no edge leaves a component |
| Components.ComponentsEmpty | main.py:25-26 | there is no component exactly when there is no node |
| Components.PlainBfs | main.py:22-24 | the search from v collects exactly the nodes v reaches |
| Components.ConnectedComponents | main.py:21-24 | the scan returns the components in the order of their first node |
| Components.Largest | main.py:27 | `max(comps, key=len)` is a component at least as large as every other component and the first of that size |
| Components.BiggestComponentFraction | main.py:20-28 | `(0.0, set())` for an empty graph; otherwise the largest component and its size divided by n |
| Components.LargestFraction | main.py:27-28 | the largest component is a component that no node's reach exceeds; its size is in 1..n and the fraction is in (0, 1] |
| Distances.SubgraphValid | main.py:63 | an induced subgraph is well formed and has the kept nodes of the graph |
| Distances.SubgraphReach | main.py:63 | inside the subgraph of a component, a member reaches the whole component, with the same layers as in the graph |
| Distances.GiantIsLargest | main.py:54-62 | the components of the projection are the graph's (weak) components, so the estimator's giant component is the one `biggest_component_fraction` reports |
| Distances.GiantComponent | main.py:59-62 | no giant component (the `np.nan` return) exactly when there are no nodes; otherwise the first largest component of the projection |
| Distances.GiantFacts | main.py:62-64 | the giant component is a component of the projection with 1..n nodes, and its subgraph has exactly those nodes |
| Distances.SeedsReachGiant | main.py:64-69 | each seed lies in the giant subgraph and reaches all of it |
| Distances.HopCounts | main.py:69-71 | returns the search's `lengths` (the seed first, one entry per reached node, each its shortest hop count, level by level) and `found`, their hop counts in that order: each below n, summing to the distance sum, positive when the seed reaches another node |
| Distances.CollectDistances | main.py:67-71 | one search per seed, in seed order; the collected list is the concatenation, in seed order, of the hop counts of every search that found more than its seed, so it has the length and sum of `SeedTally`; each value is the shortest hop count from a counted seed to some node, below n |
| Distances.CollectSeed | main.py:68-71 | one seed's step keeps that invariant and leaves what came before unchanged: it appends the seed's search to the searches, and appends that search's hop counts to the list when it found more than its seed, nothing otherwise |
| Distances.CollectedMean | main.py:74 | a non-empty collection with positive sum and counts below n has mean in (0, n - 1] |
| Distances.EstimateAverageDistance | main.py:49-74 | the result is `AverageDistance(g, seeds)`: undefined when nothing was collected, else the exact mean; a mean lies in (0, size of the giant component - 1] |
| Distances.UniformTally | main.py:67-71 | seeds that all reach the same set c collect \|c\| values each when \|c\| > 1 and none otherwise |
| Distances.UndefinedExactly | main.py:60-74 | the estimate is undefined exactly when the graph is empty, the sample size is 0, or the giant component is a single node |
| Summaries.UndirectedDensity | main.py:82 | 0 when m = 0 or n <= 1; otherwise d * n(n - 1) = 2m; positive exactly when m > 0 and n > 1 |
| Summaries.DensityCountsProjection | main.py:82 | the density counts the projection's edges, at most m, and the graph's own edges when undirected |
| Summaries.ReciprocalPairCountsOnce | main.py:82 | a directed pair 1->2, 2->1 has m = 2 and density 1.0, from one projected edge |
| Summaries.SelfLoopsExceedOne | main.py:82 | with self-loops counted as edges the density can be 3.0 |
| Summaries.SummarizeNetwork | main.py:76-96 | fails with ZeroDivisionError exactly when n = 0; otherwise name, directed, n, m, density, mean degree, largest fraction and the optional distance estimate are those metrics, with fraction in (0, 1], density >= 0 and a mean in (0, n - 1] |
| Scenarios.PathLoaded | main.py:13-18 | loading the rows (a, b), (b, c), (c, d) as an undirected graph gives the path a - b - c - d |
| Scenarios.PathValid | main.py:17 | the path a - b - c - d is a well-formed graph on four nodes |
| Scenarios.FromEnd | main.py:69 | from an end of the path every node is reached, with hop counts summing to 6 |
| Scenarios.FromInner | main.py:69 | from an inner node every node is reached, with hop counts summing to 4 |
| Scenarios.ConnectedGraph | main.py:20-28 | a connected undirected graph has one component holding every node, which is also the giant component, and its giant subgraph is the graph itself |
| Scenarios.PathAverageDistance | main.py:64-74 | seeded from its four nodes, the path's estimate is 1.25, with the seeds' zeros included |
| Scenarios.PathDensity | main.py:82 | the path's density is 0.5 |
| Scenarios.PathMeanDegree | main.py:35 | the path's mean degree is 1.5 |
| Scenarios.PathLargestFraction | main.py:27-28 | the path's largest-component fraction is 1.0 |

## Left out

- Reading the CSV (`pd.read_csv`, comment lines, separators) is not modelled. The model starts from the parsed rows, a sequence of integer pairs.
- Node labels are integers, which is what pandas parses from these edge lists. Other label types are not modelled.
- `clustering_coeff` and `assortativity` are not modelled, nor are the summary columns they fill.
- `random.sample` is not modelled. The seeds are a parameter. `ValidSeeds` requires them to be distinct members of the giant component, min(nodes_sample, its size) of them. Which sample is drawn, and with what probability, is not modelled.
- EstimateAverageDistance: `nodes_sample` is a natural number. A negative value would make `random.sample` raise, and the only caller passes 100.
- `float(np.mean(dists))` is modelled as the exact rational mean. Floating-point rounding is not modelled, and neither are the other float divisions (`m/n`, `len(largest)/n`, the density).
- `np.nan` is the `Undefined` estimate, not a float.
- The order in which a breadth-first search lists the nodes of one level is not modelled; only that levels come in increasing order. The sum and count of hop counts do not depend on it.
- `max(..., key=...)` breaks ties by iteration order. The model fixes that order as the node order, or the order in which components are found.
- ComputeDegreeSummary: the returned dict's string keys are modelled as the `Field` datatype.
- The stored edges are kept in row order, not in the adjacency order in which networkx lists `G.edges()`. No metric depends on that order.
- `build_markdown_report` and the script section at the end of `main.py` are not modelled. This covers the file loop, the CSV and Markdown output and the printing.
