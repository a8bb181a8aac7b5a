/**
 * Reachability over the undirected adjacency of a graph (edge direction is
 * ignored, which is weak connectivity for a directed graph).
 *
 * Ball(g, s, k) is the set of nodes within k hops of s; a node is at
 * shortest-path distance d from s exactly when it lies in Layer(g, s, d),
 * the nodes first met at hop d. Reach(g, s) is the node's component.
 */
module Reachability {
  import opened Graphs

  /** u and v are joined by an edge in one direction or the other. */
  predicate Adjacent(g: Graph, u: Node, v: Node) {
    Edge(u, v) in g.edges || Edge(v, u) in g.edges
  }

  /** Other ends of the listed edges that have one end in S. */
  function NeighborsIn(edges: seq<Edge>, S: set<Node>): set<Node> {
    if edges == [] then {}
    else
      var e := edges[0];
      (if e.src in S then {e.dst} else {}) + (if e.dst in S then {e.src} else {}) + NeighborsIn(edges[1..], S)
  }

  /** Nodes one edge away from some node of S. */
  function Neighbors(g: Graph, S: set<Node>): set<Node> {
    NeighborsIn(g.edges, S)
  }

  function Expand(g: Graph, S: set<Node>): set<Node> {
    S + Neighbors(g, S)
  }

  /** Nodes at most k hops away from s. */
  function Ball(g: Graph, s: Node, k: nat): set<Node> {
    if k == 0 then {s} else Expand(g, Ball(g, s, k - 1))
  }

  /** Nodes whose shortest hop count from s is exactly k. */
  function Layer(g: Graph, s: Node, k: nat): set<Node> {
    if k == 0 then {s} else Ball(g, s, k) - Ball(g, s, k - 1)
  }

  predicate IsDistance(g: Graph, s: Node, v: Node, d: nat) {
    v in Layer(g, s, d)
  }

  /** The nodes reachable from s. */
  function Reach(g: Graph, s: Node): set<Node> {
    Ball(g, s, |g.nodes|)
  }

  /** A walk: consecutive nodes are adjacent. */
  predicate IsWalk(g: Graph, p: seq<Node>) {
    |p| > 0 && forall i :: 0 <= i < |p| - 1 ==> Adjacent(g, p[i], p[i + 1])
  }

  // ---------------------------------------------------------------------
  // Basic facts
  // ---------------------------------------------------------------------

  lemma {:induction false} NeighborsInAdjacent(edges: seq<Edge>, S: set<Node>, w: Node)
    ensures w in NeighborsIn(edges, S) <==> exists y :: y in S && (Edge(y, w) in edges || Edge(w, y) in edges)
    decreases |edges|
  {
    if edges != [] {
      NeighborsInAdjacent(edges[1..], S, w);
      assert edges == [edges[0]] + edges[1..];
      if exists y :: y in S && (Edge(y, w) in edges || Edge(w, y) in edges) {
        var y :| y in S && (Edge(y, w) in edges || Edge(w, y) in edges);
        if Edge(y, w) != edges[0] && Edge(w, y) != edges[0] {
          assert Edge(y, w) in edges[1..] || Edge(w, y) in edges[1..];
        }
      }
    }
  }

  lemma NeighborsAdjacent(g: Graph, S: set<Node>, w: Node)
    ensures w in Neighbors(g, S) <==> exists y :: y in S && Adjacent(g, y, w)
  {
    NeighborsInAdjacent(g.edges, S, w);
  }

  lemma ExpandMonotone(g: Graph, S: set<Node>, T: set<Node>)
    requires S <= T
    ensures Expand(g, S) <= Expand(g, T)
  {
    forall w | w in Neighbors(g, S) ensures w in Neighbors(g, T) {
      NeighborsAdjacent(g, S, w);
      NeighborsAdjacent(g, T, w);
    }
  }

  lemma {:induction false} BallMonotone(g: Graph, s: Node, i: nat, j: nat)
    requires i <= j
    ensures Ball(g, s, i) <= Ball(g, s, j)
    decreases j
  {
    if i < j {
      BallMonotone(g, s, i, j - 1);
    }
  }

  lemma SourceInBall(g: Graph, s: Node, k: nat)
    ensures s in Ball(g, s, k)
  {
    BallMonotone(g, s, 0, k);
  }

  lemma {:induction false} BallInNodes(g: Graph, s: Node, k: nat)
    requires Valid(g) && s in g.nodes
    ensures Ball(g, s, k) <= NodeSet(g)
    decreases k
  {
    if k > 0 {
      BallInNodes(g, s, k - 1);
      forall w | w in Neighbors(g, Ball(g, s, k - 1)) ensures w in NodeSet(g) {
        NeighborsAdjacent(g, Ball(g, s, k - 1), w);
      }
    }
  }

  lemma {:induction false} BallStable(g: Graph, s: Node, k: nat, j: nat)
    requires Ball(g, s, k + 1) == Ball(g, s, k)
    requires k <= j
    ensures Ball(g, s, j) == Ball(g, s, k)
    decreases j
  {
    if j > k {
      BallStable(g, s, k, j - 1);
    }
  }

  /** While the ball keeps growing it gains at least one node per hop. */
  lemma {:induction false} BallGrowth(g: Graph, s: Node, k: nat)
    requires k > 0 && Ball(g, s, k) != Ball(g, s, k - 1)
    ensures |Ball(g, s, k)| >= k + 1
    decreases k
  {
    BallMonotone(g, s, k - 1, k);
    SubsetSize(Ball(g, s, k - 1), Ball(g, s, k));
    if k > 1 {
      assert Ball(g, s, k - 1) != Ball(g, s, k - 2);
      BallGrowth(g, s, k - 1);
    }
  }

  lemma SubsetSize(A: set<Node>, B: set<Node>)
    requires A <= B
    ensures |A| <= |B|
    ensures A != B ==> |A| < |B|
  {
    assert B == A + (B - A);
    if A != B {
      assert B - A != {};
    }
  }

  lemma {:induction false} NodeSetSize(nodes: seq<Node>)
    ensures |set v | v in nodes| <= |nodes|
    decreases |nodes|
  {
    if nodes != [] {
      var init := nodes[..|nodes| - 1];
      NodeSetSize(init);
      assert nodes == init + [nodes[|nodes| - 1]];
      assert (set v | v in nodes) == (set v | v in init) + {nodes[|nodes| - 1]};
    }
  }

  lemma DistinctNodeSetSize(nodes: seq<Node>)
    requires Distinct(nodes)
    ensures |set v | v in nodes| == |nodes|
    decreases |nodes|
  {
    if nodes != [] {
      var init := nodes[..|nodes| - 1];
      var last := nodes[|nodes| - 1];
      DistinctNodeSetSize(init);
      assert nodes == init + [last];
      assert last !in init;
      assert (set v | v in nodes) == (set v | v in init) + {last};
    }
  }

  /** After |nodes| - 1 hops nothing new is found. */
  lemma Saturation(g: Graph, s: Node, k: nat)
    requires Valid(g) && s in g.nodes
    requires k + 1 >= |g.nodes|
    ensures Ball(g, s, k + 1) == Ball(g, s, k)
  {
    var b := Ball(g, s, k + 1);
    if b != Ball(g, s, k) {
      BallGrowth(g, s, k + 1);
      BallInNodes(g, s, k + 1);
      NodeSetSize(g.nodes);
      SubsetSize(b, NodeSet(g));
      assert false;
    }
  }

  /** Every ball of at least |nodes| - 1 hops is the whole reachable set. */
  lemma ReachIsLargeBall(g: Graph, s: Node, k: nat)
    requires Valid(g) && s in g.nodes
    requires k + 1 >= |g.nodes|
    ensures Ball(g, s, k) == Reach(g, s)
  {
    var m := if |g.nodes| == 0 then 0 else |g.nodes| - 1;
    Saturation(g, s, m);
    BallStable(g, s, m, k);
    BallStable(g, s, m, |g.nodes|);
  }

  lemma ReachBasics(g: Graph, s: Node)
    requires Valid(g) && s in g.nodes
    ensures s in Reach(g, s)
    ensures Reach(g, s) <= NodeSet(g)
    ensures Expand(g, Reach(g, s)) == Reach(g, s)
  {
    SourceInBall(g, s, |g.nodes|);
    BallInNodes(g, s, |g.nodes|);
    Saturation(g, s, |g.nodes|);
  }

  /** The reachable set is closed under adjacency, in both edge directions. */
  lemma ReachClosed(g: Graph, s: Node, e: Edge)
    requires Valid(g) && s in g.nodes && e in g.edges
    ensures e.src in Reach(g, s) <==> e.dst in Reach(g, s)
  {
    ReachBasics(g, s);
    var R := Reach(g, s);
    if e.src in R {
      assert Adjacent(g, e.src, e.dst);
      NeighborsAdjacent(g, R, e.dst);
    }
    if e.dst in R {
      assert Adjacent(g, e.dst, e.src);
      NeighborsAdjacent(g, R, e.src);
    }
  }

  // ---------------------------------------------------------------------
  // Reachability is an equivalence
  // ---------------------------------------------------------------------

  /** Hop counts add up: k hops from w after a hops from u is a + k hops from u. */
  lemma {:induction false} BallTransitive(g: Graph, u: Node, w: Node, a: nat, k: nat)
    requires w in Ball(g, u, a)
    ensures Ball(g, w, k) <= Ball(g, u, a + k)
    decreases k
  {
    if k > 0 {
      BallTransitive(g, u, w, a, k - 1);
      ExpandMonotone(g, Ball(g, w, k - 1), Ball(g, u, a + k - 1));
    }
  }

  lemma {:induction false} BallSymmetric(g: Graph, u: Node, w: Node, k: nat)
    requires w in Ball(g, u, k)
    ensures u in Ball(g, w, k)
    decreases k
  {
    if k > 0 {
      var prev := Ball(g, u, k - 1);
      if w in prev {
        BallSymmetric(g, u, w, k - 1);
        BallMonotone(g, w, k - 1, k);
      } else {
        NeighborsAdjacent(g, prev, w);
        var y :| y in prev && Adjacent(g, y, w);
        BallSymmetric(g, u, y, k - 1);
        NeighborsAdjacent(g, {w}, y);
        assert y in Ball(g, w, 1);
        BallTransitive(g, w, y, 1, k - 1);
      }
    }
  }

  lemma ReachSubset(g: Graph, u: Node, w: Node)
    requires Valid(g) && u in g.nodes && w in Reach(g, u)
    ensures w in g.nodes
    ensures Reach(g, w) <= Reach(g, u)
  {
    var n := |g.nodes|;
    BallInNodes(g, u, n);
    assert w in NodeSet(g);
    BallTransitive(g, u, w, n, n);
    ReachIsLargeBall(g, u, n + n);
  }

  /** Every node of a reachable set reaches exactly that set: it is a component. */
  lemma ReachSame(g: Graph, u: Node, w: Node)
    requires Valid(g) && u in g.nodes && w in Reach(g, u)
    ensures w in g.nodes
    ensures Reach(g, w) == Reach(g, u)
  {
    ReachSubset(g, u, w);
    BallSymmetric(g, u, w, |g.nodes|);
    ReachSubset(g, w, u);
  }

  // ---------------------------------------------------------------------
  // Distances
  // ---------------------------------------------------------------------

  lemma LayerNext(g: Graph, s: Node, k: nat)
    ensures Layer(g, s, k + 1) == Neighbors(g, Ball(g, s, k)) - Ball(g, s, k)
  {
  }

  /** The new nodes of hop k + 1 are neighbours of the nodes first met at hop k. */
  lemma LayerFromFrontier(g: Graph, s: Node, k: nat)
    ensures Layer(g, s, k + 1) == Neighbors(g, Layer(g, s, k)) - Ball(g, s, k)
  {
    var B := Ball(g, s, k);
    var F := Layer(g, s, k);
    assert F <= B by {
      if k > 0 { }
    }
    ExpandMonotone(g, F, B);
    forall w | w in Neighbors(g, B) && w !in B ensures w in Neighbors(g, F) {
      NeighborsAdjacent(g, B, w);
      var y :| y in B && Adjacent(g, y, w);
      if y !in F {
        NeighborsAdjacent(g, Ball(g, s, k - 1), w);
        assert false;
      }
      NeighborsAdjacent(g, F, w);
    }
  }

  /** Shortest-path lengths from a node of the graph lie in [0, n - 1]. */
  lemma DistanceBound(g: Graph, s: Node, v: Node, d: nat)
    requires Valid(g) && s in g.nodes
    requires IsDistance(g, s, v, d)
    ensures d + 1 <= |g.nodes|
    ensures v in Reach(g, s)
  {
    if d > 0 {
      var b := Ball(g, s, d);
      BallGrowth(g, s, d);
      BallInNodes(g, s, d);
      NodeSetSize(g.nodes);
      SubsetSize(b, NodeSet(g));
    }
    var big := d + |g.nodes|;
    ReachIsLargeBall(g, s, big);
    BallMonotone(g, s, d, big);
    assert v in Ball(g, s, d) by {
      if d > 0 { }
    }
  }

  /** The distance of a node is unique. */
  lemma DistanceUnique(g: Graph, s: Node, v: Node, d1: nat, d2: nat)
    requires IsDistance(g, s, v, d1) && IsDistance(g, s, v, d2)
    ensures d1 == d2
  {
    if d1 < d2 {
      BallMonotone(g, s, d1, d2 - 1);
    } else if d2 < d1 {
      BallMonotone(g, s, d2, d1 - 1);
    }
  }

  /** Every reachable node has a distance. */
  lemma {:induction false} HasDistance(g: Graph, s: Node, v: Node, k: nat)
    requires v in Ball(g, s, k)
    ensures exists d: nat :: d <= k && IsDistance(g, s, v, d)
    decreases k
  {
    if k > 0 && v in Ball(g, s, k - 1) {
      HasDistance(g, s, v, k - 1);
    } else {
      assert IsDistance(g, s, v, k);
    }
  }

  // ---------------------------------------------------------------------
  // Balls are hop counts of walks
  // ---------------------------------------------------------------------

  lemma {:induction false} WalkInBall(g: Graph, p: seq<Node>)
    requires IsWalk(g, p)
    ensures p[|p| - 1] in Ball(g, p[0], |p| - 1)
    decreases |p|
  {
    if |p| > 1 {
      var q := p[..|p| - 1];
      assert IsWalk(g, q);
      WalkInBall(g, q);
      assert Adjacent(g, p[|p| - 2], p[|p| - 1]);
      NeighborsAdjacent(g, Ball(g, p[0], |p| - 2), p[|p| - 1]);
    }
  }

  lemma {:induction false} BallHasWalk(g: Graph, s: Node, v: Node, k: nat)
    requires v in Ball(g, s, k)
    ensures exists p :: IsWalk(g, p) && p[0] == s && p[|p| - 1] == v && |p| <= k + 1
    decreases k
  {
    if k == 0 {
      assert IsWalk(g, [s]);
    } else if v in Ball(g, s, k - 1) {
      BallHasWalk(g, s, v, k - 1);
    } else {
      NeighborsAdjacent(g, Ball(g, s, k - 1), v);
      var y :| y in Ball(g, s, k - 1) && Adjacent(g, y, v);
      BallHasWalk(g, s, y, k - 1);
      var p :| IsWalk(g, p) && p[0] == s && p[|p| - 1] == y && |p| <= k;
      var q := p + [v];
      forall i | 0 <= i < |q| - 1 ensures Adjacent(g, q[i], q[i + 1]) {
        if i < |p| - 1 {
          assert q[i] == p[i] && q[i + 1] == p[i + 1];
        }
      }
      assert IsWalk(g, q);
    }
  }

  /**
   * IsDistance is the textbook shortest hop count: some walk from s to v has
   * exactly d edges and no walk from s to v has fewer.
   */
  lemma ShortestHopCount(g: Graph, s: Node, v: Node, d: nat)
    requires IsDistance(g, s, v, d)
    ensures exists p :: IsWalk(g, p) && p[0] == s && p[|p| - 1] == v && |p| == d + 1
    ensures forall p :: IsWalk(g, p) && p[0] == s && p[|p| - 1] == v ==> |p| >= d + 1
  {
    forall p | IsWalk(g, p) && p[0] == s && p[|p| - 1] == v ensures |p| >= d + 1 {
      WalkInBall(g, p);
      if |p| < d + 1 {
        BallMonotone(g, s, |p| - 1, d - 1);
      }
    }
    BallHasWalk(g, s, v, d);
    var p :| IsWalk(g, p) && p[0] == s && p[|p| - 1] == v && |p| <= d + 1;
    assert |p| >= d + 1;
  }
}
