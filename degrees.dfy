/**
 * Degree tables, the mean degree reported by `mean_degree`, and the
 * max-degree lookup of `compute_degree_summary`.
 */
module Degrees {
  import opened Graphs
  import opened Sequences

  /** Which edge ends count: `in_degree`, `out_degree` or undirected `degree`. */
  datatype Direction = In | Out | Both

  /** How many ends every edge contributes to the degree sum. */
  function Weight(dir: Direction): nat {
    if dir == Both then 2 else 1
  }

  function Incidence(e: Edge, v: Node, dir: Direction): nat {
    match dir
    case In => if e.dst == v then 1 else 0
    case Out => if e.src == v then 1 else 0
    case Both => (if e.src == v then 1 else 0) + (if e.dst == v then 1 else 0)
  }

  /**
   * Edge ends at v among the stored edges. Edges are stored once, so this is
   * networkx's degree: in an undirected graph a self-loop counts twice.
   */
  function DegreeOf(edges: seq<Edge>, v: Node, dir: Direction): nat {
    if edges == [] then 0 else Incidence(edges[0], v, dir) + DegreeOf(edges[1..], v, dir)
  }

  /** The degree of every node, in node order. */
  function Table(nodes: seq<Node>, edges: seq<Edge>, dir: Direction): (t: seq<nat>)
    ensures |t| == |nodes|
    ensures forall i :: 0 <= i < |nodes| ==> t[i] == DegreeOf(edges, nodes[i], dir)
  {
    if nodes == [] then [] else [DegreeOf(edges, nodes[0], dir)] + Table(nodes[1..], edges, dir)
  }

  /** `dict(G.in_degree())`, `dict(G.out_degree())`, `dict(G.degree())`. */
  function DegreeTable(g: Graph, dir: Direction): seq<nat> {
    Table(g.nodes, g.edges, dir)
  }

  // ---------------------------------------------------------------------
  // Handshake identity
  // ---------------------------------------------------------------------

  /** Ends of the single edge e that land on the nodes listed. */
  function EdgeEnds(nodes: seq<Node>, e: Edge, dir: Direction): nat {
    if nodes == [] then 0 else Incidence(e, nodes[0], dir) + EdgeEnds(nodes[1..], e, dir)
  }

  lemma {:induction false} EdgeEndsOnNodes(nodes: seq<Node>, e: Edge, dir: Direction)
    requires Distinct(nodes)
    requires e.src in nodes && e.dst in nodes
    ensures EdgeEnds(nodes, e, dir) == Weight(dir)
  {
    EdgeEndsCount(nodes, e, dir);
  }

  lemma {:induction false} EdgeEndsCount(nodes: seq<Node>, e: Edge, dir: Direction)
    requires Distinct(nodes)
    ensures EdgeEnds(nodes, e, dir) ==
            (if dir != Out && e.dst in nodes then 1 else 0) + (if dir != In && e.src in nodes then 1 else 0)
    decreases |nodes|
  {
    if nodes != [] {
      EdgeEndsCount(nodes[1..], e, dir);
      assert nodes == [nodes[0]] + nodes[1..];
      assert e.src in nodes <==> e.src == nodes[0] || e.src in nodes[1..];
      assert e.dst in nodes <==> e.dst == nodes[0] || e.dst in nodes[1..];
      assert e.src == nodes[0] ==> e.src !in nodes[1..];
      assert e.dst == nodes[0] ==> e.dst !in nodes[1..];
    }
  }

  lemma {:induction false} TableSumSplit(nodes: seq<Node>, e: Edge, rest: seq<Edge>, dir: Direction)
    ensures Sum(Table(nodes, [e] + rest, dir)) == EdgeEnds(nodes, e, dir) + Sum(Table(nodes, rest, dir))
    decreases |nodes|
  {
    if nodes != [] {
      assert ([e] + rest)[1..] == rest;
      TableSumSplit(nodes[1..], e, rest, dir);
    }
  }

  lemma {:induction false} TableSumNoEdges(nodes: seq<Node>, dir: Direction)
    ensures Sum(Table(nodes, [], dir)) == 0
    decreases |nodes|
  {
    if nodes != [] {
      TableSumNoEdges(nodes[1..], dir);
    }
  }

  /**
   * Handshake identity: in-degrees sum to the edge count, so do out-degrees,
   * and undirected degrees sum to twice the edge count.
   */
  lemma {:induction false} Handshake(nodes: seq<Node>, edges: seq<Edge>, dir: Direction)
    requires Distinct(nodes)
    requires forall e :: e in edges ==> e.src in nodes && e.dst in nodes
    ensures Sum(Table(nodes, edges, dir)) == if dir == Both then 2 * |edges| else |edges|
    decreases |edges|
  {
    if edges == [] {
      TableSumNoEdges(nodes, dir);
    } else {
      var e, rest := edges[0], edges[1..];
      assert edges == [e] + rest;
      assert e in edges;
      TableSumSplit(nodes, e, rest, dir);
      EdgeEndsOnNodes(nodes, e, dir);
      assert forall x :: x in rest ==> x in edges;
      Handshake(nodes, rest, dir);
    }
  }

  lemma GraphHandshake(g: Graph)
    requires Valid(g)
    ensures Sum(DegreeTable(g, In)) == |g.edges|
    ensures Sum(DegreeTable(g, Out)) == |g.edges|
    ensures Sum(DegreeTable(g, Both)) == 2 * |g.edges|
  {
    Handshake(g.nodes, g.edges, In);
    Handshake(g.nodes, g.edges, Out);
    Handshake(g.nodes, g.edges, Both);
  }

  // ---------------------------------------------------------------------
  // mean_degree
  // ---------------------------------------------------------------------

  datatype MeanDegree = DirectedMean(kIn: real, kOut: real) | UndirectedMean(k: real)

  /** `m/n` with n == 0 raises ZeroDivisionError in Python. */
  datatype Error = ZeroDivisionError

  /** `mean_degree(G)`: k_in = k_out = m/n when directed, k = 2m/n otherwise. */
  function MeanDegreeOf(g: Graph): (r: Result<MeanDegree, Error>)
    ensures r.Failure? <==> |g.nodes| == 0
    ensures r.Success? ==> (r.value.DirectedMean? <==> g.directed)
    ensures r.Success? && g.directed ==>
              r.value.kIn == r.value.kOut && r.value.kIn * |g.nodes| as real == |g.edges| as real
    ensures r.Success? && !g.directed ==> r.value.k * |g.nodes| as real == 2.0 * |g.edges| as real
  {
    var n, m := |g.nodes|, |g.edges|;
    if n == 0 then Failure(ZeroDivisionError)
    else if g.directed then Success(DirectedMean(m as real / n as real, m as real / n as real))
    else Success(UndirectedMean(2.0 * m as real / n as real))
  }

  /**
   * The mean degree is the average of the degree table: the mean in-degree
   * and the mean out-degree of a directed graph, the mean degree of an
   * undirected one. Hence k_in == k_out by the handshake identity.
   */
  lemma MeanDegreeIsTableAverage(g: Graph)
    requires Valid(g) && |g.nodes| > 0
    ensures g.directed ==>
              && MeanDegreeOf(g).value.kIn == Sum(DegreeTable(g, In)) as real / |g.nodes| as real
              && MeanDegreeOf(g).value.kOut == Sum(DegreeTable(g, Out)) as real / |g.nodes| as real
    ensures !g.directed ==>
              MeanDegreeOf(g).value.k == Sum(DegreeTable(g, Both)) as real / |g.nodes| as real
  {
    GraphHandshake(g);
  }

  // ---------------------------------------------------------------------
  // compute_degree_summary
  // ---------------------------------------------------------------------

  /**
   * v with degree d is what `max(degs, key=degs.get)` returns: a node of
   * the table, d is its entry, no node has a larger degree and every node
   * listed before v has a strictly smaller one.
   */
  predicate IsFirstMaxNode(g: Graph, dir: Direction, v: Node, d: int) {
    && v in g.nodes
    && d == DegreeOf(g.edges, v, dir)
    && (forall w :: w in g.nodes ==> DegreeOf(g.edges, w, dir) <= d)
    && (forall i, j :: 0 <= j < i < |g.nodes| && g.nodes[i] == v ==> DegreeOf(g.edges, g.nodes[j], dir) < d)
  }

  /** `max(degs, key=degs.get)` on a non-empty degree table. */
  function MaxDegreeNode(g: Graph, dir: Direction): (v: Node)
    requires Distinct(g.nodes) && |g.nodes| > 0
    ensures IsFirstMaxNode(g, dir, v, DegreeOf(g.edges, v, dir))
  {
    var t := DegreeTable(g, dir);
    var i := FirstMaxIndex(t);
    assert forall w :: w in g.nodes ==> DegreeOf(g.edges, w, dir) <= t[i] by {
      forall w | w in g.nodes ensures DegreeOf(g.edges, w, dir) <= t[i] {
        var j :| 0 <= j < |g.nodes| && g.nodes[j] == w;
        assert t[j] <= t[i];
      }
    }
    assert forall a, j :: 0 <= j < a < |g.nodes| && g.nodes[a] == g.nodes[i] ==> DegreeOf(g.edges, g.nodes[j], dir) < t[i] by {
      forall a, j | 0 <= j < a < |g.nodes| && g.nodes[a] == g.nodes[i] ensures DegreeOf(g.edges, g.nodes[j], dir) < t[i] {
        assert a == i;
        assert t[j] < t[i];
      }
    }
    g.nodes[i]
  }

  /** The keys of the dictionary `compute_degree_summary` returns. */
  datatype Field = MaxInNode | MaxInDeg | MaxOutNode | MaxOutDeg | MaxNode | MaxDeg

  /** Records `max(degs, key=degs.get)` and its degree under two keys; other keys are untouched. */
  method RecordMax(summary: map<Field, int>, g: Graph, dir: Direction, nodeKey: Field, degKey: Field)
    returns (s: map<Field, int>)
    requires Distinct(g.nodes) && |g.nodes| > 0 && nodeKey != degKey
    ensures s.Keys == summary.Keys + {nodeKey, degKey}
    ensures IsFirstMaxNode(g, dir, s[nodeKey], s[degKey])
    ensures forall k :: k in summary && k != nodeKey && k != degKey ==> s[k] == summary[k]
  {
    var v := MaxDegreeNode(g, dir);
    s := summary[nodeKey := v][degKey := DegreeOf(g.edges, v, dir)];
  }

  method ComputeDegreeSummary(g: Graph) returns (summary: map<Field, int>)
    requires Distinct(g.nodes)
    ensures g.directed ==>
              summary.Keys == if |g.nodes| == 0 then {} else {MaxInNode, MaxInDeg, MaxOutNode, MaxOutDeg}
    ensures !g.directed ==>
              summary.Keys == if |g.nodes| == 0 then {} else {MaxNode, MaxDeg}
    ensures g.directed && |g.nodes| > 0 ==>
              && IsFirstMaxNode(g, In, summary[MaxInNode], summary[MaxInDeg])
              && IsFirstMaxNode(g, Out, summary[MaxOutNode], summary[MaxOutDeg])
    ensures !g.directed && |g.nodes| > 0 ==>
              IsFirstMaxNode(g, Both, summary[MaxNode], summary[MaxDeg])
  {
    summary := map[];
    if g.directed {
      if |g.nodes| > 0 {
        summary := RecordMax(summary, g, In, MaxInNode, MaxInDeg);
      }
      if |g.nodes| > 0 {
        summary := RecordMax(summary, g, Out, MaxOutNode, MaxOutDeg);
      }
    } else {
      if |g.nodes| > 0 {
        summary := RecordMax(summary, g, Both, MaxNode, MaxDeg);
      }
    }
  }
}
