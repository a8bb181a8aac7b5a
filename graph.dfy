/**
 * The graph store: a directed or undirected simple graph built from an
 * already parsed sequence of (src, dst) rows, the way networkx's
 * DiGraph / Graph are filled by `from_pandas_edgelist`.
 *
 * Nodes are kept in first-appearance order (the order of networkx's node
 * dictionary) and each edge is stored once, at its first occurrence; in an
 * undirected graph (u, v) and (v, u) are the same edge. Self-loops are kept.
 */
module Graphs {

  /** Node labels of the benchmark edge lists are integers. */
  type Node = int

  datatype Edge = Edge(src: Node, dst: Node)

  datatype Graph = Graph(directed: bool, nodes: seq<Node>, edges: seq<Edge>)

  predicate Distinct(s: seq<Node>) {
    forall i, j :: 0 <= i < j < |s| ==> s[i] != s[j]
  }

  function NodeSet(g: Graph): set<Node> {
    set v | v in g.nodes
  }

  /** Two stored edges denote the same connection. */
  predicate SameEdge(a: Edge, b: Edge, directed: bool) {
    a == b || (!directed && a.src == b.dst && a.dst == b.src)
  }

  /** The edge list already holds the connection u -> v (or u -- v). */
  predicate HasEdge(edges: seq<Edge>, directed: bool, u: Node, v: Node) {
    Edge(u, v) in edges || (!directed && Edge(v, u) in edges)
  }

  predicate NoDuplicates(edges: seq<Edge>, directed: bool) {
    forall i, j :: 0 <= i < j < |edges| ==> !SameEdge(edges[i], edges[j], directed)
  }

  /** The representation invariant every networkx graph satisfies. */
  predicate Valid(g: Graph) {
    && Distinct(g.nodes)
    && (forall e :: e in g.edges ==> e.src in g.nodes && e.dst in g.nodes)
    && NoDuplicates(g.edges, g.directed)
  }

  function AddNode(nodes: seq<Node>, v: Node): (r: seq<Node>)
    ensures forall x :: x in r <==> x in nodes || x == v
    ensures Distinct(nodes) ==> Distinct(r)
    ensures v in nodes ==> r == nodes
  {
    if v in nodes then nodes else nodes + [v]
  }

  /** `add_edge(u, v)` on the edge part: a repeated connection collapses. */
  function InsertEdge(edges: seq<Edge>, directed: bool, u: Node, v: Node): seq<Edge> {
    if HasEdge(edges, directed, u, v) then edges else edges + [Edge(u, v)]
  }

  /** Nodes registered by the rows, in first-appearance order. */
  function NodesFrom(pairs: seq<Edge>): seq<Node>
    decreases |pairs|
  {
    if pairs == [] then []
    else
      var e := pairs[|pairs| - 1];
      AddNode(AddNode(NodesFrom(pairs[..|pairs| - 1]), e.src), e.dst)
  }

  /** Edges stored for the rows, first occurrence of each connection. */
  function EdgesFrom(pairs: seq<Edge>, directed: bool): seq<Edge>
    decreases |pairs|
  {
    if pairs == [] then []
    else
      var e := pairs[|pairs| - 1];
      InsertEdge(EdgesFrom(pairs[..|pairs| - 1], directed), directed, e.src, e.dst)
  }

  /** The graph `load_edgelist` builds from its parsed rows. */
  function FromEdgeList(pairs: seq<Edge>, directed: bool): Graph {
    Graph(directed, NodesFrom(pairs), EdgesFrom(pairs, directed))
  }

  /** `G.to_undirected()`: same nodes, reciprocal edges collapsed. */
  function ToUndirected(g: Graph): Graph {
    Graph(false, g.nodes, EdgesFrom(g.edges, false))
  }

  /** The undirected graph the distance estimator and density work on. */
  function Projection(g: Graph): Graph {
    if g.directed then ToUndirected(g) else g
  }

  function Endpoints(pairs: seq<Edge>): set<Node> {
    (set e | e in pairs :: e.src) + (set e | e in pairs :: e.dst)
  }

  // ---------------------------------------------------------------------
  // Properties of the construction
  // ---------------------------------------------------------------------

  lemma EndpointsSnoc(init: seq<Edge>, e: Edge)
    ensures Endpoints(init + [e]) == Endpoints(init) + {e.src, e.dst}
  {
    var p := init + [e];
    assert (set x | x in p :: x.src) == (set x | x in init :: x.src) + {e.src};
    assert (set x | x in p :: x.dst) == (set x | x in init :: x.dst) + {e.dst};
  }

  lemma {:induction false} NodesFromDistinct(pairs: seq<Edge>)
    ensures Distinct(NodesFrom(pairs))
    decreases |pairs|
  {
    if pairs != [] {
      NodesFromDistinct(pairs[..|pairs| - 1]);
    }
  }

  lemma {:induction false} NodesFromMembers(pairs: seq<Edge>)
    ensures forall v :: v in NodesFrom(pairs) <==> v in Endpoints(pairs)
    decreases |pairs|
  {
    if pairs != [] {
      var init := pairs[..|pairs| - 1];
      var e := pairs[|pairs| - 1];
      NodesFromMembers(init);
      assert pairs == init + [e];
      EndpointsSnoc(init, e);
    }
  }

  /** The registered nodes are distinct and are exactly the row endpoints. */
  lemma NodesFromSpec(pairs: seq<Edge>)
    ensures Distinct(NodesFrom(pairs))
    ensures forall v :: v in NodesFrom(pairs) <==> v in Endpoints(pairs)
  {
    NodesFromDistinct(pairs);
    NodesFromMembers(pairs);
  }

  lemma {:induction false} EdgesFromSpec(pairs: seq<Edge>, directed: bool)
    ensures NoDuplicates(EdgesFrom(pairs, directed), directed)
    ensures forall e :: e in EdgesFrom(pairs, directed) ==> e in pairs
    ensures forall u, v :: HasEdge(EdgesFrom(pairs, directed), directed, u, v) <==> HasEdge(pairs, directed, u, v)
    ensures |EdgesFrom(pairs, directed)| <= |pairs|
    decreases |pairs|
  {
    if pairs != [] {
      var init := pairs[..|pairs| - 1];
      var e := pairs[|pairs| - 1];
      var es := EdgesFrom(init, directed);
      EdgesFromSpec(init, directed);
      assert pairs == init + [e];
      if !HasEdge(es, directed, e.src, e.dst) {
        var r := es + [e];
        forall i, j | 0 <= i < j < |r| ensures !SameEdge(r[i], r[j], directed) {
          if j == |es| {
            assert es[i] in es;
          }
        }
        forall u, v ensures HasEdge(r, directed, u, v) <==> HasEdge(pairs, directed, u, v) {
          assert HasEdge(es, directed, u, v) <==> HasEdge(init, directed, u, v);
          assert Edge(u, v) in r <==> Edge(u, v) in es || Edge(u, v) == e;
          assert Edge(v, u) in r <==> Edge(v, u) in es || Edge(v, u) == e;
          assert Edge(u, v) in pairs <==> Edge(u, v) in init || Edge(u, v) == e;
          assert Edge(v, u) in pairs <==> Edge(v, u) in init || Edge(v, u) == e;
        }
      }
    }
  }

  /** Rebuilding from rows that hold no repeated connection keeps them as they are. */
  lemma {:induction false} EdgesFromNoDuplicates(pairs: seq<Edge>, directed: bool)
    requires NoDuplicates(pairs, directed)
    ensures EdgesFrom(pairs, directed) == pairs
    decreases |pairs|
  {
    if pairs != [] {
      var init := pairs[..|pairs| - 1];
      var e := pairs[|pairs| - 1];
      assert NoDuplicates(init, directed);
      EdgesFromNoDuplicates(init, directed);
      forall i | 0 <= i < |init| ensures !SameEdge(init[i], e, directed) {
        assert init[i] == pairs[i];
      }
      assert !HasEdge(init, directed, e.src, e.dst);
      assert pairs == init + [e];
    }
  }

  /** Every graph `load_edgelist` builds satisfies the representation invariant. */
  lemma FromEdgeListValid(pairs: seq<Edge>, directed: bool)
    ensures Valid(FromEdgeList(pairs, directed))
    ensures FromEdgeList(pairs, directed).directed == directed
  {
    NodesFromSpec(pairs);
    EdgesFromSpec(pairs, directed);
    var g := FromEdgeList(pairs, directed);
    forall e | e in g.edges ensures e.src in g.nodes && e.dst in g.nodes {
      assert e in pairs;
      assert e.src in Endpoints(pairs) && e.dst in Endpoints(pairs);
    }
  }

  /**
   * Nodes are auto-registered: the node set is exactly the set of row
   * endpoints. The edge relation is exactly the rows (taken in both
   * directions when undirected), and repeated rows collapse.
   */
  lemma FromEdgeListContents(pairs: seq<Edge>, directed: bool)
    ensures NodeSet(FromEdgeList(pairs, directed)) == Endpoints(pairs)
    ensures forall u, v :: HasEdge(FromEdgeList(pairs, directed).edges, directed, u, v) <==>
                           (Edge(u, v) in pairs || (!directed && Edge(v, u) in pairs))
    ensures |FromEdgeList(pairs, directed).edges| <= |pairs|
  {
    NodesFromSpec(pairs);
    EdgesFromSpec(pairs, directed);
  }

  /** An edge repeated in the rows gives the same graph as one occurrence of it. */
  lemma RepeatedRowCollapses(pairs: seq<Edge>, directed: bool, e: Edge)
    requires e in pairs
    ensures FromEdgeList(pairs + [e], directed) == FromEdgeList(pairs, directed)
  {
    var ext := pairs + [e];
    assert ext[..|ext| - 1] == pairs;
    NodesFromSpec(pairs);
    EdgesFromSpec(pairs, directed);
    assert HasEdge(pairs, directed, e.src, e.dst);
    assert e.src in Endpoints(pairs) && e.dst in Endpoints(pairs);
  }

  /** In an undirected graph a reversed row adds nothing. */
  lemma ReversedRowCollapses(pairs: seq<Edge>, u: Node, v: Node)
    requires Edge(u, v) in pairs
    ensures FromEdgeList(pairs + [Edge(v, u)], false) == FromEdgeList(pairs, false)
  {
    var ext := pairs + [Edge(v, u)];
    assert ext[..|ext| - 1] == pairs;
    NodesFromSpec(pairs);
    EdgesFromSpec(pairs, false);
    assert HasEdge(pairs, false, v, u);
    assert u in Endpoints(pairs) && v in Endpoints(pairs);
  }

  lemma {:induction false} NodesFromStored(pairs: seq<Edge>, directed: bool)
    ensures NodesFrom(EdgesFrom(pairs, directed)) == NodesFrom(pairs)
    decreases |pairs|
  {
    if pairs != [] {
      var init := pairs[..|pairs| - 1];
      var e := pairs[|pairs| - 1];
      var es := EdgesFrom(init, directed);
      NodesFromStored(init, directed);
      if HasEdge(es, directed, e.src, e.dst) {
        EdgesFromSpec(init, directed);
        NodesFromSpec(init);
        assert HasEdge(init, directed, e.src, e.dst);
        assert e.src in Endpoints(init) && e.dst in Endpoints(init);
      } else {
        var ext := es + [e];
        assert ext[..|ext| - 1] == es;
      }
    }
  }

  /**
   * Round trip: loading the stored edge sequence of a loaded graph (kept in
   * row order) again gives the same graph (same node order, same edges), so
   * every degree table computed from it is the same too.
   */
  lemma RebuildFromEdges(pairs: seq<Edge>, directed: bool)
    ensures FromEdgeList(FromEdgeList(pairs, directed).edges, directed) == FromEdgeList(pairs, directed)
  {
    EdgesFromSpec(pairs, directed);
    EdgesFromNoDuplicates(EdgesFrom(pairs, directed), directed);
    NodesFromStored(pairs, directed);
  }

  /**
   * Node order is first-appearance order: a row appends its source and then
   * its target, each only when it is new.
   */
  lemma NodesFromAppends(pairs: seq<Edge>, e: Edge)
    ensures var before := NodesFrom(pairs);
            var mid := if e.src in before then before else before + [e.src];
            NodesFrom(pairs + [e]) == if e.dst in mid then mid else mid + [e.dst]
  {
    assert (pairs + [e])[..|pairs|] == pairs;
  }

  /** Later rows never reorder the nodes registered by earlier ones. */
  lemma {:induction false} NodesFromPrefix(pairs: seq<Edge>, more: seq<Edge>)
    ensures NodesFrom(pairs) <= NodesFrom(pairs + more)
    decreases |more|
  {
    if more == [] {
      assert pairs + more == pairs;
    } else {
      var init := more[..|more| - 1];
      var e := more[|more| - 1];
      assert pairs + more == (pairs + init) + [e];
      NodesFromPrefix(pairs, init);
      NodesFromAppends(pairs + init, e);
    }
  }

  /** The undirected projection is a valid undirected graph on the same nodes. */
  lemma ProjectionValid(g: Graph)
    requires Valid(g)
    ensures Valid(Projection(g)) && !Projection(g).directed
    ensures Projection(g).nodes == g.nodes
    ensures forall u, v :: HasEdge(Projection(g).edges, false, u, v) <==> HasEdge(g.edges, false, u, v)
    ensures |Projection(g).edges| <= |g.edges|
  {
    EdgesFromSpec(g.edges, false);
    if !g.directed {
      assert NoDuplicates(g.edges, false);
    }
  }
}
