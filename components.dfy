/**
 * `nx.connected_components` / `nx.weakly_connected_components`: nodes are
 * visited in node order, and every node not yet seen starts a search whose
 * reachable set is the next component. Reachability ignores edge direction,
 * so for a directed graph these are the weakly connected components.
 *
 * `biggest_component_fraction` then picks the first component of maximal
 * size and reports its share of the nodes.
 */
module Components {
  import opened Graphs
  import opened Sequences
  import opened Reachability
  import opened Hops
  import opened ShortestPaths

  /** The components yielded while scanning todo, given the nodes already seen. */
  function ComponentsFrom(g: Graph, todo: seq<Node>, seen: set<Node>): seq<set<Node>>
    decreases |todo|
  {
    if todo == [] then []
    else if todo[0] in seen then ComponentsFrom(g, todo[1..], seen)
    else [Reach(g, todo[0])] + ComponentsFrom(g, todo[1..], seen + Reach(g, todo[0]))
  }

  /** `list(nx.connected_components(G))`, in the order networkx yields them. */
  function ComponentList(g: Graph): seq<set<Node>> {
    ComponentsFrom(g, g.nodes, {})
  }

  function Union(cs: seq<set<Node>>): set<Node> {
    if cs == [] then {} else cs[0] + Union(cs[1..])
  }

  /** c is a whole component: non-empty, and exactly what each member reaches. */
  predicate IsComponent(g: Graph, c: set<Node>) {
    c != {} && forall u :: u in c ==> u in g.nodes && Reach(g, u) == c
  }

  /** A set of nodes that holds everything its members reach. */
  predicate Closed(g: Graph, seen: set<Node>) {
    forall u :: u in seen ==> Reach(g, u) <= seen
  }

  predicate InNodes(g: Graph, todo: seq<Node>) {
    forall i :: 0 <= i < |todo| ==> todo[i] in g.nodes
  }

  // ---------------------------------------------------------------------
  // The scan
  // ---------------------------------------------------------------------

  lemma ReachIsComponent(g: Graph, v: Node)
    requires Valid(g) && v in g.nodes
    ensures IsComponent(g, Reach(g, v))
  {
    ReachBasics(g, v);
    forall u | u in Reach(g, v) ensures u in g.nodes && Reach(g, u) == Reach(g, v) {
      ReachSame(g, v, u);
    }
  }

  /** A node outside a closed set reaches nothing inside it. */
  lemma ReachAvoidsClosed(g: Graph, seen: set<Node>, v: Node)
    requires Valid(g) && v in g.nodes && v !in seen
    requires Closed(g, seen)
    ensures Reach(g, v) !! seen
    ensures Closed(g, seen + Reach(g, v))
  {
    ReachBasics(g, v);
    forall w | w in Reach(g, v) ensures w !in seen {
      ReachSame(g, v, w);
    }
    forall u | u in seen + Reach(g, v) ensures Reach(g, u) <= seen + Reach(g, v) {
      if u in Reach(g, v) {
        ReachSame(g, v, u);
      }
    }
  }

  /** Each yielded set is a component, none of it seen before the scan. */
  lemma {:induction false} ComponentsFromAreComponents(g: Graph, todo: seq<Node>, seen: set<Node>)
    requires Valid(g) && InNodes(g, todo) && Closed(g, seen)
    ensures forall i :: 0 <= i < |ComponentsFrom(g, todo, seen)| ==>
              IsComponent(g, ComponentsFrom(g, todo, seen)[i]) && ComponentsFrom(g, todo, seen)[i] !! seen
    decreases |todo|
  {
    if todo != [] {
      var v := todo[0];
      assert InNodes(g, todo[1..]) by {
        forall i | 0 <= i < |todo[1..]| ensures todo[1..][i] in g.nodes {
          assert todo[1..][i] == todo[i + 1];
        }
      }
      if v in seen {
        ComponentsFromAreComponents(g, todo[1..], seen);
      } else {
        ReachAvoidsClosed(g, seen, v);
        ReachIsComponent(g, v);
        ComponentsFromAreComponents(g, todo[1..], seen + Reach(g, v));
      }
    }
  }

  /** Yielded components are pairwise disjoint. */
  lemma {:induction false} ComponentsFromDisjoint(g: Graph, todo: seq<Node>, seen: set<Node>)
    requires Valid(g) && InNodes(g, todo) && Closed(g, seen)
    ensures forall i, j :: 0 <= i < j < |ComponentsFrom(g, todo, seen)| ==>
              ComponentsFrom(g, todo, seen)[i] !! ComponentsFrom(g, todo, seen)[j]
    decreases |todo|
  {
    if todo != [] {
      var v := todo[0];
      assert InNodes(g, todo[1..]) by {
        forall i | 0 <= i < |todo[1..]| ensures todo[1..][i] in g.nodes {
          assert todo[1..][i] == todo[i + 1];
        }
      }
      if v in seen {
        ComponentsFromDisjoint(g, todo[1..], seen);
      } else {
        var seen' := seen + Reach(g, v);
        ReachAvoidsClosed(g, seen, v);
        ComponentsFromDisjoint(g, todo[1..], seen');
        ComponentsFromAreComponents(g, todo[1..], seen');
      }
    }
  }

  /** Every scanned node ends up seen before or inside a yielded component. */
  lemma {:induction false} ComponentsFromCover(g: Graph, todo: seq<Node>, seen: set<Node>)
    requires Valid(g) && InNodes(g, todo)
    ensures forall i :: 0 <= i < |todo| ==> todo[i] in seen + Union(ComponentsFrom(g, todo, seen))
    ensures Union(ComponentsFrom(g, todo, seen)) <= NodeSet(g)
    decreases |todo|
  {
    if todo != [] {
      var v := todo[0];
      assert InNodes(g, todo[1..]) by {
        forall i | 0 <= i < |todo[1..]| ensures todo[1..][i] in g.nodes {
          assert todo[1..][i] == todo[i + 1];
        }
      }
      if v in seen {
        ComponentsFromCover(g, todo[1..], seen);
        forall i | 0 <= i < |todo| ensures todo[i] in seen + Union(ComponentsFrom(g, todo, seen)) {
          if i > 0 {
            assert todo[i] == todo[1..][i - 1];
          }
        }
      } else {
        var seen' := seen + Reach(g, v);
        var rest := ComponentsFrom(g, todo[1..], seen');
        ReachBasics(g, v);
        ComponentsFromCover(g, todo[1..], seen');
        assert ([Reach(g, v)] + rest)[1..] == rest;
        assert Union(ComponentsFrom(g, todo, seen)) == Reach(g, v) + Union(rest);
        forall i | 0 <= i < |todo| ensures todo[i] in seen + Union(ComponentsFrom(g, todo, seen)) {
          if i > 0 {
            assert todo[i] == todo[1..][i - 1];
          }
        }
      }
    }
  }

  lemma {:induction false} UnionMembers(cs: seq<set<Node>>, v: Node)
    ensures v in Union(cs) <==> exists i :: 0 <= i < |cs| && v in cs[i]
    decreases |cs|
  {
    if cs != [] {
      UnionMembers(cs[1..], v);
      if v in Union(cs[1..]) {
        var i :| 0 <= i < |cs[1..]| && v in cs[1..][i];
        assert v in cs[i + 1];
      }
      if exists i :: 0 <= i < |cs| && v in cs[i] {
        var i :| 0 <= i < |cs| && v in cs[i];
        if i > 0 {
          assert v in cs[1..][i - 1];
        }
      }
    }
  }

  lemma NodesInNodes(g: Graph)
    ensures InNodes(g, g.nodes)
  {
  }

  /**
   * The components partition the nodes: each is a component, they are
   * pairwise disjoint, together they hold every node, the component of every
   * node is among them, and no edge leaves a component.
   */
  lemma ComponentsPartition(g: Graph)
    requires Valid(g)
    ensures forall i :: 0 <= i < |ComponentList(g)| ==> IsComponent(g, ComponentList(g)[i])
    ensures forall i, j :: 0 <= i < j < |ComponentList(g)| ==> ComponentList(g)[i] !! ComponentList(g)[j]
    ensures Union(ComponentList(g)) == NodeSet(g)
    ensures forall v :: v in g.nodes ==> Reach(g, v) in ComponentList(g)
  {
    var cs := ComponentList(g);
    NodesInNodes(g);
    ComponentsFromAreComponents(g, g.nodes, {});
    ComponentsFromDisjoint(g, g.nodes, {});
    ComponentsFromCover(g, g.nodes, {});
    forall v | v in g.nodes ensures Reach(g, v) in cs {
      UnionMembers(cs, v);
      var i :| 0 <= i < |cs| && v in cs[i];
      assert cs[i] in cs;
    }
  }

  /** No edge joins two different components. */
  lemma ComponentsClosed(g: Graph, c: set<Node>, e: Edge)
    requires Valid(g) && IsComponent(g, c) && e in g.edges
    ensures e.src in c <==> e.dst in c
  {
    NonEmpty(c);
    var u :| u in c;
    ReachClosed(g, u, e);
  }

  /** There are no components exactly when there are no nodes. */
  lemma ComponentsEmpty(g: Graph)
    requires Valid(g)
    ensures ComponentList(g) == [] <==> |g.nodes| == 0
  {
    if |g.nodes| > 0 {
      assert g.nodes[0] !in {};
    }
  }

  // ---------------------------------------------------------------------
  // The generator, as a loop
  // ---------------------------------------------------------------------

  /** networkx's `_plain_bfs`: the node set a search from v reaches. */
  method PlainBfs(g: Graph, v: Node) returns (c: set<Node>)
    requires Valid(g) && v in g.nodes
    ensures c == Reach(g, v)
  {
    var lengths := ShortestPathLengths(g, v);
    c := HopNodes(lengths);
  }

  method ConnectedComponents(g: Graph) returns (comps: seq<set<Node>>)
    requires Valid(g)
    ensures comps == ComponentList(g)
  {
    comps := [];
    var seen := {};
    for i := 0 to |g.nodes|
      invariant comps + ComponentsFrom(g, g.nodes[i..], seen) == ComponentList(g)
    {
      var v := g.nodes[i];
      assert g.nodes[i..][1..] == g.nodes[i + 1..];
      if v !in seen {
        var c := PlainBfs(g, v);
        assert comps + ComponentsFrom(g, g.nodes[i..], seen) == (comps + [c]) + ComponentsFrom(g, g.nodes[i + 1..], seen + c);
        comps := comps + [c];
        seen := seen + c;
      }
    }
    assert g.nodes[|g.nodes|..] == [];
  }

  // ---------------------------------------------------------------------
  // biggest_component_fraction
  // ---------------------------------------------------------------------

  function Sizes(cs: seq<set<Node>>): (r: seq<nat>)
    ensures |r| == |cs| && forall i :: 0 <= i < |cs| ==> r[i] == |cs[i]|
  {
    if cs == [] then [] else [|cs[0]|] + Sizes(cs[1..])
  }

  /** `max(comps, key=len)`: the first component of maximal size. */
  function Largest(cs: seq<set<Node>>): (c: set<Node>)
    requires |cs| > 0
    ensures c in cs
    ensures forall d :: d in cs ==> |d| <= |c|
    ensures exists i :: 0 <= i < |cs| && cs[i] == c && forall j :: 0 <= j < i ==> |cs[j]| < |c|
  {
    var i := FirstMaxIndex(Sizes(cs));
    assert forall d :: d in cs ==> |d| <= |cs[i]| by {
      forall d | d in cs ensures |d| <= |cs[i]| {
        var j :| 0 <= j < |cs| && cs[j] == d;
        assert Sizes(cs)[j] <= Sizes(cs)[i];
      }
    }
    cs[i]
  }

  datatype ComponentFraction = ComponentFraction(fraction: real, largest: set<Node>)

  method BiggestComponentFraction(g: Graph) returns (r: ComponentFraction)
    requires Valid(g)
    ensures |g.nodes| == 0 ==> r == ComponentFraction(0.0, {})
    ensures |g.nodes| > 0 ==>
              && r.largest == Largest(ComponentList(g))
              && r.fraction == Ratio(|r.largest|, |g.nodes|)
  {
    var comps := ConnectedComponents(g);
    ComponentsEmpty(g);
    if comps == [] {
      assert |g.nodes| == 0;
      return ComponentFraction(0.0, {});
    }
    var largest := Largest(comps);
    r := ComponentFraction(Ratio(|largest|, |g.nodes|), largest);
  }

  /**
   * The reported component is the component of one of its nodes, it is at
   * least as large as every component, and its share of the nodes lies in
   * (0, 1].
   */
  lemma LargestFraction(g: Graph)
    requires Valid(g) && |g.nodes| > 0
    ensures IsComponent(g, Largest(ComponentList(g)))
    ensures forall v :: v in g.nodes ==> |Reach(g, v)| <= |Largest(ComponentList(g))|
    ensures 0 < |Largest(ComponentList(g))| <= |g.nodes|
    ensures 0.0 < Ratio(|Largest(ComponentList(g))|, |g.nodes|) <= 1.0
  {
    var cs := ComponentList(g);
    ComponentsEmpty(g);
    ComponentsPartition(g);
    var c := Largest(cs);
    var i :| 0 <= i < |cs| && cs[i] == c;
    assert IsComponent(g, c);
    forall u | u in c ensures u in NodeSet(g) {
    }
    SubsetSize(c, NodeSet(g));
    DistinctNodeSetSize(g.nodes);
  }
}
