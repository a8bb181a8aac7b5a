/**
 * The dictionary `nx.single_source_shortest_path_length` returns, as a
 * sequence of (node, hop count) entries in discovery order.
 */
module Hops {
  import opened Graphs
  import opened Sequences

  /** One entry of the returned dictionary: a node and its hop count. */
  datatype Hop = Hop(node: Node, dist: nat)

  /** The dictionary's keys. */
  function HopNodes(lengths: seq<Hop>): set<Node>
    decreases |lengths|
  {
    if lengths == [] then {} else HopNodes(lengths[..|lengths| - 1]) + {lengths[|lengths| - 1].node}
  }

  /** `lengths.values()`, in dictionary order. */
  function HopDistances(lengths: seq<Hop>): (r: seq<nat>)
    ensures |r| == |lengths|
    ensures forall i :: 0 <= i < |lengths| ==> r[i] == lengths[i].dist
    decreases |lengths|
  {
    if lengths == [] then [] else HopDistances(lengths[..|lengths| - 1]) + [lengths[|lengths| - 1].dist]
  }

  /** Dictionary keys are unique: no entry repeats the node of an earlier one. */
  predicate DistinctNodes(lengths: seq<Hop>)
    decreases |lengths|
  {
    lengths == [] ||
    (DistinctNodes(lengths[..|lengths| - 1]) && lengths[|lengths| - 1].node !in HopNodes(lengths[..|lengths| - 1]))
  }

  /** a * b, written as repeated addition to keep the solver off nonlinear arithmetic. */
  function Times(a: nat, b: nat): nat {
    if b == 0 then 0 else a + Times(a, b - 1)
  }

  lemma SumSnoc(a: seq<nat>, x: nat)
    ensures Sum(a + [x]) == Sum(a) + x
  {
    SumAppend(a, [x]);
    assert Sum([x]) == x + Sum([]);
  }

  lemma HopsSnoc(before: seq<Hop>, h: Hop)
    ensures HopNodes(before + [h]) == HopNodes(before) + {h.node}
    ensures DistinctNodes(before + [h]) <==> DistinctNodes(before) && h.node !in HopNodes(before)
  {
    var r := before + [h];
    assert r[..|r| - 1] == before;
  }

  lemma HopsSnocSum(before: seq<Hop>, h: Hop)
    ensures Sum(HopDistances(before + [h])) == Sum(HopDistances(before)) + h.dist
  {
    var r := before + [h];
    assert r[..|r| - 1] == before;
    SumSnoc(HopDistances(before), h.dist);
  }

  /** Every entry's node is a key, and every key is the node of some entry. */
  lemma {:induction false} HopMembers(lengths: seq<Hop>)
    ensures forall i :: 0 <= i < |lengths| ==> lengths[i].node in HopNodes(lengths)
    ensures forall v :: v in HopNodes(lengths) ==> exists i :: 0 <= i < |lengths| && lengths[i].node == v
    decreases |lengths|
  {
    if lengths != [] {
      var init := lengths[..|lengths| - 1];
      HopMembers(init);
      assert lengths == init + [lengths[|lengths| - 1]];
      HopsSnoc(init, lengths[|lengths| - 1]);
      forall v | v in HopNodes(lengths) ensures exists i :: 0 <= i < |lengths| && lengths[i].node == v {
        if v in HopNodes(init) {
          var i :| 0 <= i < |init| && init[i].node == v;
          assert lengths[i] == init[i];
        } else {
          assert lengths[|lengths| - 1].node == v;
        }
      }
    }
  }

  /** Distinct keys: the dictionary has one entry per key. */
  lemma {:induction false} HopCount(lengths: seq<Hop>)
    requires DistinctNodes(lengths)
    ensures |HopNodes(lengths)| == |lengths|
    decreases |lengths|
  {
    if lengths != [] {
      HopCount(lengths[..|lengths| - 1]);
    }
  }

  lemma RemoveOne(layer: set<Node>, todo: set<Node>, w: Node)
    requires todo <= layer && w in todo
    ensures layer - (todo - {w}) == (layer - todo) + {w}
    ensures |layer - (todo - {w})| == |layer - todo| + 1
  {
  }

  /** Entries come out level by level: hop counts never decrease along the list. */
  predicate LevelOrder(lengths: seq<Hop>) {
    forall i, j :: 0 <= i < j < |lengths| ==> lengths[i].dist <= lengths[j].dist
  }

  /** added lists the nodes of done once each, all at hop count d. */
  predicate HopsAt(added: seq<Hop>, done: set<Node>, d: nat) {
    && DistinctNodes(added)
    && HopNodes(added) == done
    && (forall i :: 0 <= i < |added| ==> added[i].node in done && added[i].dist == d)
    && Sum(HopDistances(added)) == Times(d, |done|)
  }

  lemma HopsAtSnoc(added: seq<Hop>, done: set<Node>, w: Node, d: nat)
    requires HopsAt(added, done, d) && w !in done
    ensures HopsAt(added + [Hop(w, d)], done + {w}, d)
  {
    HopsSnoc(added, Hop(w, d));
    HopsSnocSum(added, Hop(w, d));
    assert |done + {w}| == |done| + 1;
  }

  lemma NonEmpty(s: set<Node>)
    requires s != {}
    ensures exists w :: w in s
  {
    if forall w :: w !in s {
      assert false;
    }
  }

  /** Some element of a non-empty set; which one is left open. */
  method Pick(s: set<Node>) returns (w: Node)
    requires s != {}
    ensures w in s
  {
    NonEmpty(s);
    w :| w in s;
  }

  /** Every node of a newly discovered layer, at hop count d, in some order. */
  method LayerHops(layer: set<Node>, d: nat) returns (added: seq<Hop>)
    ensures HopsAt(added, layer, d)
  {
    added := [];
    var todo := layer;
    assert layer - todo == {};
    while todo != {}
      invariant todo <= layer
      invariant HopsAt(added, layer - todo, d)
      decreases |todo|
    {
      var w := Pick(todo);
      HopsAtSnoc(added, layer - todo, w, d);
      RemoveOne(layer, todo, w);
      added := added + [Hop(w, d)];
      todo := todo - {w};
    }
  }

  /** Concatenating two entry lists: the keys combine. */
  lemma {:induction false} HopsAppendNodes(a: seq<Hop>, b: seq<Hop>)
    ensures HopNodes(a + b) == HopNodes(a) + HopNodes(b)
    decreases |b|
  {
    if b == [] {
      assert a + b == a;
    } else {
      var init, x := b[..|b| - 1], b[|b| - 1];
      assert b == init + [x];
      assert a + b == (a + init) + [x];
      HopsAppendNodes(a, init);
      HopsSnoc(a + init, x);
      HopsSnoc(init, x);
    }
  }

  /** Keys stay unique when the two lists' keys do not overlap. */
  lemma {:induction false} HopsAppendDistinct(a: seq<Hop>, b: seq<Hop>)
    requires DistinctNodes(a) && DistinctNodes(b) && HopNodes(a) !! HopNodes(b)
    ensures DistinctNodes(a + b)
    decreases |b|
  {
    if b != [] {
      var init, x := b[..|b| - 1], b[|b| - 1];
      assert b == init + [x];
      assert a + b == (a + init) + [x];
      HopsSnoc(init, x);
      HopsAppendDistinct(a, init);
      HopsAppendNodes(a, init);
      HopsSnoc(a + init, x);
    } else {
      assert a + b == a;
    }
  }

  /** Concatenating two entry lists adds their hop counts. */
  lemma {:induction false} HopsAppendSum(a: seq<Hop>, b: seq<Hop>)
    ensures Sum(HopDistances(a + b)) == Sum(HopDistances(a)) + Sum(HopDistances(b))
    decreases |b|
  {
    if b == [] {
      assert a + b == a;
    } else {
      var init, x := b[..|b| - 1], b[|b| - 1];
      assert b == init + [x];
      assert a + b == (a + init) + [x];
      HopsAppendSum(a, init);
      HopsSnocSum(a + init, x);
      HopsSnocSum(init, x);
    }
  }
}
