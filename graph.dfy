/** The containers of graph.py: an undirected graph, a tree that only lets leaves go, and a
    Steiner tree that protects its terminals and keeps a running cost. Each class holds the
    dictionaries the source mutates; its methods are proved against `Adjacencies`. */
module Graphs {
  import opened Base
  import opened Edges
  import opened Adjacencies
  import opened Sorting
  import opened Partition
  import opened UnionFinds
  import opened Spanning
  import opened Forests

  class Graph {
    var nodes: map<Node, seq<Node>>
    var edges: map<(Node, Node), Edge>

    function State(): Adjacency
      reads this
    {
      Adjacency(nodes, edges)
    }

    constructor ()
      ensures State() == Adjacency(map[], map[]) && Simple(State())
    {
      nodes, edges := map[], map[];
    }

    /** `add_node(n)`. */
    method AddNode(n: Node) returns (added: bool)
      modifies this
      ensures (State(), added) == WithNode(old(State()), n)
    {
      if n !in nodes {
        nodes := nodes[n := []];
        return true;
      }
      return false;
    }

    /** `add_edge(e)`: the three refusals of the `try` block, then the insertion. */
    method AddEdge(e: Edge) returns (added: bool)
      modifies this
      ensures (State(), added) == WithEdge(old(State()), e)
    {
      if e.v in nodes && e.u in nodes[e.v] && e.u in nodes {
        if e.v in nodes[e.u] && (e.u, e.v) in edges && edges[(e.u, e.v)] == e
           && (e.v, e.u) in edges && edges[(e.v, e.u)] == e {
          return false;
        }
        if e.v !in nodes[e.u] {
          return false;
        }
      } else if e.v in nodes && e.u !in nodes[e.v] && e.u in nodes && e.v in nodes[e.u] {
        return false;
      }
      var _ := AddNode(e.u);
      var _ := AddNode(e.v);
      nodes := nodes[e.u := nodes[e.u] + [e.v]];
      nodes := nodes[e.v := nodes[e.v] + [e.u]];
      edges := edges[(e.u, e.v) := e][(e.v, e.u) := e];
      return true;
    }

    /** `del_edge(e)`; `false` stands for the `GraphError`, raised either by the test of
        line 150 or by a `pop` of a missing key, after which the first `pop` stays done. */
    method DelEdge(e: Edge) returns (ok: bool)
      modifies this
      ensures ok == WithoutEdge(old(State()), e).Some?
      ensures State() == if ok then WithoutEdge(old(State()), e).value else HalfWithoutEdge(old(State()), e)
    {
      if e.v !in Neighbours(State(), e.u) || e.u !in Neighbours(State(), e.v) {
        return false;
      }
      if (e.u, e.v) !in edges {
        return false;
      }
      ghost var all := edges;
      edges := edges - {(e.u, e.v)};
      if (e.v, e.u) !in edges {
        return false;
      }
      edges := edges - {(e.v, e.u)};
      assert edges == all - {(e.u, e.v), (e.v, e.u)};
      var lu, lv := RemoveFirst(nodes[e.u], e.v), RemoveFirst(nodes[e.v], e.u);
      DropBoth(nodes, e.u, e.v, lu, lv);
      nodes := nodes[e.u := lu][e.v := lv];
      if |lu| == 0 {
        nodes := nodes - {e.u};
      }
      if |lv| == 0 {
        nodes := nodes - {e.v};
      }
      return true;
    }

    /** `del_node(n)` for a node of degree at most one (the only way `Tree.del_node` calls
        it); the removed edge, if any, is returned for the caller's cost. */
    method DelNode(n: Node) returns (removed: Option<Edge>)
      requires Simple(State()) && Order(State(), n) <= 1
      modifies this
      ensures (State(), removed) == WithoutLeaf(old(State()), n)
    {
      if |Neighbours(State(), n)| == 1 {
        // deleting the last edge already pops `n`, so the final `pop` finds nothing
        var E := DelLeafEdge(n);
        removed := Some(E);
      } else {
        nodes := nodes - {n};
        removed := None;
      }
    }

    /** The `del_edge` call `del_node` makes for the single neighbour of a leaf. */
    method DelLeafEdge(n: Node) returns (E: Edge)
      requires Simple(State()) && Order(State(), n) == 1
      modifies this
      ensures State() == WithoutLeaf(old(State()), n).0 && n !in nodes
      ensures WithoutLeaf(old(State()), n).1 == Some(E)
    {
      LeafEdgeDeletable(State(), n);
      E := edges[(nodes[n][0], n)];
      var ok := DelEdge(E);
    }

    /** `get_edges()`: every distinct edge object once, in some order. */
    method GetEdges() returns (es: seq<Edge>)
      ensures NoDup(es) && forall e :: e in es <==> e in EdgeSet(State())
    {
      var rest := edges.Values;
      es := [];
      while rest != {}
        invariant NoDup(es) && (forall e :: e in es || e in rest <==> e in edges.Values)
        invariant forall e | e in es :: e !in rest
        decreases rest
      {
        var e :| e in rest;
        NoDupAppend(es, e);
        es := es + [e];
        rest := rest - {e};
      }
    }

    /** `get_nodes()`: every node once, in some order. */
    method GetNodes() returns (ns: seq<Node>)
      ensures NoDup(ns) && forall n :: n in ns <==> n in nodes
    {
      var rest := nodes.Keys;
      ns := [];
      while rest != {}
        invariant NoDup(ns) && (forall n :: n in ns || n in rest <==> n in nodes)
        invariant forall n | n in ns :: n !in rest
        decreases rest
      {
        var n :| n in rest;
        NoDupAppend(ns, n);
        ns := ns + [n];
        rest := rest - {n};
      }
    }

    /** `get_mst_kruskal()`: the distinct edges sorted by weight, each kept when a find of
        either endpoint gives different roots, followed by a union of the two. */
    method GetMstKruskal() returns (mst: seq<Edge>)
      ensures forall e | e in mst :: e in EdgeSet(State())
      ensures forall k, l | 0 <= k < l < |mst| :: mst[k].weight <= mst[l].weight
      ensures Acyclic(mst)
      ensures forall e | e in EdgeSet(State()) :: Connected(mst, e.u, e.v)
      ensures forall t | SpanningForest(t, EdgeSet(State())) :: SumWeights(mst) <= SumWeights(t)
    {
      var es := GetEdges();
      var sorted := SortBy(es, Weight);
      ghost var idx;
      mst, idx := KruskalLoop(sorted);
      KruskalResult(es, sorted, mst, idx);
      forall t | SpanningForest(t, EdgeSet(State())) ensures SumWeights(mst) <= SumWeights(t) {
        KruskalMinimal(es, sorted, mst, idx, t);
      }
    }
  }

  /** The `for` loop of `get_mst_kruskal` over the sorted edges, with a fresh forest. */
  method KruskalLoop(sorted: seq<Edge>) returns (mst: seq<Edge>, ghost idx: seq<nat>)
    ensures Picked(mst, sorted, idx, |sorted|) && Acyclic(mst)
    ensures forall k | 0 <= k < |sorted| :: Connected(mst, sorted[k].u, sorted[k].v)
    ensures Greedy(mst, sorted, idx, |sorted|)
  {
    var forest := new UnionFind();
    mst, idx := [], [];
    var i := 0;
    while i < |sorted|
      invariant 0 <= i <= |sorted|
      invariant forest.Valid() && Tracks(forest.parent, forest.rank, forest.bound, mst)
      invariant Picked(mst, sorted, idx, i)
      invariant Acyclic(mst)
      invariant forall k | 0 <= k < i :: Connected(mst, sorted[k].u, sorted[k].v)
      invariant Greedy(mst, sorted, idx, i)
    {
      mst, idx := KruskalRound(forest, sorted, i, mst, idx);
      i := i + 1;
    }
  }

  /** One iteration of Kruskal's loop, on `sorted[i]`. */
  method KruskalRound(forest: UnionFind, sorted: seq<Edge>, i: nat, mst: seq<Edge>, ghost idx: seq<nat>)
    returns (mst': seq<Edge>, ghost idx': seq<nat>)
    requires i < |sorted|
    requires forest.Valid() && Tracks(forest.parent, forest.rank, forest.bound, mst)
    requires Picked(mst, sorted, idx, i) && Acyclic(mst)
    requires forall k | 0 <= k < i :: Connected(mst, sorted[k].u, sorted[k].v)
    requires Greedy(mst, sorted, idx, i)
    modifies forest
    ensures forest.Valid() && Tracks(forest.parent, forest.rank, forest.bound, mst')
    ensures Picked(mst', sorted, idx', i + 1) && Acyclic(mst')
    ensures forall k | 0 <= k < i + 1 :: Connected(mst', sorted[k].u, sorted[k].v)
    ensures Greedy(mst', sorted, idx', i + 1)
    ensures mst' == mst || mst' == mst + [sorted[i]]
  {
    var e := sorted[i];
    var joined := KruskalVisit(forest, mst, e);
    KruskalStep(mst, sorted, i, joined);
    PickedStep(mst, sorted, idx, i, joined);
    GreedyStep(mst, sorted, idx, i, joined);
    if joined {
      mst', idx' := mst + [e], idx + [i];
    } else {
      mst', idx' := mst, idx;
    }
  }

  /** `mst` is the subsequence of `sorted[..i]` at the increasing positions `idx`. */
  ghost predicate Picked(mst: seq<Edge>, sorted: seq<Edge>, idx: seq<nat>, i: nat) {
    && |idx| == |mst|
    && (forall k | 0 <= k < |mst| :: idx[k] < i && idx[k] < |sorted| && mst[k] == sorted[idx[k]])
    && (forall k, l | 0 <= k < l < |mst| :: idx[k] < idx[l])
  }

  lemma PickedStep(mst: seq<Edge>, sorted: seq<Edge>, idx: seq<nat>, i: nat, joined: bool)
    requires Picked(mst, sorted, idx, i) && i < |sorted|
    ensures joined ==> Picked(mst + [sorted[i]], sorted, idx + [i], i + 1)
    ensures !joined ==> Picked(mst, sorted, idx, i + 1)
  {
  }

  /** The greedy choice: the ends of each of the first `i` sorted edges are already connected
      by the kept edges that come before any kept edge of a later position. */
  ghost predicate Greedy(mst: seq<Edge>, sorted: seq<Edge>, idx: seq<nat>, i: nat) {
    forall k, p | 0 <= k < i && k < |sorted| && 0 <= p <= |mst| && (p == |mst| || (p < |idx| && k < idx[p])) ::
      Connected(mst[..p], sorted[k].u, sorted[k].v)
  }

  /** One round of the loop keeps the greedy choice: an edge is kept exactly when the kept
      edges so far leave its ends apart. */
  lemma GreedyStep(mst: seq<Edge>, sorted: seq<Edge>, idx: seq<nat>, i: nat, joined: bool)
    requires Picked(mst, sorted, idx, i) && Greedy(mst, sorted, idx, i) && i < |sorted|
    requires joined <==> !Connected(mst, sorted[i].u, sorted[i].v)
    ensures joined ==> Greedy(mst + [sorted[i]], sorted, idx + [i], i + 1)
    ensures !joined ==> Greedy(mst, sorted, idx, i + 1)
  {
    var e := sorted[i];
    if joined {
      var mst', idx' := mst + [e], idx + [i];
      forall k, p | 0 <= k < i + 1 && k < |sorted| && 0 <= p <= |mst'| && (p == |mst'| || (p < |idx'| && k < idx'[p]))
        ensures Connected(mst'[..p], sorted[k].u, sorted[k].v)
      {
        if p == |mst'| {
          assert mst'[..p] == mst + [e];
          if k < i {
            assert Connected(mst[..|mst|], sorted[k].u, sorted[k].v);
            assert mst[..|mst|] == mst;
          }
          ConnectedGrows(mst, e, sorted[k].u, sorted[k].v);
        } else {
          assert mst'[..p] == mst[..p];
        }
      }
    } else {
      forall k, p | 0 <= k < i + 1 && k < |sorted| && 0 <= p <= |mst| && (p == |mst| || (p < |idx| && k < idx[p]))
        ensures Connected(mst[..p], sorted[k].u, sorted[k].v)
      {
        if k == i {
          assert mst[..p] == mst;
        }
      }
    }
  }

  /** Kruskal's forest weighs no more than any spanning forest of the same edges. Both have
      as many edges, and for every `i` fewer than `i + 1` edges of the other forest are
      lighter than `mst[i]`. */
  lemma KruskalMinimal(es: seq<Edge>, sorted: seq<Edge>, mst: seq<Edge>, idx: seq<nat>, t: seq<Edge>)
    requires SortedBy(sorted, Weight) && multiset(sorted) == multiset(es)
    requires Picked(mst, sorted, idx, |sorted|) && Greedy(mst, sorted, idx, |sorted|) && Acyclic(mst)
    requires SpanningForest(t, set e | e in es)
    ensures SumWeights(mst) <= SumWeights(t)
  {
    KruskalSameSize(es, sorted, mst, idx, t);
    forall i | 0 <= i < |mst| ensures |Lighter(t, mst[i].weight)| <= i {
      KruskalFewerLighter(es, sorted, mst, idx, t, i);
    }
    forall k, l | 0 <= k < l < |mst| ensures mst[k].weight <= mst[l].weight {
      assert Weight(sorted[idx[k]]) <= Weight(sorted[idx[l]]);
    }
    SumDominated(mst, t);
  }

  /** Kruskal's forest has as many edges as any spanning forest of the same edges: each
      connects the ends of the other's edges (`Forests.Augment` both ways). */
  lemma KruskalSameSize(es: seq<Edge>, sorted: seq<Edge>, mst: seq<Edge>, idx: seq<nat>, t: seq<Edge>)
    requires multiset(sorted) == multiset(es)
    requires Picked(mst, sorted, idx, |sorted|) && Greedy(mst, sorted, idx, |sorted|) && Acyclic(mst)
    requires SpanningForest(t, set e | e in es)
    ensures |t| == |mst|
  {
    assert mst[..|mst|] == mst;
    forall d | d in t ensures Connected(mst, d.u, d.v) {
      assert d in multiset(sorted);
      var k :| 0 <= k < |sorted| && sorted[k] == d;
    }
    Augment(mst, t);
    forall d | d in mst ensures Connected(t, d.u, d.v) {
      var k :| 0 <= k < |mst| && mst[k] == d;
      assert sorted[idx[k]] in multiset(es);
    }
    Augment(t, mst);
  }

  /** At most `i` edges of a spanning forest are lighter than `mst[i]`. They all come before
      `mst[i]` in the sorted order, so the first `i` kept edges connect their ends, and an
      acyclic list whose ends `i` acyclic edges connect has at most `i` edges. */
  lemma KruskalFewerLighter(es: seq<Edge>, sorted: seq<Edge>, mst: seq<Edge>, idx: seq<nat>, t: seq<Edge>, i: nat)
    requires SortedBy(sorted, Weight) && multiset(sorted) == multiset(es)
    requires Picked(mst, sorted, idx, |sorted|) && Greedy(mst, sorted, idx, |sorted|) && Acyclic(mst)
    requires SpanningForest(t, set e | e in es)
    requires i < |mst|
    ensures |Lighter(t, mst[i].weight)| <= i
  {
    var w := mst[i].weight;
    var l := Lighter(t, w);
    LighterMembers(t, w);
    LighterAcyclic(t, w);
    AcyclicPrefix(mst, i);
    forall d | d in l ensures Connected(mst[..i], d.u, d.v) {
      assert d in multiset(sorted);
      var k :| 0 <= k < |sorted| && sorted[k] == d;
      assert Weight(sorted[k]) < Weight(sorted[idx[i]]);
    }
    Augment(mst[..i], l);
  }

  /** What the end of Kruskal's loop gives: the kept edges follow the sorted order, so their
      weights never decrease, and all of them are among the input edges, all of which they
      connect. */
  lemma KruskalResult(es: seq<Edge>, sorted: seq<Edge>, mst: seq<Edge>, idx: seq<nat>)
    requires SortedBy(sorted, Weight) && multiset(sorted) == multiset(es)
    requires Picked(mst, sorted, idx, |sorted|)
    requires forall k | 0 <= k < |sorted| :: Connected(mst, sorted[k].u, sorted[k].v)
    ensures forall k, l | 0 <= k < l < |mst| :: mst[k].weight <= mst[l].weight
    ensures forall e | e in mst :: e in es
    ensures forall e | e in es :: Connected(mst, e.u, e.v)
  {
    forall k, l | 0 <= k < l < |mst|
      ensures mst[k].weight <= mst[l].weight
    {
      assert Weight(sorted[idx[k]]) <= Weight(sorted[idx[l]]);
    }
    forall e | e in es
      ensures Connected(mst, e.u, e.v)
    {
      assert e in multiset(es);
      assert e in sorted;
    }
    forall e | e in mst
      ensures e in es
    {
      var k :| 0 <= k < |mst| && mst[k] == e;
      assert sorted[idx[k]] in multiset(sorted);
    }
  }

  /** The body of Kruskal's loop for one edge: a find of each endpoint, then a union when
      the roots differ; `joined` says whether the edge was kept. */
  method KruskalVisit(forest: UnionFind, mst: seq<Edge>, e: Edge) returns (joined: bool)
    requires forest.Valid() && Tracks(forest.parent, forest.rank, forest.bound, mst)
    modifies forest
    ensures forest.Valid()
    ensures joined ==> Tracks(forest.parent, forest.rank, forest.bound, mst + [e])
    ensures !joined ==> Tracks(forest.parent, forest.rank, forest.bound, mst)
    ensures joined <==> !Connected(mst, e.u, e.v)
  {
    var ru := FindTracked(forest, mst, e.u);
    var rv := FindTracked(forest, mst, e.v);
    joined := ru != rv;
    if joined {
      ghost var p2, k2, n2 := forest.parent, forest.rank, forest.bound;
      forest.Union(e.u, e.v);
      TracksUnion(p2, k2, n2, forest.parent, forest.rank, forest.bound, mst, e, forest.Rep(e.u));
    }
  }

  /** `forest[x]` inside Kruskal's loop: the root of `x`, with the forest still mirroring the
      classes of `mst`, old representatives kept, and nodes that pointed straight at their
      root still doing so. */
  method FindTracked(forest: UnionFind, mst: seq<Edge>, x: Node) returns (r: Node)
    requires forest.Valid() && Tracks(forest.parent, forest.rank, forest.bound, mst)
    modifies forest
    ensures forest.Valid() && Tracks(forest.parent, forest.rank, forest.bound, mst)
    ensures x in forest.parent && r == forest.Rep(x) && forest.parent[x] == r
    ensures r in forest.parent && forest.parent[r] == r
    ensures forall y | y in old(forest.parent) :: y in forest.parent && forest.Rep(y) == old(forest.Rep(y))
    ensures forall y | y in old(forest.parent) && old(forest.parent[y]) == old(forest.Rep(y)) ::
      forest.parent[y] == old(forest.parent[y])
    ensures forall y | y in forest.parent :: y in old(forest.parent) || y == x
  {
    ghost var p0, k0, n0 := forest.parent, forest.rank, forest.bound;
    ghost var walk;
    forall y | y in p0 && p0[y] == RootOf(p0, k0, n0, y)
      ensures p0[y] in p0 && p0[p0[y]] == p0[y]
    {
      RootIsRoot(p0, k0, n0, y);
    }
    r, walk := forest.Find(x);
    TracksFind(p0, k0, n0, forest.parent, forest.rank, forest.bound, mst, x);
    RootIsRoot(forest.parent, forest.rank, forest.bound, x);
  }

  /** One round of Kruskal's loop on the partition: appending `sorted[i]` when its endpoints
      were apart keeps the list acyclic, and either way the first `i + 1` edges end up with
      connected endpoints. */
  lemma KruskalStep(mst: seq<Edge>, sorted: seq<Edge>, i: nat, joined: bool)
    requires i < |sorted| && Acyclic(mst)
    requires joined <==> !Connected(mst, sorted[i].u, sorted[i].v)
    requires forall k | 0 <= k < i :: Connected(mst, sorted[k].u, sorted[k].v)
    ensures joined ==> Acyclic(mst + [sorted[i]])
    ensures joined ==> forall k | 0 <= k < i + 1 :: Connected(mst + [sorted[i]], sorted[k].u, sorted[k].v)
    ensures !joined ==> forall k | 0 <= k < i + 1 :: Connected(mst, sorted[k].u, sorted[k].v)
  {
    if joined {
      AcyclicAppend(mst, sorted[i]);
      forall k | 0 <= k < i + 1
        ensures Connected(mst + [sorted[i]], sorted[k].u, sorted[k].v)
      {
        ConnectedGrows(mst, sorted[i], sorted[k].u, sorted[k].v);
      }
    }
  }
}
