/** `Tree` and `SteinerTree` of graph.py. Python subclasses become composition here: a tree
    owns its graph, a Steiner tree owns its tree, and the call that Python dispatches back
    to the subclass (`Graph.del_node` calling `SteinerTree.del_edge`) is made visible by
    `Tree.DelNode` returning the edge it deleted. */
module SteinerTrees {
  import opened Base
  import opened Edges
  import opened Sorting
  import opened Adjacencies
  import opened Graphs

  class Tree {
    const graph: Graph

    constructor ()
      ensures fresh(graph) && graph.State() == Adjacency(map[], map[])
    {
      graph := new Graph();
    }

    /** `is_leaf(n)`. */
    predicate IsLeaf(n: Node)
      reads graph
    {
      Order(graph.State(), n) == 1
    }

    /** `del_node(n)`: only a leaf or an isolated node may go; `false` is the `GraphError`. */
    method DelNode(n: Node) returns (ok: bool, removed: Option<Edge>)
      requires Simple(graph.State())
      modifies graph
      ensures ok <==> Order(old(graph.State()), n) <= 1
      ensures ok ==> (graph.State(), removed) == WithoutLeaf(old(graph.State()), n)
      ensures !ok ==> graph.State() == old(graph.State()) && removed == None
    {
      if IsLeaf(n) || Order(graph.State(), n) == 0 {
        removed := graph.DelNode(n);
        ok := true;
      } else {
        ok, removed := false, None;
      }
    }

    /** `get_leaves()`: the nodes of degree one, each once. */
    method GetLeaves() returns (leaves: seq<Node>)
      ensures NoDup(leaves) && forall n :: n in leaves <==> IsLeaf(n)
    {
      var ns := graph.GetNodes();
      leaves := [];
      var i := 0;
      while i < |ns|
        invariant 0 <= i <= |ns|
        invariant NoDup(leaves) && forall n :: n in leaves <==> n in ns[..i] && IsLeaf(n)
      {
        if IsLeaf(ns[i]) {
          assert ns[i] !in ns[..i];
          NoDupAppend(leaves, ns[i]);
          leaves := leaves + [ns[i]];
        }
        assert ns[..i + 1] == ns[..i] + [ns[i]];
        i := i + 1;
      }
      assert ns[..|ns|] == ns;
      forall n | IsLeaf(n) ensures n in ns {
        assert n in graph.nodes;
      }
    }
  }

  class SteinerTree {
    const tree: Tree
    var terminals: set<Node>
    var cost: real

    /** The graph part of the tree, as a value. */
    function State(): Adjacency
      reads tree.graph
    {
      tree.graph.State()
    }

    /** The running `cost` is the weight of the distinct edges stored. */
    ghost predicate Valid()
      reads this, tree.graph
    {
      Simple(State()) && cost == Total(EdgeSet(State()))
    }

    constructor ()
      ensures fresh(tree) && fresh(tree.graph)
      ensures State() == Adjacency(map[], map[]) && terminals == {} && cost == 0.0
      ensures Valid()
    {
      tree := new Tree();
      terminals := {};
      cost := 0.0;
    }

    /** `copy()`: a fresh Steiner tree built by inserting every distinct edge, then every
        terminal, and finally taking over the running cost. Nodes without edges that are not
        terminals are not carried over. */
    method Copy() returns (st: SteinerTree)
      requires Simple(State())
      ensures fresh(st) && fresh(st.tree) && fresh(st.tree.graph)
      ensures Simple(st.State()) && st.State().edges == State().edges
      ensures forall n | n in st.State().nodes :: n in State().nodes || n in terminals
      ensures st.terminals == terminals && st.cost == cost
      ensures Valid() ==> st.Valid()
    {
      st := new SteinerTree();
      var es := tree.graph.GetEdges();
      var i := 0;
      while i < |es|
        invariant 0 <= i <= |es| && fresh(st) && fresh(st.tree) && fresh(st.tree.graph)
        invariant Simple(st.State()) && st.terminals == {}
        invariant CopiedSoFar(st.State(), State(), es[..i])
      {
        ghost var b := st.State();
        var _ := st.AddEdge(es[i]);
        CopyStep(b, State(), es, i);
        i := i + 1;
      }
      assert es[..|es|] == es;
      CopiedAll(st.State(), State(), es);
      st.AddTerminals(terminals);
      st.cost := cost;
    }

    /** `add_terminal(n)`: the node is created if absent and marked as a terminal. */
    method AddTerminal(n: Node)
      modifies this, tree.graph
      ensures State() == WithNode(old(State()), n).0
      ensures terminals == old(terminals) + {n} && cost == old(cost)
      ensures old(Valid()) ==> Valid()
    {
      if n !in tree.graph.nodes {
        var _ := tree.graph.AddNode(n);
      }
      terminals := terminals + {n};
    }

    /** The `add_terminal` calls of `copy()`, one per terminal. */
    method AddTerminals(ts: set<Node>)
      modifies this, tree.graph
      ensures terminals == old(terminals) + ts && cost == old(cost)
      ensures State().edges == old(State()).edges
      ensures Simple(old(State())) ==> Simple(State())
      ensures forall n | n in State().nodes :: n in old(State()).nodes || n in ts
    {
      var rest := ts;
      while rest != {}
        invariant rest <= ts && terminals == old(terminals) + (ts - rest) && cost == old(cost)
        invariant State().edges == old(State()).edges
        invariant Simple(old(State())) ==> Simple(State())
        invariant forall n | n in State().nodes :: n in old(State()).nodes || n in ts - rest
        decreases rest
      {
        var t :| t in rest;
        AddTerminal(t);
        rest := rest - {t};
      }
    }

    /** `add_edge(e)`: the weight is charged only when the insertion succeeded. Replacing a
        different edge over a linked pair charges the new weight without refunding the old. */
    method AddEdge(e: Edge) returns (added: bool)
      modifies this, tree.graph
      ensures (State(), added) == WithEdge(old(State()), e)
      ensures terminals == old(terminals)
      ensures added ==> cost == old(cost) + e.weight
      ensures !added ==> cost == old(cost)
      ensures old(Valid()) && Proper(e) && FreeFor(old(State()), e) ==> Valid()
      ensures old(Valid()) && Proper(e) && !FreeFor(old(State()), e) ==>
        added && cost == Total(EdgeSet(State())) + old(State()).edges[(e.u, e.v)].weight
    {
      ghost var a := State();
      added := tree.graph.AddEdge(e);
      if added {
        cost := cost + e.weight;
      }
      if old(Valid()) && Proper(e) {
        if FreeFor(a, e) {
          AddedKeepsCost(a, e);
        } else {
          ReplacedDriftsCost(a, e);
        }
      }
    }

    /** `del_terminal(n)`: `false` is the `GraphError` for a node that is not a terminal. */
    method DelTerminal(n: Node) returns (ok: bool)
      modifies this
      ensures ok <==> n in old(terminals)
      ensures terminals == old(terminals) - {n} && cost == old(cost)
    {
      ok := n in terminals;
      terminals := terminals - {n};
    }

    /** `del_edge(e)`: the weight of `e` is refunded after a successful deletion. */
    method DelEdge(e: Edge) returns (ok: bool)
      requires Simple(State())
      modifies this, tree.graph
      ensures ok == WithoutEdge(old(State()), e).Some?
      ensures ok ==> State() == WithoutEdge(old(State()), e).value && cost == old(cost) - e.weight
      ensures !ok ==> State() == HalfWithoutEdge(old(State()), e) && cost == old(cost)
      ensures terminals == old(terminals)
      ensures old(Valid()) && FreeFor(old(State()), e) ==> Valid()
      ensures ok && old(Valid()) && !FreeFor(old(State()), e) ==>
        cost == Total(EdgeSet(State())) + old(State()).edges[(e.u, e.v)].weight - e.weight
    {
      ghost var a := State();
      ok := tree.graph.DelEdge(e);
      if ok {
        cost := cost - e.weight;
        if old(Valid()) && FreeFor(a, e) {
          DeletedKeepsCost(a, e);
        } else if old(Valid()) {
          DeletedDriftsCost(a, e);
        }
      } else {
        HalfWithoutEdgeHarmless(a, e);
      }
    }

    /** `del_node(n)`: terminals are refused; otherwise `Tree.del_node`, whose edge deletion
        dispatches back to `del_edge` above and so refunds the edge it removes. */
    method DelNode(n: Node) returns (ok: bool)
      requires Simple(State())
      modifies this, tree.graph
      ensures ok <==> n !in old(terminals) && Order(old(State()), n) <= 1
      ensures ok ==> State() == WithoutLeaf(old(State()), n).0
      ensures ok && WithoutLeaf(old(State()), n).1.Some? ==>
        cost == old(cost) - WithoutLeaf(old(State()), n).1.value.weight
      ensures ok && WithoutLeaf(old(State()), n).1.None? ==> cost == old(cost)
      ensures !ok ==> State() == old(State()) && cost == old(cost)
      ensures terminals == old(terminals)
      ensures old(Valid()) ==> Valid()
    {
      if n in terminals {
        ok := false;
      } else {
        ghost var a := State();
        var removed;
        ok, removed := tree.DelNode(n);
        if removed.Some? {
          cost := cost - removed.value.weight;
        }
        if ok && old(Valid()) {
          LeafKeepsCost(a, n);
        }
      }
    }

    /** `del_useless_edges()`: one pass over the nodes, in ascending order of their degree at
        the start, deleting each non-terminal that is a leaf when the pass reaches it. The
        order among nodes of equal degree is the dictionary's, returned as `order`. */
    method DelUselessEdges() returns (ghost order: seq<Node>)
      requires Simple(State())
      modifies this, tree.graph
      ensures NoDup(order) && (forall n :: n in order <==> n in old(State()).nodes)
      ensures var a := old(State()); SortedBy(order, n => Order(a, n) as real)
      ensures State() == Prune(old(State()), terminals, order)
      ensures terminals == old(terminals) && cost <= old(cost)
      ensures old(Valid()) ==> Valid()
    {
      var a := State();
      var ns := tree.graph.GetNodes();
      var sorted := SortBy(ns, n => Order(a, n) as real);
      SortedNoDup(ns, sorted);
      order := sorted;
      var i := 0;
      while i < |sorted|
        invariant 0 <= i <= |sorted| && Simple(State()) && terminals == old(terminals)
        invariant Prune(State(), terminals, sorted[i..]) == Prune(a, terminals, sorted)
        invariant cost <= old(cost) && (old(Valid()) ==> Valid())
      {
        PruneVisit(sorted[i]);
        assert sorted[i..][1..] == sorted[i + 1..];
        i := i + 1;
      }
    }

    /** One iteration of the pass in `del_useless_edges`. */
    method PruneVisit(n: Node)
      requires Simple(State())
      modifies this, tree.graph
      ensures Simple(State()) && terminals == old(terminals) && cost <= old(cost)
      ensures State() == if Order(old(State()), n) == 1 && n !in terminals then WithoutLeaf(old(State()), n).0 else old(State())
      ensures old(Valid()) ==> Valid()
    {
      if tree.IsLeaf(n) && n !in terminals {
        ghost var a := State();
        WithoutLeafSpec(a, n);
        var ok := DelNode(n);
        if WithoutLeaf(a, n).1.Some? {
          StoredProper(a, WithoutLeaf(a, n).1.value);
        }
      }
    }
  }

  /** Sorting a duplicate-free list keeps it duplicate-free and keeps its elements. */
  lemma SortedNoDup<T>(s: seq<T>, r: seq<T>)
    requires NoDup(s) && multiset(r) == multiset(s)
    ensures NoDup(r) && forall x :: x in r <==> x in s
  {
    forall x ensures x in r <==> x in s {
      assert x in r <==> x in multiset(r);
      assert x in s <==> x in multiset(s);
    }
    forall i, j | 0 <= i < j < |r| ensures r[i] != r[j] {
      if r[i] == r[j] {
        assert multiset(r)[r[i]] >= 2 by {
          assert r == r[..i] + [r[i]] + r[i + 1..j] + [r[j]] + r[j + 1..];
        }
        NoDupCount(s, r[i]);
      }
    }
  }

  /** No element of a duplicate-free list occurs more than once in it. */
  lemma {:induction false} NoDupCount<T>(s: seq<T>, x: T)
    requires NoDup(s)
    ensures multiset(s)[x] <= 1
  {
    if s != [] {
      assert s == [s[0]] + s[1..];
      assert NoDup(s[1..]);
      NoDupCount(s[1..], x);
      if s[0] == x {
        assert x !in s[1..];
      }
    }
  }

  /** `b` holds exactly the edges `es` so far, each under the same keys as in `a`. */
  ghost predicate CopiedSoFar(b: Adjacency, a: Adjacency, es: seq<Edge>) {
    && (forall p | p in b.edges :: p in a.edges && b.edges[p] == a.edges[p])
    && (forall e :: e in EdgeSet(b) <==> e in es)
    && (forall n | n in b.nodes :: n in a.nodes)
  }

  /** Each distinct edge of a simple graph finds its pair free in the copy, so inserting it
      adds exactly that edge under the keys it has in the original. */
  lemma CopyStep(b: Adjacency, a: Adjacency, es: seq<Edge>, i: nat)
    requires Simple(a) && Simple(b) && NoDup(es) && i < |es|
    requires forall e :: e in es <==> e in EdgeSet(a)
    requires CopiedSoFar(b, a, es[..i])
    ensures Simple(WithEdge(b, es[i]).0) && CopiedSoFar(WithEdge(b, es[i]).0, a, es[..i + 1])
  {
    var E := es[i];
    CopyFresh(b, a, es, i);
    WithEdgeFresh(b, E);
    assert WithEdge(b, E) == Link(b, E);
    var c := WithEdge(b, E).0;
    QueriesAgree(a, E.u, E.v);
    CopiedEdgeSet(b, c, es, i);
    CopiedKeys(b, c, a, E);
  }

  /** The copy's distinct edges grow by the edge inserted, as the prefix of the list does. */
  lemma CopiedEdgeSet(b: Adjacency, c: Adjacency, es: seq<Edge>, i: nat)
    requires i < |es| && EdgeSet(c) == EdgeSet(b) + {es[i]}
    requires forall e :: e in EdgeSet(b) <==> e in es[..i]
    ensures forall e :: e in EdgeSet(c) <==> e in es[..i + 1]
  {
    assert es[..i + 1] == es[..i] + [es[i]];
  }

  /** Storing `E` under both of its orders, as the original does, keeps the copy's keys and
      nodes within the original's. */
  lemma CopiedKeys(b: Adjacency, c: Adjacency, a: Adjacency, E: Edge)
    requires forall p | p in b.edges :: p in a.edges && b.edges[p] == a.edges[p]
    requires forall n | n in b.nodes :: n in a.nodes
    requires GetEdge(a, E.u, E.v) == Some(E) && GetEdge(a, E.v, E.u) == Some(E)
    requires GetEdge(c, E.u, E.v) == Some(E) && GetEdge(c, E.v, E.u) == Some(E)
    requires forall p | p != (E.u, E.v) && p != (E.v, E.u) :: GetEdge(c, p.0, p.1) == GetEdge(b, p.0, p.1)
    requires E.u in a.nodes && E.v in a.nodes
    requires forall n | n != E.u && n != E.v :: Neighbours(c, n) == Neighbours(b, n) && (n in c.nodes <==> n in b.nodes)
    ensures forall p | p in c.edges :: p in a.edges && c.edges[p] == a.edges[p]
    ensures forall n | n in c.nodes :: n in a.nodes
  {
    forall p | p in c.edges ensures p in a.edges && c.edges[p] == a.edges[p] {
      var (x, y) := p;
      assert GetEdge(c, x, y).Some?;
      if p != (E.u, E.v) && p != (E.v, E.u) {
        assert GetEdge(b, x, y) == GetEdge(c, x, y);
      }
    }
  }

  /** The pair of the next edge to copy is still free in the copy. */
  lemma CopyFresh(b: Adjacency, a: Adjacency, es: seq<Edge>, i: nat)
    requires Simple(a) && NoDup(es) && i < |es|
    requires forall e :: e in es <==> e in EdgeSet(a)
    requires CopiedSoFar(b, a, es[..i])
    ensures Proper(es[i]) && (es[i].u, es[i].v) in a.edges && a.edges[(es[i].u, es[i].v)] == es[i]
    ensures (es[i].u, es[i].v) !in b.edges
  {
    var E := es[i];
    StoredProper(a, E);
    assert E !in es[..i];
  }

  /** Once every distinct edge is in, the copy's edge map is the original's. */
  lemma CopiedAll(b: Adjacency, a: Adjacency, es: seq<Edge>)
    requires Simple(a) && Simple(b) && CopiedSoFar(b, a, es)
    requires forall e :: e in es <==> e in EdgeSet(a)
    ensures b.edges == a.edges
  {
    forall p | p in a.edges ensures p in b.edges {
      var E := a.edges[p];
      assert E in EdgeSet(a);
      StoredProper(b, E);
      StoredOnlyUnder(a, E.u, E.v);
      StoredProper(a, E);
      QueriesAgree(b, E.u, E.v);
    }
  }

  /** Inserting an edge whose pair is free charges exactly the weight that joins the sum. */
  lemma AddedKeepsCost(a: Adjacency, e: Edge)
    requires Simple(a) && Proper(e) && FreeFor(a, e)
    ensures var (b, added) := WithEdge(a, e);
      && Simple(b)
      && Total(EdgeSet(b)) == Total(EdgeSet(a)) + (if added then e.weight else 0.0)
  {
    if (e.u, e.v) in a.edges {
      QueriesAgree(a, e.u, e.v);
      assert SameEdgeStored(a, e);
    } else {
      WithEdgeFresh(a, e);
      TotalAdd(EdgeSet(a), e);
    }
  }

  /** Inserting a different edge over a linked pair replaces the stored one, so the running
      cost ends up above the sum of the stored weights by the weight of the edge replaced. */
  lemma ReplacedDriftsCost(a: Adjacency, e: Edge)
    requires Simple(a) && Proper(e) && !FreeFor(a, e)
    ensures var (b, added) := WithEdge(a, e);
      && added && Total(EdgeSet(a)) + e.weight == Total(EdgeSet(b)) + a.edges[(e.u, e.v)].weight
  {
    var E := a.edges[(e.u, e.v)];
    QueriesAgree(a, e.u, e.v);
    WithEdgeReplaces(a, e);
    var b := WithEdge(a, e).0;
    if e in EdgeSet(a) {
      StoredProper(a, e);
    }
    TotalRemove(EdgeSet(a), E);
    TotalAdd(EdgeSet(a) - {E}, e);
  }

  /** Deleting the edge that is stored over its own pair refunds exactly its weight. */
  lemma DeletedKeepsCost(a: Adjacency, e: Edge)
    requires Simple(a) && FreeFor(a, e) && WithoutEdge(a, e).Some?
    ensures var b := WithoutEdge(a, e).value;
      Simple(b) && Total(EdgeSet(b)) == Total(EdgeSet(a)) - e.weight
  {
    WithoutEdgeSpec(a, e);
    assert a.edges[(e.u, e.v)] in a.edges.Values;
    TotalRemove(EdgeSet(a), e);
  }

  /** Deleting through a different edge object over a linked pair removes the stored edge
      but refunds the weight of the edge passed: the stored weight leaves the sum while
      `del_edge` subtracts `e.weight`, so the running cost drifts by their difference. */
  lemma DeletedDriftsCost(a: Adjacency, e: Edge)
    requires Simple(a) && !FreeFor(a, e) && WithoutEdge(a, e).Some?
    ensures var b := WithoutEdge(a, e).value;
      && Simple(b) && a.edges[(e.u, e.v)] != e
      && Total(EdgeSet(b)) == Total(EdgeSet(a)) - a.edges[(e.u, e.v)].weight
  {
    WithoutEdgeSpec(a, e);
    var b := WithoutEdge(a, e).value;
    WithoutEdgeSet(a, e.u, e.v, b);
    assert a.edges[(e.u, e.v)] in a.edges.Values;
    TotalRemove(EdgeSet(a), a.edges[(e.u, e.v)]);
  }

  /** Deleting a leaf refunds the weight of the edge it had. */
  lemma LeafKeepsCost(a: Adjacency, n: Node)
    requires Simple(a) && Order(a, n) <= 1
    ensures var (b, removed) := WithoutLeaf(a, n);
      && Simple(b)
      && Total(EdgeSet(b)) == Total(EdgeSet(a)) - (if removed.Some? then removed.value.weight else 0.0)
  {
    WithoutLeafSpec(a, n);
    var removed := WithoutLeaf(a, n).1;
    if removed.Some? {
      TotalRemove(EdgeSet(a), removed.value);
    }
  }
}
