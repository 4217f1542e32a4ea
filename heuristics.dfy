/** graph_utils.py beyond the path table: a Steiner tree built from Kruskal's forest, the
    H-algorithm (complete graph on the terminals, shortest paths substituted for its edges,
    spanning forest, pruning) and the neighbourhood move of the annealing search. A result
    `ok == false` stands for an exception escaping (a pair without a path, a step without
    an edge, an empty candidate set) or for the path reconstruction running past its fuel. */
module Heuristics {
  import opened Base
  import opened Edges
  import opened Adjacencies
  import opened Partition
  import opened Graphs
  import opened SteinerTrees
  import opened Paths

  // ----- make_tree_from_kruskal

  /** Every stored pair of `b` is stored in `a` with the same edge object. */
  ghost predicate SubMap(b: Adjacency, a: Adjacency) {
    forall p | p in b.edges :: p in a.edges && b.edges[p] == a.edges[p]
  }

  /** `Helper.make_tree_from_kruskal(graph, terminals)`: a fresh Steiner tree whose terminals
      are set directly, without adding them as nodes, and whose edges are those of Kruskal's
      forest of `g` in order. Each insertion finds its pair free, so every one succeeds, the
      tree holds exactly the forest and the running cost is the forest's weight. */
  method MakeTreeFromKruskal(g: Graph, terminals: set<Node>) returns (st: SteinerTree, ghost mst: seq<Edge>)
    requires Simple(g.State())
    ensures fresh(st) && fresh(st.tree) && fresh(st.tree.graph)
    ensures st.Valid() && st.terminals == terminals
    ensures (forall e :: e in EdgeSet(st.State()) <==> e in mst) && st.cost == SumWeights(mst)
    ensures SubMap(st.State(), g.State())
    ensures forall n | n in st.State().nodes :: n in g.State().nodes
    ensures Acyclic(mst) && forall e | e in mst :: e in EdgeSet(g.State())
    ensures forall k, l | 0 <= k < l < |mst| :: mst[k].weight <= mst[l].weight
    ensures forall e | e in EdgeSet(g.State()) :: Connected(mst, e.u, e.v)
  {
    st := new SteinerTree();
    st.terminals := terminals;
    var forest := g.GetMstKruskal();
    mst := forest;
    for i := 0 to |forest|
      invariant fresh(st) && fresh(st.tree) && fresh(st.tree.graph)
      invariant st.Valid() && st.terminals == terminals
      invariant (forall e :: e in EdgeSet(st.State()) <==> e in forest[..i]) && st.cost == SumWeights(forest[..i])
      invariant SubMap(st.State(), g.State())
      invariant forall n | n in st.State().nodes :: n in g.State().nodes
      invariant forall p | p in st.State().edges :: Connected(forest[..i], p.0, p.1)
    {
      InsertForestEdge(st, g, forest, i);
    }
    assert forest[..|forest|] == forest;
  }

  /** One round of the loop of `make_tree_from_kruskal`. */
  method InsertForestEdge(st: SteinerTree, g: Graph, forest: seq<Edge>, i: nat)
    requires Simple(g.State()) && Acyclic(forest) && i < |forest| && forest[i] in EdgeSet(g.State())
    requires st.Valid() && (forall e :: e in EdgeSet(st.State()) <==> e in forest[..i])
    requires st.cost == SumWeights(forest[..i])
    requires SubMap(st.State(), g.State()) && forall n | n in st.State().nodes :: n in g.State().nodes
    requires forall p | p in st.State().edges :: Connected(forest[..i], p.0, p.1)
    requires st.tree.graph != g
    modifies st, st.tree.graph
    ensures st.Valid() && st.terminals == old(st.terminals)
    ensures (forall e :: e in EdgeSet(st.State()) <==> e in forest[..i + 1])
    ensures st.cost == SumWeights(forest[..i + 1])
    ensures SubMap(st.State(), g.State()) && forall n | n in st.State().nodes :: n in g.State().nodes
    ensures forall p | p in st.State().edges :: Connected(forest[..i + 1], p.0, p.1)
  {
    ghost var b := st.State();
    var e := forest[i];
    ForestEdgeFree(b, g.State(), forest, i);
    WithEdgeFresh(b, e);
    var _ := st.AddEdge(e);
    SliceGrows(forest, i);
    CopiedEdgeSet(b, st.State(), forest, i);
    LinkedKeys(b, st.State(), g.State(), e, forest[..i]);
  }

  lemma SliceGrows<T>(s: seq<T>, i: nat)
    requires i < |s|
    ensures s[..i + 1] == s[..i] + [s[i]] && s[..i + 1][..i] == s[..i]
  {
  }

  /** The next edge of an acyclic list joins two nodes that the earlier edges keep apart,
      so a tree that only links pairs the earlier edges connect has its pair free. */
  lemma ForestEdgeFree(b: Adjacency, a: Adjacency, mst: seq<Edge>, i: nat)
    requires Consistent(a) && Acyclic(mst) && i < |mst| && mst[i] in EdgeSet(a)
    requires forall p | p in b.edges :: Connected(mst[..i], p.0, p.1)
    ensures Proper(mst[i]) && (mst[i].u, mst[i].v) in a.edges && a.edges[(mst[i].u, mst[i].v)] == mst[i]
    ensures (mst[i].u, mst[i].v) !in b.edges
  {
    StoredProper(a, mst[i]);
    assert !Connected(mst[..i], mst[i].u, mst[i].v);
  }

  /** Linking `e`, which `a` stores under its own pair, keeps `b` inside `a` and keeps every
      linked pair connected by the edges so far, `e` now included. */
  lemma LinkedKeys(b: Adjacency, c: Adjacency, a: Adjacency, e: Edge, es: seq<Edge>)
    requires Consistent(a) && (e.u, e.v) in a.edges && a.edges[(e.u, e.v)] == e
    requires SubMap(b, a) && forall n | n in b.nodes :: n in a.nodes
    requires forall p | p in b.edges :: Connected(es, p.0, p.1)
    requires c == Link(b, e).0
    ensures SubMap(c, a) && forall n | n in c.nodes :: n in a.nodes
    ensures forall p | p in c.edges :: Connected(es + [e], p.0, p.1)
  {
    assert (e.v, e.u) in a.edges && e.u in a.nodes && e.v in a.nodes;
    forall p | p in c.edges
      ensures p in a.edges && c.edges[p] == a.edges[p]
      ensures Connected(es + [e], p.0, p.1)
    {
      if p == (e.u, e.v) {
        assert GetEdge(c, e.u, e.v) == Some(e);
        ConnectedGrows(es, e, e.u, e.v);
      } else if p == (e.v, e.u) {
        assert GetEdge(c, e.v, e.u) == Some(e);
        ConnectedGrows(es, e, e.u, e.v);
        ConnectedSymmetric(es + [e], e.u, e.v);
      } else {
        assert GetEdge(c, p.0, p.1) == GetEdge(b, p.0, p.1);
        ConnectedGrows(es, e, p.0, p.1);
      }
    }
  }

  // ----- _get_subtree_from_root

  /** `y` is in the neighbour list of `x`: one step of the depth-first search. */
  ghost predicate Adjacent(a: Adjacency, x: Node, y: Node) {
    y in Neighbours(a, x)
  }

  ghost predicate IsWalk(a: Adjacency, w: seq<Node>) {
    forall m | 0 <= m < |w| - 1 :: Adjacent(a, w[m], w[m + 1])
  }

  /** `y` can be reached from `x` by following neighbour lists. */
  ghost predicate Reaches(a: Adjacency, x: Node, y: Node) {
    exists w :: IsWalk(a, w) && |w| >= 1 && w[0] == x && w[|w| - 1] == y
  }

  /** Every node that appears in the graph, as a key or in a neighbour list. */
  ghost function Mentioned(a: Adjacency): set<Node> {
    a.nodes.Keys + (set x, y | x in a.nodes && y in a.nodes[x] :: y)
  }

  /** No neighbour list leads out of `s`. */
  ghost predicate Closed(a: Adjacency, s: set<Node>) {
    forall x | x in s :: forall y | y in Neighbours(a, x) :: y in s
  }

  lemma ReachesSelf(a: Adjacency, x: Node)
    ensures Reaches(a, x, x)
  {
    assert IsWalk(a, [x]);
  }

  lemma ReachesPrepend(a: Adjacency, x: Node, y: Node, z: Node)
    requires Adjacent(a, x, y) && Reaches(a, y, z)
    ensures Reaches(a, x, z)
  {
    var w :| IsWalk(a, w) && |w| >= 1 && w[0] == y && w[|w| - 1] == z;
    var v := [x] + w;
    forall m | 0 <= m < |v| - 1
      ensures Adjacent(a, v[m], v[m + 1])
    {
      if m > 0 {
        assert v[m] == w[m - 1] && v[m + 1] == w[m];
      }
    }
    assert IsWalk(a, v);
  }

  /** A walk that starts inside a closed set stays inside it. */
  lemma {:induction false} ClosedKeepsWalk(a: Adjacency, s: set<Node>, w: seq<Node>)
    requires Closed(a, s) && IsWalk(a, w) && |w| >= 1 && w[0] in s
    ensures w[|w| - 1] in s
    decreases |w|
  {
    if |w| > 1 {
      var init := w[..|w| - 1];
      forall m | 0 <= m < |init| - 1
        ensures Adjacent(a, init[m], init[m + 1])
      {
        assert init[m] == w[m] && init[m + 1] == w[m + 1];
      }
      ClosedKeepsWalk(a, s, init);
      assert Adjacent(a, w[|w| - 2], w[|w| - 1]);
    }
  }

  /** `Neighborhood._get(tree, root, dic)`: marks `root`, then visits each neighbour not
      marked yet, in list order. The source only calls it on an unmarked node. Every newly
      marked node is reachable from `root`, and the neighbours of every newly marked node end
      up marked. */
  method Visit(g: Graph, root: Node, seen: set<Node>) returns (marked: set<Node>)
    requires root !in seen
    ensures seen + {root} <= marked
    ensures forall x | x in marked - seen :: Reaches(g.State(), root, x)
    ensures forall x | x in marked - seen :: forall y | y in Neighbours(g.State(), x) :: y in marked
    decreases Mentioned(g.State()) + {root} - seen
  {
    ghost var a := g.State();
    marked := seen + {root};
    ReachesSelf(a, root);
    var next := Neighbours(g.State(), root);
    for k := 0 to |next|
      invariant seen + {root} <= marked
      invariant forall x | x in marked - seen :: Reaches(a, root, x)
      invariant forall x | x in marked - seen - {root} :: forall y | y in Neighbours(a, x) :: y in marked
      invariant forall m | 0 <= m < k :: next[m] in marked
    {
      var i := next[k];
      if i !in marked {
        assert i in Mentioned(a) by {
          assert root in a.nodes && i in a.nodes[root];
        }
        assert Mentioned(a) + {i} - marked < Mentioned(a) + {root} - seen by {
          assert root !in Mentioned(a) + {i} - marked;
        }
        var more := Visit(g, i, marked);
        forall x | x in more - marked
          ensures Reaches(a, root, x)
        {
          ReachesPrepend(a, root, i, x);
        }
        forall x | x in more - seen - {root}
          ensures forall y | y in Neighbours(a, x) :: y in more
        {
          if x !in marked {
            assert x in more - marked;
          }
        }
        marked := more;
      }
    }
  }

  /** `Neighborhood._get_subtree_from_root(tree, root)`: exactly the nodes reachable from
      `root`, `root` included. */
  method Subtree(g: Graph, root: Node) returns (nodes: set<Node>)
    ensures forall x :: x in nodes <==> Reaches(g.State(), root, x)
  {
    nodes := Visit(g, root, {});
    forall x | Reaches(g.State(), root, x)
      ensures x in nodes
    {
      var w :| IsWalk(g.State(), w) && |w| >= 1 && w[0] == root && w[|w| - 1] == x;
      ClosedKeepsWalk(g.State(), nodes, w);
    }
  }

  // ----- HAlgorithm

  /** `get_path_cost(graph, min_path(i, j))` returns: the path is read out, has two nodes
      or more, and each of its steps is an edge of `a`. */
  predicate Costed(a: Adjacency, pred: Pred, fuel: nat, i: Node, j: Node) {
    MinPath(pred, i, j, fuel).Ok? && PathCost(a, MinPath(pred, i, j, fuel).value).Some?
  }

  /** Every ordered pair of two different terminals is costed. */
  predicate AllCosted(a: Adjacency, pred: Pred, fuel: nat, terminals: seq<Node>) {
    forall i, j | i in terminals && j in terminals && i != j :: Costed(a, pred, fuel, i, j)
  }

  /** An edge of the complete graph: it joins two different terminals and weighs what the
      shortest path between them costs in `a`. */
  ghost predicate Labelled(e: Edge, a: Adjacency, pred: Pred, fuel: nat, terminals: seq<Node>) {
    && e.u in terminals && e.v in terminals && e.u != e.v
    && Costed(a, pred, fuel, e.u, e.v)
    && PathCost(a, MinPath(pred, e.u, e.v, fuel).value) == Some(e.weight)
  }

  ghost predicate AllLabelled(b: Adjacency, a: Adjacency, pred: Pred, fuel: nat, terminals: seq<Node>) {
    forall p | p in b.edges :: Labelled(b.edges[p], a, pred, fuel, terminals)
  }

  /** `HAlgorithm.__complete_terminal_graph()`: for every terminal `i` and every other
      terminal `j`, a new edge from `i` to `j` weighing the cost of the shortest path. It
      raises exactly when some pair has no costed path; otherwise every pair of different
      terminals is linked, by an edge that says what its shortest path costs. The second
      edge of a pair replaces the first, so the neighbour lists repeat nodes. */
  method CompleteTerminalGraph(graph: Graph, terminals: seq<Node>, pred: Pred, fuel: nat) returns (ok: bool, g: Graph)
    requires Consistent(graph.State())
    ensures fresh(g)
    ensures ok <==> AllCosted(graph.State(), pred, fuel, terminals)
    ensures ok ==> Consistent(g.State()) && AllLabelled(g.State(), graph.State(), pred, fuel, terminals)
    ensures ok ==> forall i, j | i in terminals && j in terminals && i != j :: (i, j) in g.State().edges
  {
    g := new Graph();
    var id := 0;
    for x := 0 to |terminals|
      invariant fresh(g)
      invariant Consistent(g.State()) && AllLabelled(g.State(), graph.State(), pred, fuel, terminals)
      invariant forall i, j | i in terminals[..x] && j in terminals && i != j ::
        (i, j) in g.State().edges && Costed(graph.State(), pred, fuel, i, j)
    {
      var i := terminals[x];
      for y := 0 to |terminals|
        invariant Consistent(g.State()) && AllLabelled(g.State(), graph.State(), pred, fuel, terminals)
        invariant forall i, j | i in terminals[..x] && j in terminals && i != j ::
          (i, j) in g.State().edges && Costed(graph.State(), pred, fuel, i, j)
        invariant forall j | j in terminals[..y] && i != j ::
          (i, j) in g.State().edges && Costed(graph.State(), pred, fuel, i, j)
      {
        var j := terminals[y];
        if j != i {
          ok := AddShortestEdge(graph, g, terminals, pred, fuel, i, j, id);
          if !ok {
            return;
          }
          id := id + 1;
        }
        SliceGrows(terminals, y);
      }
      SliceGrows(terminals, x);
    }
    assert terminals[..|terminals|] == terminals;
    ok := true;
  }

  /** One round of the inner loop of `__complete_terminal_graph`: cost the shortest path
      from `i` to `j` and link the pair by an edge of that weight. */
  method AddShortestEdge(graph: Graph, g: Graph, terminals: seq<Node>, pred: Pred, fuel: nat, i: Node, j: Node, id: nat)
      returns (ok: bool)
    requires Consistent(graph.State()) && g != graph
    requires Consistent(g.State()) && AllLabelled(g.State(), graph.State(), pred, fuel, terminals)
    requires i in terminals && j in terminals && i != j
    modifies g
    ensures ok <==> Costed(graph.State(), pred, fuel, i, j)
    ensures Consistent(g.State()) && AllLabelled(g.State(), graph.State(), pred, fuel, terminals)
    ensures forall p | p in old(g.State()).edges :: p in g.State().edges
    ensures ok ==> (i, j) in g.State().edges
  {
    var path := MinPath(pred, i, j, fuel);
    if !path.Ok? {
      return false;
    }
    var cost := PathCost(graph.State(), path.value);
    if cost.None? {
      return false;
    }
    var e := Edge(id, i, j, cost.value);
    PathCostNonNegative(graph.State(), path.value);
    AddLabelled(g.State(), graph.State(), pred, fuel, terminals, e);
    var _ := g.AddEdge(e);
    ok := true;
  }

  /** Inserting a labelled edge into a consistent graph of labelled edges keeps both, keeps
      every linked pair and links the pair of the edge. */
  lemma AddLabelled(b: Adjacency, a: Adjacency, pred: Pred, fuel: nat, terminals: seq<Node>, e: Edge)
    requires Consistent(b) && AllLabelled(b, a, pred, fuel, terminals)
    requires Labelled(e, a, pred, fuel, terminals) && e.weight >= 0.0
    ensures var c := WithEdge(b, e).0;
      && Consistent(c) && AllLabelled(c, a, pred, fuel, terminals)
      && (forall p | p in b.edges :: p in c.edges) && (e.u, e.v) in c.edges
  {
    var (c, added) := WithEdge(b, e);
    if added {
      LinkConsistent(b, e);
      forall p | p in c.edges
        ensures Labelled(c.edges[p], a, pred, fuel, terminals)
      {
        if p != (e.u, e.v) && p != (e.v, e.u) {
          assert GetEdge(c, p.0, p.1) == GetEdge(b, p.0, p.1);
        } else {
          assert GetEdge(c, p.0, p.1) == Some(e);
        }
      }
      forall p | p in b.edges
        ensures p in c.edges
      {
        if p != (e.u, e.v) && p != (e.v, e.u) {
          assert GetEdge(c, p.0, p.1) == GetEdge(b, p.0, p.1);
        } else {
          assert GetEdge(c, p.0, p.1) == Some(e);
        }
      }
      assert GetEdge(c, e.u, e.v) == Some(e);
    }
  }

  /** `HAlgorithm.get_steiner_tree()`: the complete graph on the terminals, the edges of its
      spanning forest replaced by shortest paths in `graph`, the spanning forest of that as a
      Steiner tree over the terminals, then one pruning pass. It raises exactly when some
      pair of different terminals has no costed path (`null` then stands for no result).
      Otherwise the tree keeps its running cost right, has the terminals asked for, holds
      only edges of `graph`, each under its own pair, and they all belong to one acyclic
      list of edges. */
  method GetSteinerTree(graph: Graph, terminals: seq<Node>, pred: Pred, fuel: nat)
      returns (ok: bool, st: SteinerTree?, ghost forest: seq<Edge>)
    requires Consistent(graph.State())
    ensures ok <==> AllCosted(graph.State(), pred, fuel, terminals)
    ensures ok ==> st != null && fresh(st) && st.Valid() && st.terminals == (set n | n in terminals)
    ensures ok ==> SubMap(st.State(), graph.State()) && EdgeSet(st.State()) <= EdgeSet(graph.State())
    ensures ok ==> Acyclic(forest) && forall e | e in EdgeSet(st.State()) :: e in forest
  {
    var complete;
    ok, complete := CompleteTerminalGraph(graph, terminals, pred, fuel);
    if !ok {
      return false, null, [];
    }
    var routed, subst, paths := SubstShortestPaths(graph, complete, pred, fuel);
    ForestRouted(complete.State(), graph.State(), pred, fuel, terminals, paths);
    assert routed;
    EdgesWithin(subst.graph.State(), graph.State());
    var tree;
    tree, forest := MakeTreeFromKruskal(subst.graph, set n | n in terminals);
    ghost var before := tree.State();
    ghost var order := tree.DelUselessEdges();
    PruneSpec(before, tree.terminals, order);
    SubMapByEdges(tree.State(), graph.State());
    st := tree;
  }

  /** Every edge of the complete graph has a costed path, so every edge of its forest is
      routed. */
  lemma ForestRouted(b: Adjacency, a: Adjacency, pred: Pred, fuel: nat, terminals: seq<Node>, mst: seq<Edge>)
    requires AllLabelled(b, a, pred, fuel, terminals) && forall e | e in mst :: e in EdgeSet(b)
    ensures forall k | 0 <= k < |mst| :: Routed(a, pred, fuel, mst[k])
  {
    forall k | 0 <= k < |mst|
      ensures Routed(a, pred, fuel, mst[k])
    {
      var e := mst[k];
      assert e in EdgeSet(b);
      var p :| p in b.edges && b.edges[p] == e;
      assert Labelled(e, a, pred, fuel, terminals);
      PathCostDefined(a, MinPath(pred, e.u, e.v, fuel).value);
    }
  }

  /** A graph inside another holds only edges of it. */
  lemma EdgesWithin(b: Adjacency, a: Adjacency)
    requires SubMap(b, a)
    ensures EdgeSet(b) <= EdgeSet(a)
  {
    forall e | e in EdgeSet(b)
      ensures e in EdgeSet(a)
    {
      var p :| p in b.edges && b.edges[p] == e;
      assert a.edges[p] == e;
    }
  }

  /** A consistent graph whose edges are all edges of a consistent `a` stores them under
      the same pairs as `a` does. */
  lemma SubMapByEdges(b: Adjacency, a: Adjacency)
    requires Consistent(b) && Consistent(a) && EdgeSet(b) <= EdgeSet(a)
    ensures SubMap(b, a)
  {
    forall p | p in b.edges
      ensures p in a.edges && b.edges[p] == a.edges[p]
    {
      var e := b.edges[p];
      assert e in EdgeSet(b);
      assert (p.0, p.1) in b.edges;
      assert (e.u == p.0 && e.v == p.1) || (e.u == p.1 && e.v == p.0);
      StoredProper(a, e);
      assert (e.v, e.u) in a.edges && a.edges[(e.v, e.u)] == e;
    }
  }

  /** The shortest path from `e.u` to `e.v` is read out and each of its steps is an edge of
      `a`. */
  ghost predicate Routed(a: Adjacency, pred: Pred, fuel: nat, e: Edge) {
    MinPath(pred, e.u, e.v, fuel).Ok? && Linked(a, Route(pred, fuel, e))
  }

  /** The shortest path between the endpoints of `e`, or no node when it is not read out. */
  function Route(pred: Pred, fuel: nat, e: Edge): seq<Node> {
    match MinPath(pred, e.u, e.v, fuel)
    case Ok(w) => w
    case _ => []
  }

  /** One of the first `n` steps of `w` joins `x` and `y`, in either direction. */
  ghost predicate OnPath(w: seq<Node>, n: nat, x: Node, y: Node) {
    exists m | 0 <= m < n && m + 1 < |w| :: (w[m] == x && w[m + 1] == y) || (w[m] == y && w[m + 1] == x)
  }

  /** Every pair `b` links lies on the path of one of the first `n` edges of `mst`, or on
      one of the first `steps` steps of `w`. */
  ghost predicate Covered(b: Adjacency, pred: Pred, fuel: nat, mst: seq<Edge>, n: nat, w: seq<Node>, steps: nat) {
    forall p | p in b.edges ::
      || OnPath(w, steps, p.0, p.1)
      || exists k | 0 <= k < n && k < |mst| :: OnPath(Route(pred, fuel, mst[k]), |Route(pred, fuel, mst[k])|, p.0, p.1)
  }

  /** `HAlgorithm.__subst_shortest_paths(g)`: a new tree holding, for each edge of Kruskal's
      forest of `g`, every step of the shortest path between its endpoints, each step the
      graph's own edge. It raises exactly when some path is not read out or has a step
      without an edge (an empty path adds nothing). Otherwise the tree is simple, holds the
      graph's edges only, links every step of every path and links nothing else. */
  method SubstShortestPaths(graph: Graph, g: Graph, pred: Pred, fuel: nat) returns (ok: bool, tree: Tree, ghost mst: seq<Edge>)
    requires Consistent(graph.State())
    ensures fresh(tree) && fresh(tree.graph)
    ensures Acyclic(mst) && forall e | e in mst :: e in EdgeSet(g.State())
    ensures forall e | e in EdgeSet(g.State()) :: Connected(mst, e.u, e.v)
    ensures ok <==> forall k | 0 <= k < |mst| :: Routed(graph.State(), pred, fuel, mst[k])
    ensures ok ==> Simple(tree.graph.State()) && SubMap(tree.graph.State(), graph.State())
    ensures ok ==> forall k | 0 <= k < |mst| :: Linked(tree.graph.State(), Route(pred, fuel, mst[k]))
    ensures ok ==> Covered(tree.graph.State(), pred, fuel, mst, |mst|, [], 0)
  {
    tree := new Tree();
    var forest := g.GetMstKruskal();
    mst := forest;
    for x := 0 to |forest|
      invariant fresh(tree) && fresh(tree.graph)
      invariant forall k | 0 <= k < x :: Routed(graph.State(), pred, fuel, forest[k])
      invariant Progress(tree.graph.State(), graph.State(), pred, fuel, forest, x, [], 0)
    {
      var e := forest[x];
      var path := MinPath(pred, e.u, e.v, fuel);
      if !path.Ok? {
        return false, tree, mst;
      }
      ok := AddPath(graph, tree.graph, pred, fuel, forest, x);
      if !ok {
        return;
      }
    }
    ok := true;
  }

  /** The inner loop of `__subst_shortest_paths` for the `x`-th edge of the forest, whose path
      is read out. */
  method AddPath(graph: Graph, t: Graph, pred: Pred, fuel: nat, forest: seq<Edge>, x: nat) returns (ok: bool)
    requires Consistent(graph.State()) && t != graph
    requires x < |forest| && MinPath(pred, forest[x].u, forest[x].v, fuel).Ok?
    requires Progress(t.State(), graph.State(), pred, fuel, forest, x, [], 0)
    modifies t
    ensures ok <==> Linked(graph.State(), Route(pred, fuel, forest[x]))
    ensures ok ==> Progress(t.State(), graph.State(), pred, fuel, forest, x + 1, [], 0)
  {
    var w := Route(pred, fuel, forest[x]);
    var steps := if |w| == 0 then 0 else |w| - 1;
    var y := 0;
    ok := true;
    ProgressStart(t.State(), graph.State(), pred, fuel, forest, x, w);
    while y < steps && ok
      invariant y <= steps
      invariant ok ==> Progress(t.State(), graph.State(), pred, fuel, forest, x, w, y)
      invariant !ok ==> !Linked(graph.State(), w)
      decreases steps - y, if ok then 1 else 0
    {
      ghost var b := t.State();
      ok := AddStep(graph, t, w, y);
      if ok {
        ProgressStep(b, t.State(), graph.State(), pred, fuel, forest, x, w, y);
        y := y + 1;
      } else {
        assert (w[y], w[y + 1]) !in graph.State().edges;
      }
    }
    if ok {
      ProgressFinish(t.State(), graph.State(), pred, fuel, forest, x, w);
    }
  }

  /** What the inner loop of `__subst_shortest_paths` keeps: the tree is simple and inside
      the graph, links the paths of the first `x` forest edges and the first `y` steps of
      `w`, every one of which is an edge of the graph, and links nothing else. */
  ghost predicate Progress(c: Adjacency, a: Adjacency, pred: Pred, fuel: nat, forest: seq<Edge>, x: nat, w: seq<Node>, y: nat) {
    && x <= |forest| && Simple(c) && SubMap(c, a)
    && (forall k | 0 <= k < x :: Linked(c, Route(pred, fuel, forest[k])))
    && Covered(c, pred, fuel, forest, x, w, y)
    && StepsIn(c, w, y) && StepsIn(a, w, y)
  }

  lemma ProgressStart(c: Adjacency, a: Adjacency, pred: Pred, fuel: nat, forest: seq<Edge>, x: nat, w: seq<Node>)
    requires Progress(c, a, pred, fuel, forest, x, [], 0)
    ensures Progress(c, a, pred, fuel, forest, x, w, 0)
  {
  }

  /** Once every step of the `x`-th path is linked, that path is linked in the tree and in
      the graph, and it joins the paths already covered. */
  lemma ProgressFinish(c: Adjacency, a: Adjacency, pred: Pred, fuel: nat, forest: seq<Edge>, x: nat, w: seq<Node>)
    requires x < |forest| && w == Route(pred, fuel, forest[x])
    requires Progress(c, a, pred, fuel, forest, x, w, if |w| == 0 then 0 else |w| - 1)
    ensures Linked(a, w) && Progress(c, a, pred, fuel, forest, x + 1, [], 0)
  {
    var steps := if |w| == 0 then 0 else |w| - 1;
    CoveredPath(c, pred, fuel, forest, x, w);
    StepsLinked(c, w, steps);
    StepsLinked(a, w, steps);
    assert forall k | 0 <= k < x + 1 :: Linked(c, Route(pred, fuel, forest[k])) by {
      assert forall k | 0 <= k < x :: Linked(c, Route(pred, fuel, forest[k]));
    }
  }

  lemma StepsLinked(a: Adjacency, w: seq<Node>, steps: nat)
    requires steps == (if |w| == 0 then 0 else |w| - 1) && StepsIn(a, w, steps)
    ensures Linked(a, w)
  {
    forall m | 0 <= m < |w| - 1
      ensures (w[m], w[m + 1]) in a.edges
    {
      assert 0 <= m < steps && m + 1 < |w|;
    }
  }

  lemma ProgressStep(b: Adjacency, c: Adjacency, a: Adjacency, pred: Pred, fuel: nat, forest: seq<Edge>, x: nat, w: seq<Node>, y: nat)
    requires Progress(b, a, pred, fuel, forest, x, w, y) && y + 1 < |w|
    requires Simple(c) && SubMap(c, a) && (w[y], w[y + 1]) in c.edges && (w[y], w[y + 1]) in a.edges
    requires forall p | p in b.edges :: p in c.edges
    requires forall p | p in c.edges :: p in b.edges || p == (w[y], w[y + 1]) || p == (w[y + 1], w[y])
    ensures Progress(c, a, pred, fuel, forest, x, w, y + 1)
  {
    CoveredStep(b, c, pred, fuel, forest, x, w, y);
    KeysKeepLinks(b, c, pred, fuel, forest, x, w, y);
  }

  /** The first `n` steps of `w` are linked in `a`. */
  ghost predicate StepsIn(a: Adjacency, w: seq<Node>, n: nat) {
    forall m | 0 <= m < n && m + 1 < |w| :: (w[m], w[m + 1]) in a.edges
  }

  /** Linking more pairs keeps every linked path linked. */
  lemma KeysKeepLinks(b: Adjacency, c: Adjacency, pred: Pred, fuel: nat, forest: seq<Edge>, x: nat, w: seq<Node>, y: nat)
    requires forall p | p in b.edges :: p in c.edges
    requires x <= |forest| && forall k | 0 <= k < x :: Linked(b, Route(pred, fuel, forest[k]))
    requires StepsIn(b, w, y) && y + 1 < |w| && (w[y], w[y + 1]) in c.edges
    ensures forall k | 0 <= k < x :: Linked(c, Route(pred, fuel, forest[k]))
    ensures StepsIn(c, w, y + 1)
  {
  }

  /** One round of the innermost loop: `tree.add_edge(graph.get_edge(w[m], w[m + 1]))`. */
  method AddStep(graph: Graph, t: Graph, w: seq<Node>, m: nat) returns (ok: bool)
    requires Consistent(graph.State()) && t != graph && m + 1 < |w|
    requires Simple(t.State()) && SubMap(t.State(), graph.State())
    modifies t
    ensures ok <==> (w[m], w[m + 1]) in graph.State().edges
    ensures ok ==> Simple(t.State()) && SubMap(t.State(), graph.State()) && (w[m], w[m + 1]) in t.State().edges
    ensures ok ==> forall p | p in old(t.State()).edges :: p in t.State().edges
    ensures ok ==> forall p | p in t.State().edges :: p in old(t.State()).edges || p == (w[m], w[m + 1]) || p == (w[m + 1], w[m])
    ensures ok ==> EdgeSet(t.State()) == EdgeSet(old(t.State())) + {graph.State().edges[(w[m], w[m + 1])]}
  {
    var e := GetEdge(graph.State(), w[m], w[m + 1]);
    if e.None? {
      return false;
    }
    AddStored(t.State(), graph.State(), w[m], w[m + 1]);
    var _ := t.AddEdge(e.value);
    ok := true;
  }

  /** Inserting an edge that `a` stores, into a simple graph holding only edges of `a`: the
      pair is free or already holds that very edge, so the graph stays simple and inside `a`,
      gains that edge and links no other pair. */
  lemma AddStored(b: Adjacency, a: Adjacency, x: Node, y: Node)
    requires Consistent(a) && Simple(b) && SubMap(b, a) && (x, y) in a.edges
    ensures var e := a.edges[(x, y)]; var c := WithEdge(b, e).0;
      && Proper(e) && FreeFor(b, e) && Simple(c) && SubMap(c, a)
      && (x, y) in c.edges && EdgeSet(c) == EdgeSet(b) + {e}
      && (forall p | p in b.edges :: p in c.edges)
      && (forall p | p in c.edges :: p in b.edges || p == (x, y) || p == (y, x))
  {
    var e := a.edges[(x, y)];
    QueriesAgree(a, x, y);
    assert (y, x) in a.edges && a.edges[(y, x)] == e;
    assert (e.u, e.v) in a.edges && a.edges[(e.u, e.v)] == e;
    if (e.u, e.v) in b.edges {
      assert (e.v, e.u) in b.edges && b.edges[(e.v, e.u)] == e;
      assert SameEdgeStored(b, e);
      assert e in EdgeSet(b);
    } else {
      assert (x, y) !in b.edges && (y, x) !in b.edges;
      WithEdgeFresh(b, e);
      var c := WithEdge(b, e).0;
      forall p | p in c.edges
        ensures p in a.edges && c.edges[p] == a.edges[p]
        ensures p in b.edges || p == (x, y) || p == (y, x)
      {
        if p != (e.u, e.v) && p != (e.v, e.u) {
          assert GetEdge(c, p.0, p.1) == GetEdge(b, p.0, p.1);
        } else {
          assert GetEdge(c, p.0, p.1) == Some(e);
        }
      }
      forall p | p in b.edges
        ensures p in c.edges
      {
        assert GetEdge(c, p.0, p.1) == GetEdge(b, p.0, p.1);
      }
    }
  }

  /** The step just linked extends what is covered by one step. */
  lemma CoveredStep(b: Adjacency, c: Adjacency, pred: Pred, fuel: nat, mst: seq<Edge>, x: nat, w: seq<Node>, y: nat)
    requires y + 1 < |w| && Covered(b, pred, fuel, mst, x, w, y)
    requires forall p | p in c.edges :: p in b.edges || p == (w[y], w[y + 1]) || p == (w[y + 1], w[y])
    ensures Covered(c, pred, fuel, mst, x, w, y + 1)
  {
    forall p | p in c.edges
      ensures || OnPath(w, y + 1, p.0, p.1)
              || exists k | 0 <= k < x && k < |mst| :: OnPath(Route(pred, fuel, mst[k]), |Route(pred, fuel, mst[k])|, p.0, p.1)
    {
      if p == (w[y], w[y + 1]) || p == (w[y + 1], w[y]) {
        assert OnPath(w, y + 1, p.0, p.1) by {
          assert 0 <= y < y + 1 && y + 1 < |w|;
        }
      } else if OnPath(w, y, p.0, p.1) {
        var m :| 0 <= m < y && m + 1 < |w| && ((w[m] == p.0 && w[m + 1] == p.1) || (w[m] == p.1 && w[m + 1] == p.0));
        assert 0 <= m < y + 1;
      }
    }
  }

  /** A fully walked path is the `x`-th path of the forest. */
  lemma CoveredPath(c: Adjacency, pred: Pred, fuel: nat, mst: seq<Edge>, x: nat, w: seq<Node>)
    requires x < |mst| && w == Route(pred, fuel, mst[x])
    requires Covered(c, pred, fuel, mst, x, w, if |w| == 0 then 0 else |w| - 1)
    ensures Covered(c, pred, fuel, mst, x + 1, [], 0)
  {
    forall p | p in c.edges
      ensures || OnPath([], 0, p.0, p.1)
              || exists k | 0 <= k < x + 1 && k < |mst| :: OnPath(Route(pred, fuel, mst[k]), |Route(pred, fuel, mst[k])|, p.0, p.1)
    {
      if OnPath(w, if |w| == 0 then 0 else |w| - 1, p.0, p.1) {
        var m :| 0 <= m < |w| && m + 1 < |w| && ((w[m] == p.0 && w[m + 1] == p.1) || (w[m] == p.1 && w[m + 1] == p.0));
        assert OnPath(w, |w|, p.0, p.1);
      } else {
        var k :| 0 <= k < x && k < |mst| && OnPath(Route(pred, fuel, mst[k]), |Route(pred, fuel, mst[k])|, p.0, p.1);
        assert 0 <= k < x + 1;
      }
    }
  }

  // ----- Neighborhood.get

  /** The cost `get_path_cost` gives the shortest path from `u` to `v`. */
  function PairCost(a: Adjacency, pred: Pred, fuel: nat, u: Node, v: Node): real
    requires Costed(a, pred, fuel, u, v)
  {
    PathCost(a, MinPath(pred, u, v, fuel).value).value
  }

  /** A pair the search of `Neighborhood.get` considers: `u` on the side of `edge.u`, `v` on
      the side of `edge.v`, other than the two ends of the removed edge themselves. */
  ghost predicate Candidate(cut: Adjacency, edge: Edge, u: Node, v: Node) {
    Reaches(cut, edge.u, u) && Reaches(cut, edge.v, v) && !(u == edge.u && v == edge.v)
  }

  ghost predicate CandidatesCosted(a: Adjacency, cut: Adjacency, pred: Pred, fuel: nat, edge: Edge) {
    forall u, v | Candidate(cut, edge, u, v) :: Costed(a, pred, fuel, u, v)
  }

  /** Some candidate pair is joined by a path cheaper than `bound`. */
  ghost predicate Cheaper(a: Adjacency, cut: Adjacency, pred: Pred, fuel: nat, edge: Edge, bound: real) {
    exists u, v | Candidate(cut, edge, u, v) && Costed(a, pred, fuel, u, v) :: PairCost(a, pred, fuel, u, v) < bound
  }

  /** The search loop of `Neighborhood.get` over the cut tree `t`: every pair across the
      cut but the ends of the removed edge, keeping a path only when it is strictly cheaper
      than the best so far, which starts at `bound`, the cost of the cut tree. It raises
      exactly when some candidate has no costed path, or when no candidate beats `bound`
      (slicing `None`). Otherwise the path kept is the shortest path of a candidate pair,
      cheaper than `bound` and no dearer than any other candidate. */
  method Reconnect(graph: Graph, t: Graph, pred: Pred, fuel: nat, edge: Edge, bound: real)
      returns (ok: bool, path: seq<Node>, ghost best: (Node, Node))
    ensures ok <==>
      CandidatesCosted(graph.State(), t.State(), pred, fuel, edge) && Cheaper(graph.State(), t.State(), pred, fuel, edge, bound)
    ensures ok ==> && Candidate(t.State(), edge, best.0, best.1) && Costed(graph.State(), pred, fuel, best.0, best.1)
                   && path == MinPath(pred, best.0, best.1, fuel).value
                   && PairCost(graph.State(), pred, fuel, best.0, best.1) < bound
    ensures ok ==> forall u, v | Candidate(t.State(), edge, u, v) ::
      Costed(graph.State(), pred, fuel, u, v) && PairCost(graph.State(), pred, fuel, best.0, best.1) <= PairCost(graph.State(), pred, fuel, u, v)
  {
    ghost var a, c := graph.State(), t.State();
    var us := Subtree(t, edge.u);
    var costMin := bound;
    var found := false;
    path, best := [], (0, 0);
    var todoU := us;
    while todoU != {}
      invariant todoU <= us
      invariant Best(a, c, pred, fuel, edge, bound, found, costMin, path, best)
      invariant forall u, v | u in us - todoU && Candidate(c, edge, u, v) ::
        Costed(a, pred, fuel, u, v) && costMin <= PairCost(a, pred, fuel, u, v)
      decreases todoU
    {
      var u :| u in todoU;
      var vs := Subtree(t, edge.v);
      var todoV := vs;
      while todoV != {}
        invariant todoV <= vs
        invariant Best(a, c, pred, fuel, edge, bound, found, costMin, path, best)
        invariant forall u, v | u in us - todoU && Candidate(c, edge, u, v) ::
          Costed(a, pred, fuel, u, v) && costMin <= PairCost(a, pred, fuel, u, v)
        invariant forall v | v in vs - todoV && Candidate(c, edge, u, v) ::
          Costed(a, pred, fuel, u, v) && costMin <= PairCost(a, pred, fuel, u, v)
        decreases todoV
      {
        var v :| v in todoV;
        if !(u == edge.u && v == edge.v) {
          var r := MinPath(pred, u, v, fuel);
          var cost := if r.Ok? then PathCost(graph.State(), r.value) else None;
          if cost.None? {
            assert Candidate(c, edge, u, v) && !Costed(a, pred, fuel, u, v);
            return false, path, best;
          }
          if cost.value < costMin {
            found, path, costMin, best := true, r.value, cost.value, (u, v);
          }
        }
        todoV := todoV - {v};
      }
      todoU := todoU - {u};
    }
    ok := found;
    if !ok {
      assert !Cheaper(a, c, pred, fuel, edge, bound);
    }
  }

  /** What the search has kept: nothing and the bound, or a candidate's path and its cost,
      below the bound. */
  ghost predicate Best(a: Adjacency, c: Adjacency, pred: Pred, fuel: nat, edge: Edge, bound: real,
                       found: bool, costMin: real, path: seq<Node>, best: (Node, Node)) {
    && costMin <= bound
    && (!found ==> costMin == bound)
    && (found ==> && Candidate(c, edge, best.0, best.1) && Costed(a, pred, fuel, best.0, best.1)
                  && path == MinPath(pred, best.0, best.1, fuel).value
                  && PairCost(a, pred, fuel, best.0, best.1) == costMin && costMin < bound)
  }

  /** `e` is the edge `a` stores for one of the first `n` steps of `path`. */
  ghost predicate OnStep(a: Adjacency, path: seq<Node>, n: nat, e: Edge) {
    exists m | 0 <= m < n && m + 1 < |path| && (path[m], path[m + 1]) in a.edges :: a.edges[(path[m], path[m + 1])] == e
  }

  /** `Neighborhood.get(graph, tree, fw)`, with the edge that `random.choice` picks among
      the tree's edges as a parameter. A copy of the tree loses that edge and gets its two
      ends back as nodes; the search runs over the two sides of that cut; the path found is
      added edge by edge from `graph`; a Steiner tree is rebuilt from the spanning forest
      and pruned. The input tree is left as it was. It raises exactly when some candidate
      has no costed path or none is cheaper than the cut tree. Otherwise the new tree keeps
      its running cost right, keeps the terminals, holds only edges of `graph` and only
      edges of the cut tree or of the path chosen. */
  method Neighbourhood(graph: Graph, tree: SteinerTree, pred: Pred, fuel: nat, edge: Edge)
      returns (ok: bool, st: SteinerTree?, ghost cut: Adjacency, ghost best: (Node, Node))
    requires Consistent(graph.State())
    requires tree.Valid() && SubMap(tree.State(), graph.State()) && edge in EdgeSet(tree.State())
    ensures Simple(cut) && cut.edges == tree.State().edges - {(edge.u, edge.v), (edge.v, edge.u)}
    ensures ok <==>
      && CandidatesCosted(graph.State(), cut, pred, fuel, edge)
      && Cheaper(graph.State(), cut, pred, fuel, edge, tree.cost - edge.weight)
    ensures ok ==> && Candidate(cut, edge, best.0, best.1) && Costed(graph.State(), pred, fuel, best.0, best.1)
                   && PairCost(graph.State(), pred, fuel, best.0, best.1) < tree.cost - edge.weight
    ensures ok ==> forall u, v | Candidate(cut, edge, u, v) ::
      Costed(graph.State(), pred, fuel, u, v) && PairCost(graph.State(), pred, fuel, best.0, best.1) <= PairCost(graph.State(), pred, fuel, u, v)
    ensures ok ==> st != null && fresh(st) && st.Valid() && st.terminals == tree.terminals
    ensures ok ==> SubMap(st.State(), graph.State())
    ensures ok ==> forall e | e in EdgeSet(st.State()) ::
      var w := MinPath(pred, best.0, best.1, fuel).value; e in EdgeSet(cut) || OnStep(graph.State(), w, |w|, e)
  {
    var t := CutCopy(tree, edge);
    cut := t.State();
    var path;
    ok, path, best := Reconnect(graph, t.tree.graph, pred, fuel, edge, t.cost);
    if !ok {
      return false, null, cut, best;
    }
    PathCostDefined(graph.State(), path);
    SubMapShrinks(cut, tree.State(), graph.State());
    AddPathToTree(graph, t, path);
    st := Rebuild(graph, t);
  }

  /** The start of `Neighborhood.get`: a copy of the tree without `edge`, with both ends of
      `edge` present as nodes and the weight of `edge` taken off the running cost. */
  method CutCopy(tree: SteinerTree, edge: Edge) returns (t: SteinerTree)
    requires tree.Valid() && edge in EdgeSet(tree.State())
    ensures fresh(t) && fresh(t.tree) && fresh(t.tree.graph)
    ensures t.Valid() && t.terminals == tree.terminals && t.cost == tree.cost - edge.weight
    ensures t.State().edges == tree.State().edges - {(edge.u, edge.v), (edge.v, edge.u)}
    ensures edge.u in t.State().nodes && edge.v in t.State().nodes
  {
    t := tree.Copy();
    StoredProper(tree.State(), edge);
    var _ := t.DelEdge(edge);
    var _ := t.tree.graph.AddNode(edge.u);
    var _ := t.tree.graph.AddNode(edge.v);
  }

  /** The end of `Neighborhood.get`: `make_tree_from_kruskal(t, t.terminals)` then
      `del_useless_edges()`. */
  method Rebuild(graph: Graph, t: SteinerTree) returns (st: SteinerTree)
    requires Consistent(graph.State()) && t.Valid() && SubMap(t.State(), graph.State())
    ensures fresh(st) && st.Valid() && st.terminals == t.terminals
    ensures SubMap(st.State(), graph.State()) && EdgeSet(st.State()) <= EdgeSet(t.State())
  {
    ghost var forest;
    st, forest := MakeTreeFromKruskal(t.tree.graph, t.terminals);
    ghost var before := st.State();
    ghost var order := st.DelUselessEdges();
    PruneSpec(before, st.terminals, order);
    EdgesWithin(t.State(), graph.State());
    SubMapByEdges(st.State(), graph.State());
  }

  /** Removing pairs keeps a graph inside another. */
  lemma SubMapShrinks(c: Adjacency, b: Adjacency, a: Adjacency)
    requires SubMap(b, a) && c.edges.Keys <= b.edges.Keys && forall p | p in c.edges :: c.edges[p] == b.edges[p]
    ensures SubMap(c, a)
  {
  }

  /** The loop of `Neighborhood.get` that adds the chosen path: `t.add_edge` of the edge
      `graph.get_edge` finds for each step. Every step is an edge of `graph`, so each
      insertion finds its pair free or holding that very edge: the tree stays valid and
      inside `graph`, and gains exactly the edges of the path. */
  method AddPathToTree(graph: Graph, t: SteinerTree, path: seq<Node>)
    requires Consistent(graph.State()) && t.tree.graph != graph && Linked(graph.State(), path)
    requires t.Valid() && SubMap(t.State(), graph.State())
    modifies t, t.tree.graph
    ensures t.Valid() && SubMap(t.State(), graph.State()) && t.terminals == old(t.terminals)
    ensures forall e :: e in EdgeSet(t.State()) <==> e in EdgeSet(old(t.State())) || OnStep(graph.State(), path, |path|, e)
  {
    ghost var start := EdgeSet(t.State());
    var steps := if |path| == 0 then 0 else |path| - 1;
    for y := 0 to steps
      invariant t.Valid() && SubMap(t.State(), graph.State()) && t.terminals == old(t.terminals)
      invariant forall e :: e in EdgeSet(t.State()) <==> e in start || OnStep(graph.State(), path, y, e)
    {
      var e := GetEdge(graph.State(), path[y], path[y + 1]);
      assert (path[y], path[y + 1]) in graph.State().edges;
      AddStored(t.State(), graph.State(), path[y], path[y + 1]);
      ghost var b := EdgeSet(t.State());
      var _ := t.AddEdge(e.value);
      OnStepGrows(graph.State(), path, y, start, b, EdgeSet(t.State()));
    }
    forall e
      ensures OnStep(graph.State(), path, steps, e) <==> OnStep(graph.State(), path, |path|, e)
    {
      if OnStep(graph.State(), path, |path|, e) {
        var m :| 0 <= m < |path| && m + 1 < |path| && (path[m], path[m + 1]) in graph.State().edges && graph.State().edges[(path[m], path[m + 1])] == e;
        assert m < steps;
      }
    }
  }

  lemma OnStepGrows(a: Adjacency, path: seq<Node>, y: nat, start: set<Edge>, b: set<Edge>, c: set<Edge>)
    requires y + 1 < |path| && (path[y], path[y + 1]) in a.edges
    requires forall e :: e in b <==> e in start || OnStep(a, path, y, e)
    requires c == b + {a.edges[(path[y], path[y + 1])]}
    ensures forall e :: e in c <==> e in start || OnStep(a, path, y + 1, e)
  {
    forall e
      ensures e in c <==> e in start || OnStep(a, path, y + 1, e)
    {
      if OnStep(a, path, y + 1, e) && !OnStep(a, path, y, e) {
        var m :| 0 <= m < y + 1 && m + 1 < |path| && (path[m], path[m + 1]) in a.edges && a.edges[(path[m], path[m + 1])] == e;
        assert m == y;
      }
      if e == a.edges[(path[y], path[y + 1])] {
        assert OnStep(a, path, y + 1, e);
      }
    }
  }
}
