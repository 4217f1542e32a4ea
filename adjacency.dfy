/** The state of an undirected graph as a value: the neighbour lists and the edge map keyed
    by both orders of each pair (graph.py, class Graph). The class `Graphs.Graph` is proved
    against the functions here; the lemmas say what each operation does to that state. */
module Adjacencies {
  import opened Base
  import opened Edges

  datatype Adjacency = Adjacency(nodes: map<Node, seq<Node>>, edges: map<(Node, Node), Edge>)

  /** `graph[n]`: the neighbour list, or the empty list for a node that is absent. */
  function Neighbours(a: Adjacency, n: Node): seq<Node> {
    if n in a.nodes then a.nodes[n] else []
  }

  /** `order(n)`: the degree of `n`. */
  function Order(a: Adjacency, n: Node): nat {
    |Neighbours(a, n)|
  }

  /** `get_edges()`: the distinct edge objects stored in the map. */
  function EdgeSet(a: Adjacency): set<Edge> {
    a.edges.Values
  }

  /** `get_edge(u, v)`. */
  function GetEdge(a: Adjacency, u: Node, v: Node): Option<Edge> {
    if (u, v) in a.edges then Some(a.edges[(u, v)]) else None
  }

  /** `has_edge(u, v)`: both key orders are present. */
  predicate HasEdge(a: Adjacency, u: Node, v: Node) {
    (u, v) in a.edges && (v, u) in a.edges
  }

  /** The same edge object is already stored under both orders of a mutually linked pair. */
  predicate SameEdgeStored(a: Adjacency, e: Edge) {
    && e.u in a.nodes && e.v in a.nodes && e.u in a.nodes[e.v] && e.v in a.nodes[e.u]
    && (e.u, e.v) in a.edges && (e.v, e.u) in a.edges
    && a.edges[(e.u, e.v)] == e && a.edges[(e.v, e.u)] == e
  }

  /** Only one of the two endpoints lists the other. */
  predicate HalfLinked(a: Adjacency, e: Edge) {
    e.u in a.nodes && e.v in a.nodes && (e.u in a.nodes[e.v]) != (e.v in a.nodes[e.u])
  }

  /** The map and the lists agree: each stored edge sits under both orders of its own
      endpoints, both endpoints list each other, and every listed neighbour has an edge. */
  ghost predicate Consistent(a: Adjacency) {
    && (forall u, v | (u, v) in a.edges ::
          && (v, u) in a.edges && a.edges[(v, u)] == a.edges[(u, v)]
          && Proper(a.edges[(u, v)])
          && ((a.edges[(u, v)].u == u && a.edges[(u, v)].v == v) || (a.edges[(u, v)].u == v && a.edges[(u, v)].v == u))
          && u in a.nodes && v in a.nodes[u])
    && (forall u, v | u in a.nodes && v in a.nodes[u] :: (u, v) in a.edges)
  }

  /** A consistent graph whose neighbour lists hold no pair twice. */
  ghost predicate Simple(a: Adjacency) {
    Consistent(a) && forall u | u in a.nodes :: NoDup(a.nodes[u])
  }

  /** `add_node(n)`. */
  function WithNode(a: Adjacency, n: Node): (r: (Adjacency, bool))
    ensures r.1 <==> n !in a.nodes
    ensures !r.1 ==> r.0 == a
    ensures n in r.0.nodes && r.0.edges == a.edges
    ensures forall m | m in a.nodes :: m in r.0.nodes && r.0.nodes[m] == a.nodes[m]
    ensures forall m | m in r.0.nodes :: m in a.nodes || m == n
    ensures Consistent(a) ==> Consistent(r.0)
    ensures Simple(a) ==> Simple(r.0)
  {
    if n !in a.nodes then (a.(nodes := a.nodes[n := []]), true) else (a, false)
  }

  /** `add_edge(e)`, branch for branch: the membership tests that raise `KeyError` fall
      through to the insertion, exactly as the `try` does. */
  function WithEdge(a: Adjacency, e: Edge): (r: (Adjacency, bool))
    ensures r.1 ==> r == Link(a, e)
    ensures !r.1 ==> r.0 == a
    ensures !r.1 <==> (SameEdgeStored(a, e) || HalfLinked(a, e))
  {
    if e.v !in a.nodes then Link(a, e)
    else if e.u in a.nodes[e.v] then
      if e.u !in a.nodes then Link(a, e)
      else if e.v in a.nodes[e.u] then
        if (e.u, e.v) !in a.edges then Link(a, e)
        else if a.edges[(e.u, e.v)] != e then Link(a, e)
        else if (e.v, e.u) !in a.edges then Link(a, e)
        else if a.edges[(e.v, e.u)] != e then Link(a, e)
        else (a, false)
      else (a, false)
    else if e.u !in a.nodes then Link(a, e)
    else if e.v in a.nodes[e.u] then (a, false)
    else Link(a, e)
  }

  /** The insertion part of `add_edge`: create missing endpoints, append each endpoint to the
      other's list and store the edge under both orders. */
  function Link(a: Adjacency, e: Edge): (r: (Adjacency, bool))
    ensures r.1 && GetEdge(r.0, e.u, e.v) == Some(e) && GetEdge(r.0, e.v, e.u) == Some(e)
    ensures forall p | p != (e.u, e.v) && p != (e.v, e.u) :: GetEdge(r.0, p.0, p.1) == GetEdge(a, p.0, p.1)
    ensures e.u in r.0.nodes && e.v in r.0.nodes
    ensures e.u != e.v ==> Neighbours(r.0, e.u) == Neighbours(a, e.u) + [e.v]
    ensures e.u != e.v ==> Neighbours(r.0, e.v) == Neighbours(a, e.v) + [e.u]
    ensures forall n | n != e.u && n != e.v :: Neighbours(r.0, n) == Neighbours(a, n) && (n in r.0.nodes <==> n in a.nodes)
  {
    var n1 := WithNode(WithNode(a, e.u).0, e.v).0.nodes;
    var n2 := n1[e.u := n1[e.u] + [e.v]];
    var n3 := n2[e.v := n2[e.v] + [e.u]];
    (Adjacency(n3, a.edges[(e.u, e.v) := e][(e.v, e.u) := e]), true)
  }

  /** `del_edge(e)`: `None` is the `GraphError`; otherwise both keys go, each endpoint drops
      one occurrence of the other, and an endpoint left without neighbours is removed. A
      self-loop always fails: its single key cannot be popped twice. What a failure leaves
      behind is `HalfWithoutEdge`. */
  function WithoutEdge(a: Adjacency, e: Edge): Option<Adjacency> {
    if e.v !in Neighbours(a, e.u) || e.u !in Neighbours(a, e.v)
       || (e.u, e.v) !in a.edges || (e.v, e.u) !in a.edges || e.u == e.v then None
    else
      Some(Adjacency(Drop(Drop(a.nodes, e.u, e.v), e.v, e.u), a.edges - {(e.u, e.v), (e.v, e.u)}))
  }

  /** The graph a failing `del_edge(e)` leaves. When both ends list each other and the key
      `(u, v)` is stored, the first `pop` removes it before the second `pop` raises
      `KeyError` on the missing `(v, u)` (for a self-loop, on the key just popped). Every
      other failure comes before any change. */
  function HalfWithoutEdge(a: Adjacency, e: Edge): (r: Adjacency)
    ensures r.nodes == a.nodes
    ensures (e.u, e.v) !in r.edges || r == a
    ensures forall p | p != (e.u, e.v) :: (p in r.edges <==> p in a.edges) && (p in r.edges ==> r.edges[p] == a.edges[p])
  {
    if e.v in Neighbours(a, e.u) && e.u in Neighbours(a, e.v) && (e.u, e.v) in a.edges
    then a.(edges := a.edges - {(e.u, e.v)})
    else a
  }

  /** In a consistent graph a failing `del_edge` changes nothing: a stored key always has
      its reverse, and no stored edge is a self-loop. */
  lemma HalfWithoutEdgeHarmless(a: Adjacency, e: Edge)
    requires Consistent(a) && WithoutEdge(a, e).None?
    ensures HalfWithoutEdge(a, e) == a
  {
    if (e.u, e.v) in a.edges {
      assert Proper(a.edges[(e.u, e.v)]);
    }
  }

  /** A stored self-loop: the first `pop` of `del_edge` takes its key, the second one raises,
      and the graph is left with the key gone but the node still listing itself. */
  lemma SelfLoopHalfDeleted()
    ensures var e := Edge(0, 5, 5, 1.0);
      var a := Adjacency(map[5 := [5]], map[(5, 5) := e]);
      && WithoutEdge(a, e).None?
      && HalfWithoutEdge(a, e) == Adjacency(map[5 := [5]], map[])
  {
    var e := Edge(0, 5, 5, 1.0);
    var a := Adjacency(map[5 := [5]], map[(5, 5) := e]);
    assert Neighbours(a, 5) == [5];
    assert a.edges - {(5, 5)} == map[];
  }

  /** Stores the shortened list `l` of `x`, or pops `x` when `l` is empty. */
  function Pop(m: map<Node, seq<Node>>, x: Node, l: seq<Node>): map<Node, seq<Node>> {
    if |l| == 0 then m - {x} else m[x := l]
  }

  /** `self[x].remove(y)` followed by popping `x` if its list became empty. */
  function Drop(m: map<Node, seq<Node>>, x: Node, y: Node): (r: map<Node, seq<Node>>)
    requires x in m
    ensures forall n | n != x :: (n in r <==> n in m) && (n in m ==> r[n] == m[n])
    ensures x in r <==> |RemoveFirst(m[x], y)| > 0
    ensures x in r ==> r[x] == RemoveFirst(m[x], y)
  {
    Pop(m, x, RemoveFirst(m[x], y))
  }

  /** `del_edge` stores both shortened lists before popping either endpoint; for two distinct
      endpoints that is the same as settling one endpoint completely, then the other. */
  lemma DropBoth(m: map<Node, seq<Node>>, u: Node, v: Node, lu: seq<Node>, lv: seq<Node>)
    requires u in m && v in m && u != v
    ensures var n2 := m[u := lu][v := lv];
      var n3 := if |lu| == 0 then n2 - {u} else n2;
      (if |lv| == 0 then n3 - {v} else n3) == Pop(Pop(m, u, lu), v, lv)
  {
    if |lu| == 0 {
      if |lv| == 0 {
        assert m[u := lu][v := lv] - {u} - {v} == m - {u} - {v};
      } else {
        assert m[u := lu][v := lv] - {u} == (m - {u})[v := lv];
      }
    } else {
      if |lv| == 0 {
        assert m[u := lu][v := lv] - {v} == m[u := lu] - {v};
      }
    }
  }

  /** The pair of `e` holds no edge object other than `e` itself. */
  predicate FreeFor(a: Adjacency, e: Edge) {
    (e.u, e.v) in a.edges ==> a.edges[(e.u, e.v)] == e
  }

  /** In a consistent graph `has_edge`, `get_edge` in either order and the neighbour lists
      all answer the same question, and what `get_edge` finds joins the two nodes asked for. */
  lemma QueriesAgree(a: Adjacency, u: Node, v: Node)
    requires Consistent(a)
    ensures HasEdge(a, u, v) <==> GetEdge(a, u, v).Some?
    ensures GetEdge(a, u, v) == GetEdge(a, v, u)
    ensures GetEdge(a, u, v).Some? <==> v in Neighbours(a, u)
    ensures GetEdge(a, u, v).Some? ==> var E := GetEdge(a, u, v).value;
      && E in EdgeSet(a) && Proper(E) && ((E.u == u && E.v == v) || (E.u == v && E.v == u))
  {
    if (u, v) in a.edges {
      assert a.edges[(u, v)] in a.edges.Values;
    }
    if (v, u) in a.edges {
      assert (u, v) in a.edges;
    }
  }

  /** Every distinct edge of a consistent graph is proper and is stored under its endpoints. */
  lemma StoredProper(a: Adjacency, E: Edge)
    requires Consistent(a) && E in EdgeSet(a)
    ensures Proper(E) && (E.u, E.v) in a.edges && a.edges[(E.u, E.v)] == E
  {
    var p :| p in a.edges && a.edges[p] == E;
    var (x, y) := p;
    assert (x, y) in a.edges && (y, x) in a.edges;
  }

  /** A stored edge sits under the two orders of its own endpoints and nowhere else. */
  lemma StoredOnlyUnder(a: Adjacency, u: Node, v: Node)
    requires Consistent(a) && (u, v) in a.edges
    ensures forall p | p in a.edges && a.edges[p] == a.edges[(u, v)] :: p == (u, v) || p == (v, u)
  {
    forall p | p in a.edges && a.edges[p] == a.edges[(u, v)]
      ensures p == (u, v) || p == (v, u)
    {
      var (x, y) := p;
      assert (x, y) in a.edges;
    }
  }

  /** Linking a proper edge keeps the map and the lists in agreement, even over a linked pair. */
  lemma LinkConsistent(a: Adjacency, e: Edge)
    requires Consistent(a) && Proper(e)
    ensures Consistent(Link(a, e).0)
  {
    var b := Link(a, e).0;
    forall x, y | (x, y) in b.edges
      ensures && (y, x) in b.edges && b.edges[(y, x)] == b.edges[(x, y)]
              && Proper(b.edges[(x, y)])
              && ((b.edges[(x, y)].u == x && b.edges[(x, y)].v == y) || (b.edges[(x, y)].u == y && b.edges[(x, y)].v == x))
              && x in b.nodes && y in b.nodes[x]
    {
      assert GetEdge(b, x, y).Some?;
      if (x, y) != (e.u, e.v) && (x, y) != (e.v, e.u) {
        assert GetEdge(a, x, y) == GetEdge(b, x, y);
        assert GetEdge(a, y, x) == GetEdge(b, y, x);
        assert y in Neighbours(a, x);
        if x != e.u && x != e.v {
          assert Neighbours(b, x) == Neighbours(a, x);
        }
      }
    }
    forall x, y | x in b.nodes && y in b.nodes[x]
      ensures (x, y) in b.edges
    {
      assert y in Neighbours(b, x);
      if (x, y) != (e.u, e.v) && (x, y) != (e.v, e.u) {
        assert y in Neighbours(a, x);
        assert GetEdge(a, x, y) == GetEdge(b, x, y);
      }
    }
  }

  /** Linking replaces the edge stored under the pair, if any, by `e`. */
  lemma LinkEdgeSet(a: Adjacency, e: Edge)
    requires Consistent(a)
    ensures (e.u, e.v) in a.edges ==> EdgeSet(Link(a, e).0) == EdgeSet(a) - {a.edges[(e.u, e.v)]} + {e}
    ensures (e.u, e.v) !in a.edges ==> EdgeSet(Link(a, e).0) == EdgeSet(a) + {e}
  {
    var b := Link(a, e).0;
    LinkEdgesFrom(a, e);
    LinkEdgesKept(a, e);
    assert GetEdge(b, e.u, e.v) == Some(e);
  }

  /** Every edge after `Link` is the new one or one that was stored before and not overwritten. */
  lemma LinkEdgesFrom(a: Adjacency, e: Edge)
    requires Consistent(a)
    ensures forall f | f in EdgeSet(Link(a, e).0) ::
      f == e || (f in EdgeSet(a) && ((e.u, e.v) in a.edges ==> f != a.edges[(e.u, e.v)]))
  {
    var b := Link(a, e).0;
    if (e.u, e.v) in a.edges {
      StoredOnlyUnder(a, e.u, e.v);
    }
    forall f | f in EdgeSet(b)
      ensures f == e || (f in EdgeSet(a) && ((e.u, e.v) in a.edges ==> f != a.edges[(e.u, e.v)]))
    {
      var p :| p in b.edges && b.edges[p] == f;
      assert GetEdge(b, p.0, p.1) == Some(f);
      if p != (e.u, e.v) && p != (e.v, e.u) {
        assert GetEdge(a, p.0, p.1) == Some(f);
      }
    }
  }

  /** `Link` keeps every stored edge except the one it overwrites. */
  lemma LinkEdgesKept(a: Adjacency, e: Edge)
    requires Consistent(a)
    ensures forall f | f in EdgeSet(a) && ((e.u, e.v) in a.edges ==> f != a.edges[(e.u, e.v)]) :: f in EdgeSet(Link(a, e).0)
  {
    var b := Link(a, e).0;
    if (e.u, e.v) in a.edges {
      StoredOnlyUnder(a, e.u, e.v);
    }
    forall f | f in EdgeSet(a) && ((e.u, e.v) in a.edges ==> f != a.edges[(e.u, e.v)])
      ensures f in EdgeSet(b)
    {
      var p :| p in a.edges && a.edges[p] == f;
      assert (p.0, p.1) in a.edges;
      assert (e.v, e.u) in a.edges ==> a.edges[(e.v, e.u)] == a.edges[(e.u, e.v)];
      assert GetEdge(a, p.0, p.1) == Some(f);
      assert GetEdge(b, p.0, p.1) == Some(f);
    }
  }

  /** `add_edge` of an edge whose endpoints are not linked yet: it succeeds, both endpoints
      exist and list each other once more, `get_edge` answers `e` in both orders, and the
      distinct edges gain exactly `e`. */
  lemma WithEdgeFresh(a: Adjacency, e: Edge)
    requires Consistent(a) && Proper(e) && (e.u, e.v) !in a.edges
    ensures var (b, added) := WithEdge(a, e);
      && added && Consistent(b)
      && e.u in b.nodes && e.v in b.nodes
      && e.v in Neighbours(b, e.u) && e.u in Neighbours(b, e.v)
      && Order(b, e.u) == Order(a, e.u) + 1 && Order(b, e.v) == Order(a, e.v) + 1
      && GetEdge(b, e.u, e.v) == Some(e) && GetEdge(b, e.v, e.u) == Some(e)
      && e !in EdgeSet(a) && EdgeSet(b) == EdgeSet(a) + {e}
      && (Simple(a) ==> Simple(b))
  {
    assert (e.v, e.u) !in a.edges;
    assert e.v !in Neighbours(a, e.u) && e.u !in Neighbours(a, e.v);
    assert !SameEdgeStored(a, e) && !HalfLinked(a, e);
    LinkConsistent(a, e);
    LinkEdgeSet(a, e);
    var b := Link(a, e).0;
    if e in EdgeSet(a) {
      var p :| p in a.edges && a.edges[p] == e;
      assert (p.0, p.1) in a.edges;
    }
    if Simple(a) {
      forall n | n in b.nodes
        ensures NoDup(b.nodes[n])
      {
        assert b.nodes[n] == Neighbours(b, n);
        if n != e.u && n != e.v {
          assert n in a.nodes;
        } else {
          NoDupAppend(Neighbours(a, n), if n == e.u then e.v else e.u);
        }
      }
    }
  }

  /** `add_edge` of a different edge object over an already linked pair: it succeeds, the
      stored edge is replaced by `e`, and the endpoints now list each other twice. */
  lemma WithEdgeReplaces(a: Adjacency, e: Edge)
    requires Consistent(a) && Proper(e) && (e.u, e.v) in a.edges && a.edges[(e.u, e.v)] != e
    ensures var (b, added) := WithEdge(a, e);
      && added && Consistent(b) && !Simple(b)
      && EdgeSet(b) == EdgeSet(a) - {a.edges[(e.u, e.v)]} + {e}
  {
    assert !SameEdgeStored(a, e) && !HalfLinked(a, e);
    LinkConsistent(a, e);
    LinkEdgeSet(a, e);
    var b := Link(a, e).0;
    var s := Neighbours(a, e.u);
    assert e.v in s;
    var i :| 0 <= i < |s| && s[i] == e.v;
    assert b.nodes[e.u] == s + [e.v];
    assert (s + [e.v])[i] == (s + [e.v])[|s|];
  }

  /** `del_edge(e)` on a simple graph fails exactly when the endpoints of `e` are not linked;
      otherwise the stored edge is gone from the distinct edges, both endpoints lose one
      neighbour, an endpoint left with none disappears, and nothing else changes. */
  lemma WithoutEdgeSpec(a: Adjacency, e: Edge)
    requires Simple(a)
    ensures WithoutEdge(a, e).Some? <==> (e.u, e.v) in a.edges
    ensures WithoutEdge(a, e).Some? ==> var b := WithoutEdge(a, e).value;
      && Simple(b) && e.u != e.v
      && GetEdge(b, e.u, e.v) == None && GetEdge(b, e.v, e.u) == None
      && EdgeSet(b) == EdgeSet(a) - {a.edges[(e.u, e.v)]}
      && Order(b, e.u) == Order(a, e.u) - 1 && Order(b, e.v) == Order(a, e.v) - 1
      && (e.u in b.nodes <==> Order(a, e.u) > 1) && (e.v in b.nodes <==> Order(a, e.v) > 1)
      && forall n | n != e.u && n != e.v :: Neighbours(b, n) == Neighbours(a, n) && (n in b.nodes <==> n in a.nodes)
  {
    if (e.u, e.v) in a.edges {
      assert (e.v, e.u) in a.edges;
      assert e.v in Neighbours(a, e.u) && e.u in Neighbours(a, e.v);
      var E := a.edges[(e.u, e.v)];
      assert e.u != e.v;
      var b := WithoutEdge(a, e).value;
      WithoutEdgeLinks(a, e, b);
      WithoutEdgeConsistent(a, e, b);
      forall n | n in b.nodes
        ensures NoDup(b.nodes[n])
      {
        assert b.nodes[n] == Neighbours(b, n);
        RemoveFirstNoDup(a.nodes[e.u], e.v);
        RemoveFirstNoDup(a.nodes[e.v], e.u);
      }
      WithoutEdgeSet(a, e.u, e.v, b);
    } else {
      assert e.v !in Neighbours(a, e.u);
    }
  }

  /** After a successful `del_edge` on a simple graph, `y` is a neighbour of `n` exactly when
      it was before and `{n, y}` is not the deleted pair. */
  lemma WithoutEdgeLinks(a: Adjacency, e: Edge, b: Adjacency)
    requires Simple(a) && (e.u, e.v) in a.edges && e.u != e.v
    requires WithoutEdge(a, e) == Some(b)
    ensures forall n | n != e.u && n != e.v :: Neighbours(b, n) == Neighbours(a, n) && (n in b.nodes <==> n in a.nodes)
    ensures forall n: Node, y: Node :: y in Neighbours(b, n) <==> y in Neighbours(a, n) && (n, y) != (e.u, e.v) && (n, y) != (e.v, e.u)
  {
    assert e.u in a.nodes && e.v in a.nodes;
    var m1 := Drop(a.nodes, e.u, e.v);
    assert b.nodes == Drop(m1, e.v, e.u);
    RemoveFirstNoDup(a.nodes[e.u], e.v);
    RemoveFirstNoDup(a.nodes[e.v], e.u);
    assert Neighbours(b, e.u) == RemoveFirst(Neighbours(a, e.u), e.v);
    assert Neighbours(b, e.v) == RemoveFirst(Neighbours(a, e.v), e.u);
  }

  lemma WithoutEdgeConsistent(a: Adjacency, e: Edge, b: Adjacency)
    requires Consistent(a) && (e.u, e.v) in a.edges
    requires b.edges == a.edges - {(e.u, e.v), (e.v, e.u)}
    requires forall n: Node, y: Node :: y in Neighbours(b, n) <==> y in Neighbours(a, n) && (n, y) != (e.u, e.v) && (n, y) != (e.v, e.u)
    ensures Consistent(b)
  {
    forall x, y | (x, y) in b.edges
      ensures && (y, x) in b.edges && b.edges[(y, x)] == b.edges[(x, y)]
              && Proper(b.edges[(x, y)])
              && ((b.edges[(x, y)].u == x && b.edges[(x, y)].v == y) || (b.edges[(x, y)].u == y && b.edges[(x, y)].v == x))
              && x in b.nodes && y in b.nodes[x]
    {
      assert (x, y) in a.edges && y in Neighbours(a, x);
      assert y in Neighbours(b, x);
    }
    forall x, y | x in b.nodes && y in b.nodes[x]
      ensures (x, y) in b.edges
    {
      assert y in Neighbours(b, x);
      assert y in Neighbours(a, x);
    }
  }

  /** Removing both keys of a stored pair removes exactly that edge from the distinct edges. */
  lemma WithoutEdgeSet(a: Adjacency, u: Node, v: Node, b: Adjacency)
    requires Consistent(a) && (u, v) in a.edges && b.edges == a.edges - {(u, v), (v, u)}
    ensures EdgeSet(b) == EdgeSet(a) - {a.edges[(u, v)]}
  {
    StoredOnlyUnder(a, u, v);
    forall f | f in EdgeSet(b)
      ensures f in EdgeSet(a) && f != a.edges[(u, v)]
    {
      var p :| p in b.edges && b.edges[p] == f;
      assert p in a.edges && a.edges[p] == f;
    }
    forall f | f in EdgeSet(a) && f != a.edges[(u, v)]
      ensures f in EdgeSet(b)
    {
      var p :| p in a.edges && a.edges[p] == f;
      assert p in b.edges;
    }
  }

  /** `del_node(n)` for a node of degree at most one: the incident edge, if any, goes through
      `del_edge` (which already drops `n`), and the final pop of `n` is silent when `n` is
      gone or was never there. The removed edge is returned so that a caller can adjust a cost. */
  function WithoutLeaf(a: Adjacency, n: Node): (Adjacency, Option<Edge>)
    requires Simple(a) && Order(a, n) <= 1
  {
    if Order(a, n) == 1 then
      LeafEdgeRemoval(a, n);
      var E := a.edges[(a.nodes[n][0], n)];
      (WithoutEdge(a, E).value, Some(E))
    else
      (a.(nodes := a.nodes - {n}), None)
  }

  /** Deleting a node of degree at most one keeps the graph simple and removes the node; the
      edge reported is the one it had, if any, and it is the only edge that goes. Only its
      neighbour can lose its place in the graph. */
  lemma WithoutLeafSpec(a: Adjacency, n: Node)
    requires Simple(a) && Order(a, n) <= 1
    ensures var r := WithoutLeaf(a, n);
      && Simple(r.0) && n !in r.0.nodes
      && (r.1.None? <==> Order(a, n) == 0)
      && (r.1.None? ==> EdgeSet(r.0) == EdgeSet(a))
      && (r.1.Some? ==> var E := r.1.value;
            && E in EdgeSet(a) && EdgeSet(r.0) == EdgeSet(a) - {E}
            && (E.u == n || E.v == n) && (E.u == n ==> E.v == a.nodes[n][0]) && (E.v == n ==> E.u == a.nodes[n][0]))
      && (forall m | m != n && (r.1.Some? ==> m != a.nodes[n][0]) ::
            Neighbours(r.0, m) == Neighbours(a, m) && (m in r.0.nodes <==> m in a.nodes))
      && (forall m | m in r.0.nodes :: m in a.nodes)
  {
    if Order(a, n) == 1 {
      LeafEdgeRemoval(a, n);
    }
  }

  /** The single edge of a leaf can be deleted, and deleting it drops the leaf as well. */
  lemma LeafEdgeDeletable(a: Adjacency, n: Node)
    requires Simple(a) && Order(a, n) == 1
    ensures (a.nodes[n][0], n) in a.edges
    ensures WithoutEdge(a, a.edges[(a.nodes[n][0], n)]).Some?
    ensures n !in WithoutEdge(a, a.edges[(a.nodes[n][0], n)]).value.nodes
  {
    LeafEdgeRemoval(a, n);
  }

  lemma LeafEdgeRemoval(a: Adjacency, n: Node)
    requires Simple(a) && Order(a, n) == 1
    ensures var w := a.nodes[n][0];
      && (w, n) in a.edges
      && var E := a.edges[(w, n)];
      && ((E.u == n && E.v == w) || (E.u == w && E.v == n))
      && E in EdgeSet(a) && WithoutEdge(a, E).Some?
      && var b := WithoutEdge(a, E).value;
      && Simple(b) && n !in b.nodes && EdgeSet(b) == EdgeSet(a) - {E}
      && (forall m | m != n && m != w :: Neighbours(b, m) == Neighbours(a, m) && (m in b.nodes <==> m in a.nodes))
      && (forall m | m in b.nodes :: m in a.nodes)
  {
    var w := a.nodes[n][0];
    assert w in a.nodes[n];
    assert (n, w) in a.edges;
    var E := a.edges[(w, n)];
    assert (E.u, E.v) in a.edges;
    WithoutEdgeSpec(a, E);
    var b := WithoutEdge(a, E).value;
    assert Order(b, n) == 0;
    forall m | m in b.nodes
      ensures m in a.nodes
    {
      if m != n && m != w {
        assert m in a.nodes;
      }
    }
  }

  /** `del_useless_edges` as one pass over `order`: each visited node that is a leaf at that
      moment and not a terminal is deleted with its edge. */
  function Prune(a: Adjacency, terminals: set<Node>, order: seq<Node>): Adjacency
    requires Simple(a)
    decreases |order|
  {
    if order == [] then a
    else
      var n := order[0];
      var b := if Order(a, n) == 1 && n !in terminals then (WithoutLeafSpec(a, n); WithoutLeaf(a, n).0) else a;
      Prune(b, terminals, order[1..])
  }

  /** The pass keeps the graph simple, only removes nodes and edges, and every edge it
      removes loses an endpoint that is not a terminal. */
  lemma {:induction false} PruneSpec(a: Adjacency, terminals: set<Node>, order: seq<Node>)
    requires Simple(a)
    ensures var r := Prune(a, terminals, order);
      && Simple(r)
      && EdgeSet(r) <= EdgeSet(a)
      && (forall m | m in r.nodes :: m in a.nodes)
      && (forall E | E in EdgeSet(a) - EdgeSet(r) :: (E.u !in terminals && E.u !in r.nodes) || (E.v !in terminals && E.v !in r.nodes))
    decreases |order|
  {
    if order != [] {
      var n := order[0];
      var b := a;
      if Order(a, n) == 1 && n !in terminals {
        WithoutLeafSpec(a, n);
        b := WithoutLeaf(a, n).0;
      }
      PruneSpec(b, terminals, order[1..]);
    }
  }

  /** The path 0-1-2-3 with unit weights. */
  function Path4(): Adjacency {
    Adjacency(
      map[0 := [1], 1 := [0, 2], 2 := [1, 3], 3 := [2]],
      map[(0, 1) := Edge(1, 0, 1, 1.0), (1, 0) := Edge(1, 0, 1, 1.0),
          (1, 2) := Edge(2, 1, 2, 1.0), (2, 1) := Edge(2, 1, 2, 1.0),
          (2, 3) := Edge(3, 2, 3, 1.0), (3, 2) := Edge(3, 2, 3, 1.0)])
  }

  lemma Path4Simple()
    ensures Simple(Path4())
  {
    var a := Path4();
    forall u, v | (u, v) in a.edges
      ensures && (v, u) in a.edges && a.edges[(v, u)] == a.edges[(u, v)]
              && Proper(a.edges[(u, v)])
              && ((a.edges[(u, v)].u == u && a.edges[(u, v)].v == v) || (a.edges[(u, v)].u == v && a.edges[(u, v)].v == u))
              && u in a.nodes && v in a.nodes[u]
    {
    }
    forall u, v | u in a.nodes && v in a.nodes[u] ensures (u, v) in a.edges {
    }
  }

  /** The path 0-1-2, what is left of `Path4` without node 3. */
  function Path3(): Adjacency {
    Adjacency(map[0 := [1], 1 := [0, 2], 2 := [1]],
      map[(0, 1) := Edge(1, 0, 1, 1.0), (1, 0) := Edge(1, 0, 1, 1.0),
          (1, 2) := Edge(2, 1, 2, 1.0), (2, 1) := Edge(2, 1, 2, 1.0)])
  }

  /** Deleting the edge 2-3 of the path leaves the path 0-1-2. */
  lemma Path4Cut()
    ensures WithoutEdge(Path4(), Edge(3, 2, 3, 1.0)) == Some(Path3())
  {
    Path4Lists();
    Path4Keys();
  }

  lemma Path4Lists()
    ensures Drop(Drop(Path4().nodes, 2, 3), 3, 2) == Path3().nodes
  {
    Path4FirstDrop();
    Path4SecondDrop();
  }

  lemma Path4FirstDrop()
    ensures Drop(Path4().nodes, 2, 3) == map[0 := [1], 1 := [0, 2], 2 := [1], 3 := [2]]
  {
    assert RemoveFirst([1, 3], 3) == [1] by {
      assert RemoveFirst([3], 3) == [];
      assert [1, 3][1..] == [3];
    }
  }

  lemma Path4SecondDrop()
    ensures Drop(map[0 := [1], 1 := [0, 2], 2 := [1], 3 := [2]], 3, 2) == Path3().nodes
  {
    assert RemoveFirst([2], 2) == [];
  }

  lemma Path4Keys()
    ensures Path4().edges - {(2, 3), (3, 2)} == Path3().edges
  {
  }

  /** Deleting the edge 1-2 of the path 0-1-2 leaves the single edge 0-1. */
  lemma Path3Cut()
    ensures WithoutEdge(Path3(), Edge(2, 1, 2, 1.0)) == Some(Path2())
  {
    Path3Lists();
    Path3Keys();
  }

  /** The single edge 0-1. */
  function Path2(): Adjacency {
    Adjacency(map[0 := [1], 1 := [0]], map[(0, 1) := Edge(1, 0, 1, 1.0), (1, 0) := Edge(1, 0, 1, 1.0)])
  }

  lemma Path3Lists()
    ensures Drop(Drop(Path3().nodes, 1, 2), 2, 1) == Path2().nodes
  {
    assert RemoveFirst([0, 2], 2) == [0] by {
      assert RemoveFirst([2], 2) == [];
      assert [0, 2][1..] == [2];
    }
    assert RemoveFirst([1], 1) == [];
    var m1 := Drop(Path3().nodes, 1, 2);
    assert m1 == Path3().nodes[1 := [0]];
  }

  lemma Path3Keys()
    ensures Path3().edges - {(1, 2), (2, 1)} == Path2().edges
  {
  }

  lemma Path3Simple()
    ensures Simple(Path3())
  {
    var a := Path3();
    forall u, v | (u, v) in a.edges
      ensures && (v, u) in a.edges && a.edges[(v, u)] == a.edges[(u, v)]
              && Proper(a.edges[(u, v)])
              && ((a.edges[(u, v)].u == u && a.edges[(u, v)].v == v) || (a.edges[(u, v)].u == v && a.edges[(u, v)].v == u))
              && u in a.nodes && v in a.nodes[u]
    {
    }
    forall u, v | u in a.nodes && v in a.nodes[u] ensures (u, v) in a.edges {
    }
  }

  /** The pass skips a node that is a terminal or not a leaf when it is reached. */
  lemma PruneSkip(a: Adjacency, terminals: set<Node>, order: seq<Node>)
    requires Simple(a) && order != [] && (Order(a, order[0]) != 1 || order[0] in terminals)
    ensures Prune(a, terminals, order) == Prune(a, terminals, order[1..])
  {
  }

  /** The pass deletes a non-terminal leaf when it is reached. */
  lemma PruneTake(a: Adjacency, terminals: set<Node>, order: seq<Node>)
    requires Simple(a) && order != [] && Order(a, order[0]) == 1 && order[0] !in terminals
    ensures Simple(WithoutLeaf(a, order[0]).0)
    ensures Prune(a, terminals, order) == Prune(WithoutLeaf(a, order[0]).0, terminals, order[1..])
  {
    WithoutLeafSpec(a, order[0]);
  }

  /** The first half of the pass over the path: terminal 0 is kept, leaf 3 goes. */
  lemma PruneFirstHalf()
    ensures Simple(Path4()) && Simple(Path3())
    ensures Prune(Path4(), {0}, [0, 3, 1, 2]) == Prune(Path3(), {0}, [1, 2])
  {
    Path4Simple();
    Path3Simple();
    Path4Cut();
    PruneSkip(Path4(), {0}, [0, 3, 1, 2]);
    assert [0, 3, 1, 2][1..] == [3, 1, 2] && [3, 1, 2][1..] == [1, 2];
    PruneTake(Path4(), {0}, [3, 1, 2]);
  }

  /** The second half: node 1 still has two neighbours when it is visited, then leaf 2 goes. */
  lemma PruneSecondHalf()
    requires Simple(Path3())
    ensures Prune(Path3(), {0}, [1, 2]) == Path2()
  {
    Path3Cut();
    PruneSkip(Path3(), {0}, [1, 2]);
    assert [1, 2][1..] == [2] && [2][1..] == [];
    PruneTake(Path3(), {0}, [2]);
  }

  /** The pass is not repeated: on the path 0-1-2-3 with terminal 0, visited in the degree
      order [0, 3, 1, 2], node 1 only becomes a leaf after it was visited and stays. */
  lemma PruneSinglePass()
    ensures Simple(Path4())
    ensures Order(Path4(), 0) <= Order(Path4(), 3) <= Order(Path4(), 1) <= Order(Path4(), 2)
    ensures var r := Prune(Path4(), {0}, [0, 3, 1, 2]);
      Order(r, 1) == 1 && 1 !in {0}
  {
    PruneFirstHalf();
    PruneSecondHalf();
  }

  /** Pruning can empty the graph of a terminal: with the single edge 0-1 and terminal 0,
      deleting the leaf 1 leaves 0 without neighbours, and `del_edge` pops it. */
  lemma PruneCanDropTerminal()
    ensures var a := Adjacency(map[0 := [1], 1 := [0]],
              map[(0, 1) := Edge(1, 0, 1, 1.0), (1, 0) := Edge(1, 0, 1, 1.0)]);
      Simple(a) && 0 in a.nodes && 0 !in Prune(a, {0}, [0, 1]).nodes
  {
    var E := Edge(1, 0, 1, 1.0);
    var a := Adjacency(map[0 := [1], 1 := [0]], map[(0, 1) := E, (1, 0) := E]);
    assert Simple(a);
    assert WithoutLeaf(a, 1).0 == Adjacency(map[], map[]);
  }
}
