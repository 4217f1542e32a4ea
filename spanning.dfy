/** How the union-find forest of Kruskal's loop mirrors the partition of the edges chosen so
    far (graph.py:170-180 with graph_utils.py:18-50). */
module Spanning {
  import opened Edges
  import opened Partition
  import opened UnionFinds

  /** Two registered nodes share a root exactly when `mst` connects them, and every endpoint
      of `mst` is registered. */
  ghost predicate Tracks(parent: map<Node, Node>, rank: map<Node, nat>, bound: nat, mst: seq<Edge>) {
    && Forest(parent, rank, bound)
    && (forall e | e in mst :: e.u in parent && e.v in parent)
    && (forall a, b {:trigger Connected(mst, a, b)} | a in parent && b in parent ::
          RootOf(parent, rank, bound, a) == RootOf(parent, rank, bound, b) <==> Connected(mst, a, b))
  }

  /** A find that registers a fresh node keeps the correspondence. */
  lemma TracksRegister(parent: map<Node, Node>, rank: map<Node, nat>, bound: nat, bound': nat,
                       mst: seq<Edge>, x: Node)
    requires Tracks(parent, rank, bound, mst) && x !in parent
    requires Forest(parent[x := x], rank[x := 0], bound')
    ensures Tracks(parent[x := x], rank[x := 0], bound', mst)
  {
    var p', k' := parent[x := x], rank[x := 0];
    Untouched(mst, x);
    forall a | a in parent
      ensures RootOf(p', k', bound', a) == RootOf(parent, rank, bound, a)
      ensures RootOf(p', k', bound', a) != x
      ensures !Connected(mst, x, a) && !Connected(mst, a, x)
    {
      RegisterKeepsRoots(parent, rank, bound, bound', x, a);
      RootIsRoot(parent, rank, bound, a);
      if Connected(mst, a, x) {
        ConnectedSymmetric(mst, a, x);
      }
    }
    ClassHasSelf(mst, x);
  }

  /** A find that keeps every representative keeps the correspondence. */
  lemma TracksSameRoots(parent: map<Node, Node>, rank: map<Node, nat>, bound: nat,
                        p': map<Node, Node>, k': map<Node, nat>, n': nat, mst: seq<Edge>)
    requires Tracks(parent, rank, bound, mst) && Forest(p', k', n')
    requires (forall y | y in parent :: y in p') && (forall y | y in p' :: y in parent)
    requires forall y | y in parent :: RootOf(p', k', n', y) == RootOf(parent, rank, bound, y)
    ensures Tracks(p', k', n', mst)
  {
  }

  /** A union of the roots `ru` of `e.u` and `rv` of `e.v` that sends both classes to `w`
      turns the correspondence for `mst` into the one for `mst + [e]`. */
  lemma TracksUnion(parent: map<Node, Node>, rank: map<Node, nat>, bound: nat,
                    p': map<Node, Node>, k': map<Node, nat>, n': nat, mst: seq<Edge>, e: Edge, w: Node)
    requires Tracks(parent, rank, bound, mst) && Forest(p', k', n')
    requires e.u in parent && e.v in parent
    requires (forall y | y in parent :: y in p') && (forall y | y in p' :: y in parent)
    requires var ru, rv := RootOf(parent, rank, bound, e.u), RootOf(parent, rank, bound, e.v);
      && (w == ru || w == rv)
      && forall z | z in p' :: RootOf(p', k', n', z) == if RootOf(parent, rank, bound, z) in {ru, rv} then w else RootOf(parent, rank, bound, z)
    ensures Tracks(p', k', n', mst + [e])
  {
    forall a, b | a in p' && b in p'
      ensures RootOf(p', k', n', a) == RootOf(p', k', n', b) <==> Connected(mst + [e], a, b)
    {
      ConnectedAppend(mst, e, a, b);
    }
  }

  /** A find of `x`, whichever way it went, keeps the correspondence and every existing
      representative. */
  lemma TracksFind(parent: map<Node, Node>, rank: map<Node, nat>, bound: nat,
                   p': map<Node, Node>, k': map<Node, nat>, n': nat, mst: seq<Edge>, x: Node)
    requires Tracks(parent, rank, bound, mst) && Forest(p', k', n')
    requires (forall y | y in parent :: y in p') && (forall y | y in p' :: y in parent || y == x)
    requires x !in parent ==> p' == parent[x := x] && k' == rank[x := 0]
    requires x in parent ==> forall y | y in parent :: RootOf(p', k', n', y) == RootOf(parent, rank, bound, y)
    ensures Tracks(p', k', n', mst)
    ensures forall y | y in parent :: RootOf(p', k', n', y) == RootOf(parent, rank, bound, y)
  {
    if x !in parent {
      TracksRegister(parent, rank, bound, n', mst, x);
      forall y | y in parent
        ensures RootOf(p', k', n', y) == RootOf(parent, rank, bound, y)
      {
        RegisterKeepsRoots(parent, rank, bound, n', x, y);
      }
    } else {
      TracksSameRoots(parent, rank, bound, p', k', n', mst);
    }
  }
}
