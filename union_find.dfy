/** The disjoint-set forest used by Kruskal's algorithm: path compression and union by
    rank, with the make-set step folded into the find (graph_utils.py, class UnionFind). */
module UnionFinds {
  import opened Edges

  /** Parent pointers go up strictly in rank, so every walk reaches a root. `bound` is a
      ghost bound on the ranks that only serves as a termination measure. */
  ghost predicate Forest(parent: map<Node, Node>, rank: map<Node, nat>, bound: nat) {
    && parent.Values <= parent.Keys
    && parent.Keys <= rank.Keys
    && forall x {:trigger parent[x]} | x in parent ::
         && rank[x] < bound
         && (parent[x] != x ==> rank[x] < rank[parent[x]])
  }

  /** The representative of `x`: the end of its chain of parents. */
  ghost function RootOf(parent: map<Node, Node>, rank: map<Node, nat>, bound: nat, x: Node): Node
    requires Forest(parent, rank, bound) && x in parent
    decreases bound - rank[x]
  {
    if parent[x] == x then x else RootOf(parent, rank, bound, parent[x])
  }

  lemma {:induction false} RootIsRoot(parent: map<Node, Node>, rank: map<Node, nat>, bound: nat, x: Node)
    requires Forest(parent, rank, bound) && x in parent
    ensures var r := RootOf(parent, rank, bound, x);
      r in parent && parent[r] == r && (r != x ==> rank[x] < rank[r])
    decreases bound - rank[x]
  {
    if parent[x] != x {
      RootIsRoot(parent, rank, bound, parent[x]);
    }
  }

  /** Pointing `c` straight at its own root `r` keeps the forest a forest. */
  lemma RedirectForest(parent: map<Node, Node>, rank: map<Node, nat>, bound: nat, c: Node, r: Node)
    requires Forest(parent, rank, bound) && c in parent && r == RootOf(parent, rank, bound, c)
    ensures Forest(parent[c := r], rank, bound)
  {
    RootIsRoot(parent, rank, bound, c);
  }

  /** ... and changes no representative. */
  lemma {:induction false} RedirectKeepsRoots(parent: map<Node, Node>, p': map<Node, Node>, rank: map<Node, nat>,
                                              bound: nat, c: Node, r: Node, x: Node)
    requires Forest(parent, rank, bound) && c in parent && x in parent
    requires r == RootOf(parent, rank, bound, c) && p' == parent[c := r] && Forest(p', rank, bound)
    ensures RootOf(p', rank, bound, x) == RootOf(parent, rank, bound, x)
    decreases bound - rank[x]
  {
    RootIsRoot(parent, rank, bound, c);
    if x == c {
      if r != c {
        assert p'[r] == r;
      }
    } else if parent[x] != x {
      RedirectKeepsRoots(parent, p', rank, bound, c, r, parent[x]);
    }
  }

  /** Hanging root `b` under root `a`, raising `a`'s rank by `inc`, keeps a forest. */
  lemma LinkForest(parent: map<Node, Node>, rank: map<Node, nat>, bound: nat,
                   k': map<Node, nat>, n': nat, a: Node, b: Node)
    requires Forest(parent, rank, bound) && a in parent && b in parent
    requires parent[a] == a && parent[b] == b && a != b
    requires (rank[b] < rank[a] && k' == rank && n' == bound)
          || (rank[b] == rank[a] && k' == rank[a := rank[a] + 1] && n' == bound + 1)
    ensures Forest(parent[b := a], k', n')
  {
  }

  /** ... and sends `b`'s whole class to `a`, leaving every other class alone. */
  lemma {:induction false} LinkRoots(parent: map<Node, Node>, rank: map<Node, nat>, bound: nat,
                                     p': map<Node, Node>, k': map<Node, nat>, n': nat,
                                     a: Node, b: Node, x: Node)
    requires Forest(parent, rank, bound) && Forest(p', k', n') && x in parent && a in parent && b in parent
    requires parent[a] == a && parent[b] == b && a != b
    requires p' == parent[b := a] && (forall y | y in rank :: y in k')
    ensures RootOf(p', k', n', x) == var r := RootOf(parent, rank, bound, x); if r == b then a else r
    decreases bound - rank[x]
  {
    if parent[x] != x {
      LinkRoots(parent, rank, bound, p', k', n', a, b, parent[x]);
    }
  }

  /** What compressing part of a walk towards `root` keeps: the same keys, the same
      representatives, and every changed pointer now at `root`. */
  ghost predicate Compressed(p0: map<Node, Node>, p: map<Node, Node>, rank: map<Node, nat>, bound: nat, root: Node) {
    && Forest(p0, rank, bound) && Forest(p, rank, bound)
    && root in p && p[root] == root
    && (forall y | y in p0 :: y in p) && (forall y | y in p :: y in p0)
    && (forall y | y in p0 :: RootOf(p, rank, bound, y) == RootOf(p0, rank, bound, y))
    && (forall y | y in p0 :: p[y] == p0[y] || (p[y] == root && RootOf(p0, rank, bound, y) == root))
  }

  lemma CompressStep(p0: map<Node, Node>, p: map<Node, Node>, rank: map<Node, nat>, bound: nat, root: Node, c: Node)
    requires Compressed(p0, p, rank, bound, root)
    requires c in p0 && RootOf(p0, rank, bound, c) == root
    ensures Compressed(p0, p[c := root], rank, bound, root)
  {
    var p' := p[c := root];
    assert RootOf(p, rank, bound, c) == root;
    RedirectForest(p, rank, bound, c, root);
    forall y | y in p0
      ensures RootOf(p', rank, bound, y) == RootOf(p0, rank, bound, y)
    {
      RedirectKeepsRoots(p, p', rank, bound, c, root, y);
    }
    forall y | y in p0
      ensures p'[y] == p0[y] || (p'[y] == root && RootOf(p0, rank, bound, y) == root)
    {
    }
  }

  /** Registering a fresh singleton leaves every existing representative where it was. */
  lemma {:induction false} RegisterKeepsRoots(parent: map<Node, Node>, rank: map<Node, nat>, bound: nat,
                                              bound': nat, x: Node, y: Node)
    requires Forest(parent, rank, bound) && x !in parent && y in parent
    requires Forest(parent[x := x], rank[x := 0], bound')
    ensures RootOf(parent[x := x], rank[x := 0], bound', y) == RootOf(parent, rank, bound, y)
    decreases bound - rank[y]
  {
    if parent[y] != y {
      RegisterKeepsRoots(parent, rank, bound, bound', x, parent[y]);
    }
  }

  class UnionFind {
    var parent: map<Node, Node>
    var rank: map<Node, nat>
    ghost var bound: nat

    ghost predicate Valid()
      reads this
    {
      Forest(parent, rank, bound)
    }

    /** The representative of `x` in the current forest. */
    ghost function Rep(x: Node): Node
      reads this
      requires Valid() && x in parent
    {
      RootOf(parent, rank, bound, x)
    }

    constructor ()
      ensures Valid() && parent == map[] && rank == map[]
    {
      parent, rank, bound := map[], map[], 0;
    }

    /** `forest[x]`: registers an unseen `x` as a singleton of rank 0; otherwise walks to
        the root and points every node of the walked `path` straight at it. */
    method Find(x: Node) returns (r: Node, ghost path: seq<Node>)
      requires Valid()
      modifies this
      ensures Valid() && x in parent
      ensures (forall y | y in old(parent) :: y in parent) && (forall y | y in parent :: y in old(parent) || y == x)
      ensures x !in old(parent) ==> r == x && parent == old(parent)[x := x] && rank == old(rank)[x := 0]
      ensures x in old(parent) ==> r == old(Rep(x)) && rank == old(rank)
      ensures x in old(parent) ==> forall y | y in old(parent) :: Rep(y) == old(Rep(y))
      ensures x in old(parent) ==>
        && path != [] && path[0] == x && path[|path| - 1] == r
        && (forall i | 0 <= i < |path| :: path[i] in old(parent) && path[i] in parent && parent[path[i]] == r)
        && (forall i | 0 <= i < |path| - 1 :: old(parent)[path[i]] == path[i + 1])
        && (forall y | y in old(parent) && y !in path :: parent[y] == old(parent)[y])
      ensures parent[x] == r && parent[r] == r
      ensures forall y | y in old(parent) && old(parent)[y] in old(parent) && old(parent)[old(parent)[y]] == old(parent)[y] ::
        parent[y] == old(parent)[y]
    {
      if x !in parent {
        parent := parent[x := x];
        rank := rank[x := 0];
        bound := if bound == 0 then 1 else bound;
        return x, [];
      }
      var walk, root := WalkToRoot(x);
      Compress(walk, root);
      r, path := root, walk;
    }

    /** The walk of `forest[x]` from `x` up its chain of parents to the root. */
    method WalkToRoot(x: Node) returns (walk: seq<Node>, root: Node)
      requires Valid() && x in parent
      ensures walk != [] && walk[0] == x && walk[|walk| - 1] == root
      ensures root in parent && parent[root] == root && root == RootOf(parent, rank, bound, x)
      ensures forall i | 0 <= i < |walk| :: walk[i] in parent && RootOf(parent, rank, bound, walk[i]) == root
      ensures forall i | 0 <= i < |walk| - 1 :: parent[walk[i]] == walk[i + 1]
    {
      walk := [x];
      root := parent[x];
      while root != walk[|walk| - 1]
        invariant walk != [] && walk[0] == x
        invariant forall i | 0 <= i < |walk| :: walk[i] in parent && RootOf(parent, rank, bound, walk[i]) == RootOf(parent, rank, bound, x)
        invariant forall i | 0 <= i < |walk| - 1 :: parent[walk[i]] == walk[i + 1]
        invariant root == parent[walk[|walk| - 1]]
        decreases bound - rank[walk[|walk| - 1]]
      {
        walk := walk + [root];
        root := parent[root];
      }
    }

    /** The compression loop of `forest[x]`: every node of `walk` now points at `root`. */
    method Compress(walk: seq<Node>, root: Node)
      requires Valid() && root in parent && parent[root] == root
      requires forall i | 0 <= i < |walk| :: walk[i] in parent && RootOf(parent, rank, bound, walk[i]) == root
      modifies this
      ensures Valid() && rank == old(rank) && bound == old(bound)
      ensures Compressed(old(parent), parent, rank, bound, root)
      ensures forall i | 0 <= i < |walk| :: parent[walk[i]] == root
      ensures forall y | y in old(parent) && y !in walk :: parent[y] == old(parent)[y]
    {
      ghost var p0 := parent;
      var i := 0;
      while i < |walk|
        invariant 0 <= i <= |walk| && rank == old(rank) && bound == old(bound)
        invariant Compressed(p0, parent, rank, bound, root)
        invariant forall k | 0 <= k < i :: parent[walk[k]] == root
        invariant forall y | y in p0 && y !in walk[..i] :: parent[y] == p0[y]
      {
        CompressStep(p0, parent, rank, bound, root, walk[i]);
        parent := parent[walk[i] := root];
        i := i + 1;
      }
    }

    /** `union(x, y)`: reads `parent[x]` and `parent[y]`, which are the roots right after a
        find of each; the lower-ranked root goes under the higher one, a tie raises the rank
        of `x`'s root. */
    method Union(x: Node, y: Node)
      requires Valid() && x in parent && y in parent
      requires parent[parent[x]] == parent[x] && parent[parent[y]] == parent[y]
      modifies this
      ensures Valid() && (forall y | y in old(parent) :: y in parent) && (forall y | y in parent :: y in old(parent))
      ensures var a, b := old(parent[x]), old(parent[y]);
        && (old(rank[a]) > old(rank[b]) ==> parent == old(parent)[b := a] && rank == old(rank))
        && (old(rank[a]) < old(rank[b]) ==> parent == old(parent)[a := b] && rank == old(rank))
        && (old(rank[a]) == old(rank[b]) && a != b ==>
              parent == old(parent)[b := a] && rank == old(rank)[a := old(rank[a]) + 1])
        && (a == b ==> parent == old(parent) && rank == old(rank))
      ensures forall k | k in old(rank) :: k in rank && rank[k] >= old(rank[k])
      ensures Rep(x) == old(parent[x]) || Rep(x) == old(parent[y])
      ensures forall z | z in parent ::
        Rep(z) == if old(Rep(z)) in {old(parent[x]), old(parent[y])} then Rep(x) else old(Rep(z))
    {
      var a, b := parent[x], parent[y];
      assert RootOf(parent, rank, bound, a) == a && RootOf(parent, rank, bound, b) == b;
      assert Rep(x) == a && Rep(y) == b;
      if rank[a] > rank[b] {
        LinkForest(parent, rank, bound, rank, bound, a, b);
        forall z | z in parent ensures RootOf(parent[b := a], rank, bound, z) == (var r := Rep(z); if r == b then a else r) {
          LinkRoots(parent, rank, bound, parent[b := a], rank, bound, a, b, z);
        }
        parent := parent[b := a];
      } else if rank[a] < rank[b] {
        LinkForest(parent, rank, bound, rank, bound, b, a);
        forall z | z in parent ensures RootOf(parent[a := b], rank, bound, z) == (var r := Rep(z); if r == a then b else r) {
          LinkRoots(parent, rank, bound, parent[a := b], rank, bound, b, a, z);
        }
        parent := parent[a := b];
      } else if a != b {
        LinkForest(parent, rank, bound, rank[a := rank[a] + 1], bound + 1, a, b);
        forall z | z in parent
          ensures RootOf(parent[b := a], rank[a := rank[a] + 1], bound + 1, z) == (var r := Rep(z); if r == b then a else r)
        {
          LinkRoots(parent, rank, bound, parent[b := a], rank[a := rank[a] + 1], bound + 1, a, b, z);
        }
        parent, rank, bound := parent[b := a], rank[a := rank[a] + 1], bound + 1;
      }
    }
  }
}
