/** graph_utils.py, `FloydWarshall.get_min_path/__getpath` and `Helper.get_path_cost`: reading a
    path back out of the `pred` table, and the weight of a path in a graph. */
module Paths {
  import opened Base
  import opened Edges
  import opened Adjacencies
  import FloydWarshall

  /** What a Python call produces: a value, an exception that escapes, or (for the recursion)
      a depth beyond the fuel the model was given. */
  datatype Outcome<T> = Ok(value: T) | Crash | OutOfFuel

  /** The `pred` dictionary `FloydWarshall.__init__` builds: `None` where the table holds `-1`. */
  type Pred = map<(Node, Node), Option<Node>>

  /** `__getpath(i, j)` (lines 100-110): the inner nodes of the path from `i` to `j`. A missing
      key (`KeyError`) or a `None` entry gives `None`; an entry equal to `i` gives `[]`; any
      other entry `k` splits the path at `k`. A half that comes back `None` makes the
      concatenation raise `TypeError`, which nothing catches; the right half is not even
      evaluated when the left one is `None`. */
  function InnerPath(pred: Pred, i: Node, j: Node, fuel: nat): Outcome<Option<seq<Node>>>
    decreases fuel
  {
    if (i, j) !in pred || pred[(i, j)].None? then Ok(None)
    else if pred[(i, j)].value == i then Ok(Some([]))
    else if fuel == 0 then OutOfFuel
    else
      var k := pred[(i, j)].value;
      match InnerPath(pred, i, k, fuel - 1)
      case Ok(None) => Crash
      case Crash => Crash
      case OutOfFuel => OutOfFuel
      case Ok(Some(p)) =>
        match InnerPath(pred, k, j, fuel - 1)
        case Ok(None) => Crash
        case Crash => Crash
        case OutOfFuel => OutOfFuel
        case Ok(Some(q)) => Ok(Some(p + [k] + q))
  }

  /** Every step of `w` is a pair whose `pred` entry is its own start: a direct edge. */
  ghost predicate Direct(pred: Pred, w: seq<Node>) {
    forall m | 0 <= m < |w| - 1 :: (w[m], w[m + 1]) in pred && pred[(w[m], w[m + 1])] == Some(w[m])
  }

  /** A path `__getpath` returns, framed by its ends, is made of direct steps. */
  lemma {:induction false} InnerPathDirect(pred: Pred, i: Node, j: Node, fuel: nat)
    requires InnerPath(pred, i, j, fuel).Ok? && InnerPath(pred, i, j, fuel).value.Some?
    ensures Direct(pred, [i] + InnerPath(pred, i, j, fuel).value.value + [j])
    decreases fuel
  {
    if pred[(i, j)].value != i {
      var k := pred[(i, j)].value;
      var p := InnerPath(pred, i, k, fuel - 1).value.value;
      var q := InnerPath(pred, k, j, fuel - 1).value.value;
      InnerPathDirect(pred, i, k, fuel - 1);
      InnerPathDirect(pred, k, j, fuel - 1);
      var left, right := [i] + p + [k], [k] + q + [j];
      var w := [i] + (p + [k] + q) + [j];
      assert w == left + right[1..];
      forall m | 0 <= m < |w| - 1 ensures (w[m], w[m + 1]) in pred && pred[(w[m], w[m + 1])] == Some(w[m]) {
        if m < |left| - 1 {
          assert w[m] == left[m] && w[m + 1] == left[m + 1];
        } else {
          assert w[m] == right[m - |left| + 1] && w[m + 1] == right[m - |left| + 2];
        }
      }
    }
  }

  /** More fuel changes nothing once the recursion fits in the fuel. */
  lemma {:induction false} InnerPathFuel(pred: Pred, i: Node, j: Node, fuel: nat, more: nat)
    requires fuel <= more && !InnerPath(pred, i, j, fuel).OutOfFuel?
    ensures InnerPath(pred, i, j, more) == InnerPath(pred, i, j, fuel)
    decreases fuel
  {
    if (i, j) in pred && pred[(i, j)].Some? && pred[(i, j)].value != i {
      var k := pred[(i, j)].value;
      InnerPathFuel(pred, i, k, fuel - 1, more - 1);
      if InnerPath(pred, i, k, fuel - 1).Ok? && InnerPath(pred, i, k, fuel - 1).value.Some? {
        InnerPathFuel(pred, k, j, fuel - 1, more - 1);
      }
    }
  }

  /** `get_min_path(i, j)` (lines 92-98): `[]` when there is no path, otherwise `i`, the inner
      nodes and `j`. A found path runs from `i` to `j` by direct steps only. */
  function MinPath(pred: Pred, i: Node, j: Node, fuel: nat): (r: Outcome<seq<Node>>)
    ensures r == Ok([]) <==> (i, j) !in pred || pred[(i, j)].None?
    ensures r.Ok? && r.value != [] ==>
      && |r.value| >= 2 && r.value[0] == i && r.value[|r.value| - 1] == j
      && Direct(pred, r.value)
  {
    match InnerPath(pred, i, j, fuel)
    case Ok(None) => Ok([])
    case Ok(Some(p)) => InnerPathDirect(pred, i, j, fuel); Ok([i] + p + [j])
    case Crash => Crash
    case OutOfFuel => OutOfFuel
  }

  /** The `pred` dictionary of a table over the nodes `0 .. n-1`. */
  function PredTable(t: FloydWarshall.Tables, n: nat): (pred: Pred)
    requires FloydWarshall.Sized(t, n)
  {
    map i: Node, j: Node | i < n && j < n ::
      (i, j) := var p := t.pred[FloydWarshall.Cell(n, i, j)]; if p > -1 then Some(p as nat) else None
  }

  /** `m_adj` holds an edge from `a` to `b`: two different nodes and a positive weight. */
  ghost predicate AdjEdge(adj: seq<real>, n: nat, a: Node, b: Node) {
    a < n && b < n && a != b && |adj| == n * n && adj[FloydWarshall.Cell(n, a, b)] > 0.0
  }

  /** Reading a path out of what `floydwarshall` leaves, every step is an edge of `m_adj`:
      two different nodes joined by a positive weight. */
  lemma MinPathFollowsEdges(adj: seq<real>, n: nat, t0: FloydWarshall.Tables, i: Node, j: Node, fuel: nat)
    requires FloydWarshall.Initialised(adj, n, t0) && FloydWarshall.NonNegative(adj)
    ensures var r := MinPath(PredTable(FloydWarshall.Rounds(t0, n, n), n), i, j, fuel);
      r.Ok? ==> forall m | 0 <= m < |r.value| - 1 :: AdjEdge(adj, n, r.value[m], r.value[m + 1])
  {
    var t := FloydWarshall.Rounds(t0, n, n);
    FloydWarshall.FinalDiagonal(adj, n, t0);
    var pred := PredTable(t, n);
    var r := MinPath(pred, i, j, fuel);
    if r.Ok? {
      var w := r.value;
      forall m | 0 <= m < |w| - 1 ensures AdjEdge(adj, n, w[m], w[m + 1]) {
        var a, b := w[m], w[m + 1];
        assert (a, b) in pred && pred[(a, b)] == Some(a);
        assert t.pred[FloydWarshall.Cell(n, a, b)] == a;
      }
    }
  }

  /** Every entry of `pred` names a node of the table, and splits `dist` exactly: an entry
      equal to its row marks the direct step, any other entry `k` splits `dist[i][j]` into
      `dist[i][k] + dist[k][j]`. */
  ghost predicate ExactPred(adj: seq<real>, n: nat, t: FloydWarshall.Tables, pred: Pred)
    requires |adj| == n * n && FloydWarshall.Sized(t, n)
  {
    forall a, b | (a, b) in pred && pred[(a, b)].Some? ::
      var k := pred[(a, b)].value;
      && a < n && b < n && k < n
      && (k == a ==> FloydWarshall.At(t, n, a, b) == FloydWarshall.Step(adj, n, a, b))
      && (k != a ==> FloydWarshall.At(t, n, a, b) == FloydWarshall.Add(FloydWarshall.At(t, n, a, k), FloydWarshall.At(t, n, k, b)))
  }

  /** The dictionary of exact tables is exact. */
  lemma PredTableExact(adj: seq<real>, n: nat, t: FloydWarshall.Tables)
    requires |adj| == n * n && FloydWarshall.Sized(t, n)
    requires FloydWarshall.Through(adj, n, t) && FloydWarshall.PredsInRange(t, n)
    ensures ExactPred(adj, n, t, PredTable(t, n))
  {
    var pred := PredTable(t, n);
    forall a, b | (a, b) in pred && pred[(a, b)].Some?
      ensures var k := pred[(a, b)].value;
        && a < n && b < n && k < n
        && (k == a ==> FloydWarshall.At(t, n, a, b) == FloydWarshall.Step(adj, n, a, b))
        && (k != a ==> FloydWarshall.At(t, n, a, b) == FloydWarshall.Add(FloydWarshall.At(t, n, a, k), FloydWarshall.At(t, n, k, b)))
    {
      assert pred[(a, b)].value == t.pred[FloydWarshall.Cell(n, a, b)];
    }
  }

  /** A path `__getpath` returns from an exact `pred` weighs, framed by its ends, what
      `dist[i][j]` holds. */
  lemma {:induction false} InnerPathWeight(adj: seq<real>, n: nat, t: FloydWarshall.Tables, pred: Pred, i: Node, j: Node, fuel: nat)
    requires |adj| == n * n && FloydWarshall.Sized(t, n) && ExactPred(adj, n, t, pred)
    requires InnerPath(pred, i, j, fuel).Ok? && InnerPath(pred, i, j, fuel).value.Some?
    ensures i < n && j < n
    ensures FloydWarshall.WalkWeight(adj, n, [i] + InnerPath(pred, i, j, fuel).value.value + [j])
      == FloydWarshall.At(t, n, i, j)
    decreases fuel
  {
    var k := pred[(i, j)].value;
    if k == i {
      var w := [i] + [] + [j];
      assert w[1..] == [j];
    } else {
      var p, q := InnerPathSplit(pred, i, j, fuel);
      InnerPathWeight(adj, n, t, pred, i, k, fuel - 1);
      InnerPathWeight(adj, n, t, pred, k, j, fuel - 1);
      WalkWeightJoin(adj, n, i, k, j, p, q);
    }
  }

  /** A path split at `pred[i][j] == k` is the left half, `k`, then the right half. */
  lemma InnerPathSplit(pred: Pred, i: Node, j: Node, fuel: nat) returns (p: seq<Node>, q: seq<Node>)
    requires InnerPath(pred, i, j, fuel).Ok? && InnerPath(pred, i, j, fuel).value.Some?
    requires pred[(i, j)].value != i
    ensures var k := pred[(i, j)].value;
      && fuel > 0
      && InnerPath(pred, i, k, fuel - 1) == Ok(Some(p))
      && InnerPath(pred, k, j, fuel - 1) == Ok(Some(q))
      && InnerPath(pred, i, j, fuel).value.value == p + [k] + q
  {
    var k := pred[(i, j)].value;
    p := InnerPath(pred, i, k, fuel - 1).value.value;
    q := InnerPath(pred, k, j, fuel - 1).value.value;
  }

  /** The walk through `k` weighs its two halves together. */
  lemma WalkWeightJoin(adj: seq<real>, n: nat, i: Node, k: Node, j: Node, p: seq<Node>, q: seq<Node>)
    requires |adj| == n * n
    ensures FloydWarshall.WalkWeight(adj, n, [i] + (p + [k] + q) + [j])
      == FloydWarshall.Add(FloydWarshall.WalkWeight(adj, n, [i] + p + [k]), FloydWarshall.WalkWeight(adj, n, [k] + q + [j]))
  {
    var left, right := [i] + p + [k], [k] + q + [j];
    var w := [i] + (p + [k] + q) + [j];
    assert w == left + right[1..];
    FloydWarshall.WalkSplit(adj, n, w, |left| - 1);
    assert w[..|left|] == left && w[|left| - 1..] == right;
  }

  /** Reading a path out of what `floydwarshall` leaves gives a shortest walk: it runs from
      `i` to `j` over the nodes of the table, weighs exactly `dist[i][j]`, and no walk from
      `i` to `j` weighs less. */
  lemma MinPathShortest(adj: seq<real>, n: nat, t0: FloydWarshall.Tables, i: Node, j: Node, fuel: nat)
    requires FloydWarshall.Initialised(adj, n, t0) && FloydWarshall.NonNegative(adj)
    ensures var t := FloydWarshall.Rounds(t0, n, n);
      var r := MinPath(PredTable(t, n), i, j, fuel);
      r.Ok? && r.value != [] ==>
        && i < n && j < n
        && FloydWarshall.Walk(n, r.value, i, j, n)
        && FloydWarshall.WalkWeight(adj, n, r.value) == FloydWarshall.At(t, n, i, j)
        && forall w | FloydWarshall.Walk(n, w, i, j, n) :: FloydWarshall.Le(FloydWarshall.WalkWeight(adj, n, r.value), FloydWarshall.WalkWeight(adj, n, w))
  {
    var t := FloydWarshall.Rounds(t0, n, n);
    MinPathWalk(adj, n, t0, i, j, fuel);
    MinPathWeight(adj, n, t0, i, j, fuel);
    FloydWarshall.FinalShortest(adj, n, t0);
  }

  /** A path read out of the final tables is a walk from `i` to `j` over their nodes. */
  lemma MinPathWalk(adj: seq<real>, n: nat, t0: FloydWarshall.Tables, i: Node, j: Node, fuel: nat)
    requires FloydWarshall.Initialised(adj, n, t0) && FloydWarshall.NonNegative(adj)
    ensures var r := MinPath(PredTable(FloydWarshall.Rounds(t0, n, n), n), i, j, fuel);
      r.Ok? && r.value != [] ==> i < n && j < n && FloydWarshall.Walk(n, r.value, i, j, n)
  {
    var r := MinPath(PredTable(FloydWarshall.Rounds(t0, n, n), n), i, j, fuel);
    if r.Ok? && r.value != [] {
      MinPathFollowsEdges(adj, n, t0, i, j, fuel);
      var w := r.value;
      forall m | 0 <= m < |w| ensures w[m] < n {
        if m < |w| - 1 {
          assert AdjEdge(adj, n, w[m], w[m + 1]);
        } else {
          assert AdjEdge(adj, n, w[m - 1], w[m]);
        }
      }
    }
  }

  /** A path read out of the final tables weighs what `dist[i][j]` holds. */
  lemma MinPathWeight(adj: seq<real>, n: nat, t0: FloydWarshall.Tables, i: Node, j: Node, fuel: nat)
    requires FloydWarshall.Initialised(adj, n, t0) && FloydWarshall.NonNegative(adj)
    ensures var t := FloydWarshall.Rounds(t0, n, n);
      var r := MinPath(PredTable(t, n), i, j, fuel);
      r.Ok? && r.value != [] ==> i < n && j < n && FloydWarshall.WalkWeight(adj, n, r.value) == FloydWarshall.At(t, n, i, j)
  {
    var t := FloydWarshall.Rounds(t0, n, n);
    var pred := PredTable(t, n);
    var r := MinPath(pred, i, j, fuel);
    if r.Ok? && r.value != [] {
      FloydWarshall.FinalThrough(adj, n, t0);
      FloydWarshall.FinalDiagonal(adj, n, t0);
      PredTableExact(adj, n, t);
      InnerPathWeight(adj, n, t, pred, i, j, fuel);
    }
  }

  /** The edges `get_edge` finds between consecutive nodes; `None` as soon as a pair is not
      linked. */
  function PathEdges(a: Adjacency, path: seq<Node>): (r: Option<seq<Edge>>)
    ensures r.Some? ==> |r.value| == if |path| == 0 then 0 else |path| - 1
  {
    if |path| < 2 then Some([])
    else
      match GetEdge(a, path[0], path[1])
      case None => None
      case Some(e) =>
        match PathEdges(a, path[1..])
        case None => None
        case Some(es) => Some([e] + es)
  }

  /** `Helper.get_path_cost(graph, path)` (lines 115-118): `reduce(+)` over the weights of
      those edges. `None` stands for the exception raised for a path of fewer than two nodes
      (`reduce` of an empty list) or with an unlinked pair (`None.weight`). */
  function PathCost(a: Adjacency, path: seq<Node>): Option<real> {
    if |path| < 2 then None
    else
      match PathEdges(a, path)
      case None => None
      case Some(es) => Some(SumWeights(es))
  }

  /** Every consecutive pair is stored in the edge map. */
  ghost predicate Linked(a: Adjacency, path: seq<Node>) {
    forall m | 0 <= m < |path| - 1 :: (path[m], path[m + 1]) in a.edges
  }

  /** `get_edge` finds an edge for each step exactly when every step is linked, and then the
      `m`-th edge is the one stored for the `m`-th step. */
  lemma {:induction false} PathEdgesSpec(a: Adjacency, path: seq<Node>)
    ensures PathEdges(a, path).Some? <==> Linked(a, path)
    ensures PathEdges(a, path).Some? ==>
      forall m | 0 <= m < |path| - 1 :: PathEdges(a, path).value[m] == a.edges[(path[m], path[m + 1])]
  {
    if |path| >= 2 {
      PathEdgesSpec(a, path[1..]);
      if (path[0], path[1]) in a.edges && Linked(a, path[1..]) {
        assert Linked(a, path) by {
          forall m | 0 <= m < |path| - 1 ensures (path[m], path[m + 1]) in a.edges {
            if m > 0 {
              assert path[m] == path[1..][m - 1] && path[m + 1] == path[1..][m];
            }
          }
        }
      }
      if Linked(a, path) {
        assert (path[0], path[1]) in a.edges;
        assert Linked(a, path[1..]) by {
          forall m | 0 <= m < |path| - 2 ensures (path[1..][m], path[1..][m + 1]) in a.edges {
            assert path[1..][m] == path[m + 1] && path[1..][m + 1] == path[m + 2];
          }
        }
      }
    }
  }

  /** A cost exists exactly for a linked path of at least two nodes. */
  lemma PathCostDefined(a: Adjacency, path: seq<Node>)
    ensures PathCost(a, path).Some? <==> |path| >= 2 && Linked(a, path)
  {
    PathEdgesSpec(a, path);
  }

  /** Joining two paths at a shared node adds their costs. */
  lemma {:induction false} PathEdgesJoin(a: Adjacency, p: seq<Node>, q: seq<Node>)
    requires |p| >= 1 && |q| >= 1 && p[|p| - 1] == q[0]
    requires PathEdges(a, p).Some? && PathEdges(a, q).Some?
    ensures PathEdges(a, p + q[1..]) == Some(PathEdges(a, p).value + PathEdges(a, q).value)
    decreases |p|
  {
    if |p| == 1 {
      PathEdgesJoinFirst(a, p, q);
    } else {
      PathEdgesTail(a, p);
      PathEdgesJoin(a, p[1..], q);
      PathEdgesJoinStep(a, p, q);
    }
  }

  /** Joining a one-node path in front changes nothing. */
  lemma PathEdgesJoinFirst(a: Adjacency, p: seq<Node>, q: seq<Node>)
    requires |p| == 1 && |q| >= 1 && p[0] == q[0] && PathEdges(a, q).Some?
    ensures PathEdges(a, p + q[1..]) == Some(PathEdges(a, p).value + PathEdges(a, q).value)
  {
    assert p + q[1..] == q;
    assert PathEdges(a, p) == Some([]);
    assert [] + PathEdges(a, q).value == PathEdges(a, q).value;
  }

  /** The tail of a path with edges has edges. */
  lemma PathEdgesTail(a: Adjacency, p: seq<Node>)
    requires |p| >= 2 && PathEdges(a, p).Some?
    ensures PathEdges(a, p[1..]).Some?
    ensures PathEdges(a, p) == Some([GetEdge(a, p[0], p[1]).value] + PathEdges(a, p[1..]).value)
  {
  }

  /** The join with a longer first path is its first edge, then the join of its tail. */
  lemma PathEdgesJoinStep(a: Adjacency, p: seq<Node>, q: seq<Node>)
    requires |p| >= 2 && |q| >= 1 && PathEdges(a, p).Some? && PathEdges(a, q).Some?
    requires PathEdges(a, p[1..]).Some?
    requires PathEdges(a, p) == Some([GetEdge(a, p[0], p[1]).value] + PathEdges(a, p[1..]).value)
    requires PathEdges(a, p[1..] + q[1..]) == Some(PathEdges(a, p[1..]).value + PathEdges(a, q).value)
    ensures PathEdges(a, p + q[1..]) == Some(PathEdges(a, p).value + PathEdges(a, q).value)
  {
    var w := p + q[1..];
    JoinTail(p, q);
    var e, x, y := GetEdge(a, p[0], p[1]).value, PathEdges(a, p[1..]).value, PathEdges(a, q).value;
    PathEdgesCons(a, w);
    ConsAssociative(e, x, y);
  }

  lemma JoinTail(p: seq<Node>, q: seq<Node>)
    requires |p| >= 2 && |q| >= 1
    ensures var w := p + q[1..]; w[0] == p[0] && w[1] == p[1] && w[1..] == p[1..] + q[1..]
  {
  }

  lemma ConsAssociative(e: Edge, x: seq<Edge>, y: seq<Edge>)
    ensures [e] + (x + y) == ([e] + x) + y
  {
  }

  /** A path whose first pair is linked and whose tail has edges has edges: that first
      edge, then the tail's. */
  lemma PathEdgesCons(a: Adjacency, w: seq<Node>)
    requires |w| >= 2 && GetEdge(a, w[0], w[1]).Some? && PathEdges(a, w[1..]).Some?
    ensures PathEdges(a, w) == Some([GetEdge(a, w[0], w[1]).value] + PathEdges(a, w[1..]).value)
  {
  }

  /** The cost of two paths joined at a shared node is the sum of their costs. */
  lemma PathCostJoin(a: Adjacency, p: seq<Node>, q: seq<Node>)
    requires p != [] && q != [] && p[|p| - 1] == q[0]
    requires PathCost(a, p).Some? && PathCost(a, q).Some?
    ensures PathCost(a, p + q[1..]) == Some(PathCost(a, p).value + PathCost(a, q).value)
  {
    PathEdgesJoin(a, p, q);
    SumWeightsAppend(PathEdges(a, p).value, PathEdges(a, q).value);
  }

  /** In a consistent graph no path costs less than nothing. */
  lemma PathCostNonNegative(a: Adjacency, path: seq<Node>)
    requires Consistent(a) && PathCost(a, path).Some?
    ensures PathCost(a, path).value >= 0.0
  {
    PathEdgesSpec(a, path);
    var es := PathEdges(a, path).value;
    forall m | 0 <= m < |es| ensures es[m].weight >= 0.0 {
      assert Proper(a.edges[(path[m], path[m + 1])]);
    }
    SumWeightsNonNegative(es);
  }

  lemma {:induction false} SumWeightsNonNegative(es: seq<Edge>)
    requires forall m | 0 <= m < |es| :: es[m].weight >= 0.0
    ensures SumWeights(es) >= 0.0
  {
    if es != [] {
      SumWeightsNonNegative(es[..|es| - 1]);
    }
  }
}
