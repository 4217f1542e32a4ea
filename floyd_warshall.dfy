/** floydwarshall.cpp: all-pairs shortest distances over flat `n*n` tables. `INFINITY/2` is
    IEEE infinity, here the `Inf` case of `Dist`; the tables are arrays updated in place, and
    the methods are proved against functions that replay the same loops on values. */
module FloydWarshall {

  /** A `double` distance: a finite value or infinity. */
  datatype Dist = Fin(x: real) | Inf

  /** IEEE addition: infinity absorbs. */
  function Add(a: Dist, b: Dist): Dist {
    if a.Inf? || b.Inf? then Inf else Fin(a.x + b.x)
  }

  /** IEEE `a > b`; `inf > inf` is false. */
  predicate Greater(a: Dist, b: Dist) {
    match (a, b)
    case (Fin(x), Fin(y)) => x > y
    case (Inf, Fin(_)) => true
    case (_, Inf) => false
  }

  /** `a <= b`, with infinity on top. */
  predicate Le(a: Dist, b: Dist) {
    !Greater(a, b)
  }

  /** The two tables the C function fills: `dist` and `pred` (with `-1` for none). */
  datatype Tables = Tables(dist: seq<Dist>, pred: seq<int>)

  predicate Sized(t: Tables, n: nat) {
    |t.dist| == n * n && |t.pred| == n * n
  }

  /** `i * n`, by repeated addition, so that the solver does not reason about products. */
  function Offset(n: nat, i: nat): nat {
    if i == 0 then 0 else Offset(n, i - 1) + n
  }

  lemma {:induction false} OffsetIsProduct(n: nat, i: nat)
    ensures Offset(n, i) == i * n
  {
    if i > 0 {
      OffsetIsProduct(n, i - 1);
    }
  }

  /** Row `i` ends where a later row `r` begins, at the latest. */
  lemma {:induction false} OffsetMono(n: nat, i: nat, r: nat)
    requires i < r
    ensures Offset(n, i) + n <= Offset(n, r)
    decreases r
  {
    if i + 1 < r {
      OffsetMono(n, i, r - 1);
    }
  }

  /** The flat index `i*nn+j` of row `i`, column `j`, which lies inside the table. */
  function Cell(n: nat, i: nat, j: nat): (c: nat)
    requires i < n && j < n
    ensures c < n * n
  {
    OffsetIsProduct(n, n);
    OffsetMono(n, i, n);
    Offset(n, i) + j
  }

  /** Distinct cells have distinct flat indices. */
  lemma CellUnique(n: nat, i: nat, j: nat, r: nat, c: nat)
    requires i < n && j < n && r < n && c < n && (i, j) != (r, c)
    ensures Cell(n, i, j) != Cell(n, r, c)
  {
    if i < r {
      OffsetMono(n, i, r);
    } else if r < i {
      OffsetMono(n, r, i);
    }
  }

  /** `Cell` is the C expression `i*nn+j`. */
  lemma CellIsProduct(n: nat, i: nat, j: nat)
    requires i < n && j < n
    ensures Cell(n, i, j) == i * n + j
  {
    OffsetIsProduct(n, i);
  }

  /** Cell `(r, c)` holds what the initialisation loop (lines 11-28) writes there: 0 on the
      diagonal, a nonzero weight copied, a zero weight read as "no edge"; `pred` is the row
      exactly where that distance is positive and finite. */
  ghost predicate InitCell(adj: seq<real>, n: nat, t: Tables, r: nat, c: nat)
    requires |adj| == n * n && Sized(t, n) && r < n && c < n
  {
    var x := Cell(n, r, c);
    && t.dist[x] == Step(adj, n, r, c)
    && t.pred[x] == if t.dist[x].Fin? && t.dist[x].x > 0.0 then r else -1
  }

  /** The weight of one step from `i` to `j` as the initialisation reads `m_adj`: staying put
      costs 0, a zero entry means "no edge". */
  function Step(adj: seq<real>, n: nat, i: nat, j: nat): Dist
    requires |adj| == n * n && i < n && j < n
  {
    if i == j then Fin(0.0) else if adj[Cell(n, i, j)] != 0.0 then Fin(adj[Cell(n, i, j)]) else Inf
  }

  /** Entry `(i, j)` of the distance table. */
  function At(t: Tables, n: nat, i: nat, j: nat): Dist
    requires Sized(t, n) && i < n && j < n
  {
    t.dist[Cell(n, i, j)]
  }

  /** The tables right after the initialisation loop. */
  ghost predicate Initialised(adj: seq<real>, n: nat, t: Tables) {
    && |adj| == n * n && Sized(t, n)
    && forall r, c | 0 <= r < n && 0 <= c < n :: InitCell(adj, n, t, r, c)
  }

  /** One cell of the main loop (lines 34-38): relax `dist[i][j]` through `k`. */
  function Relax(t: Tables, n: nat, k: nat, i: nat, j: nat): (r: Tables)
    requires Sized(t, n) && k < n && i < n && j < n
    ensures Sized(r, n)
  {
    var d := Add(t.dist[Cell(n, i, k)], t.dist[Cell(n, k, j)]);
    if Greater(t.dist[Cell(n, i, j)], d) then
      Tables(t.dist[Cell(n, i, j) := d], t.pred[Cell(n, i, j) := k])
    else t
  }

  /** Relaxing a cell never raises an entry, touches no other cell, and writes `k` into
      `pred[i][j]` exactly when `dist[i][j]` strictly goes down. */
  lemma RelaxSpec(t: Tables, n: nat, k: nat, i: nat, j: nat)
    requires Sized(t, n) && k < n && i < n && j < n
    ensures var r := Relax(t, n, k, i, j);
      && Decreased(r, t, n)
      && (forall c | 0 <= c < n * n && c != Cell(n, i, j) :: r.dist[c] == t.dist[c] && r.pred[c] == t.pred[c])
      && (Greater(t.dist[Cell(n, i, j)], r.dist[Cell(n, i, j)]) ==> r.pred[Cell(n, i, j)] == k)
      && (!Greater(t.dist[Cell(n, i, j)], r.dist[Cell(n, i, j)]) ==> r == t)
      && r.dist[Cell(n, i, j)] == Min(t.dist[Cell(n, i, j)], Add(t.dist[Cell(n, i, k)], t.dist[Cell(n, k, j)]))
  {
  }

  /** No entry of `r` is above the same entry of `t`. */
  ghost predicate Decreased(r: Tables, t: Tables, n: nat)
    requires Sized(r, n) && Sized(t, n)
  {
    forall c | 0 <= c < n * n :: Le(r.dist[c], t.dist[c])
  }

  /** Columns `0 .. j-1` of row `i` in round `k`, in loop order. */
  function Row(t: Tables, n: nat, k: nat, i: nat, j: nat): (r: Tables)
    requires Sized(t, n) && k < n && i < n && j <= n
    ensures Sized(r, n)
  {
    if j == 0 then t else Relax(Row(t, n, k, i, j - 1), n, k, i, j - 1)
  }

  /** Rows `0 .. i-1` in round `k`. */
  function Round(t: Tables, n: nat, k: nat, i: nat): (r: Tables)
    requires Sized(t, n) && k < n && i <= n
    ensures Sized(r, n)
  {
    if i == 0 then t else Row(Round(t, n, k, i - 1), n, k, i - 1, n)
  }

  /** Rounds `0 .. k-1` of the main loop. */
  function Rounds(t: Tables, n: nat, k: nat): (r: Tables)
    requires Sized(t, n) && k <= n
    ensures Sized(r, n)
  {
    if k == 0 then t else Round(Rounds(t, n, k - 1), n, k - 1, n)
  }

  lemma LeTransitive(r: Tables, s: Tables, t: Tables, n: nat)
    requires Sized(r, n) && Sized(s, n) && Sized(t, n)
    requires Decreased(r, s, n) && Decreased(s, t, n)
    ensures Decreased(r, t, n)
  {
  }

  lemma {:induction false} RowDecreases(t: Tables, n: nat, k: nat, i: nat, j: nat)
    requires Sized(t, n) && k < n && i < n && j <= n
    ensures Decreased(Row(t, n, k, i, j), t, n)
  {
    if j > 0 {
      var s := Row(t, n, k, i, j - 1);
      RowDecreases(t, n, k, i, j - 1);
      RelaxSpec(s, n, k, i, j - 1);
      LeTransitive(Relax(s, n, k, i, j - 1), s, t, n);
    }
  }

  lemma {:induction false} RoundDecreases(t: Tables, n: nat, k: nat, i: nat)
    requires Sized(t, n) && k < n && i <= n
    ensures Decreased(Round(t, n, k, i), t, n)
  {
    if i > 0 {
      var s := Round(t, n, k, i - 1);
      RoundDecreases(t, n, k, i - 1);
      RowDecreases(s, n, k, i - 1, n);
      LeTransitive(Row(s, n, k, i - 1, n), s, t, n);
    }
  }

  /** The main loop never raises a distance. */
  lemma {:induction false} RoundsDecrease(t: Tables, n: nat, k: nat)
    requires Sized(t, n) && k <= n
    ensures Decreased(Rounds(t, n, k), t, n)
  {
    if k > 0 {
      var s := Rounds(t, n, k - 1);
      RoundsDecrease(t, n, k - 1);
      RoundDecreases(s, n, k - 1, n);
      LeTransitive(Round(s, n, k - 1, n), s, t, n);
    }
  }

  /** `floydwarshall(nn, m_adj, dist, pred)`. The `memset` calls are left out: the
      initialisation loop overwrites every cell. */
  method FloydWarshallTables(n: nat, adj: array<real>, dist: array<Dist>, pred: array<int>)
    returns (ghost t0: Tables)
    requires adj.Length == n * n && dist.Length == n * n && pred.Length == n * n
    modifies dist, pred
    ensures Initialised(adj[..], n, t0)
    ensures Tables(dist[..], pred[..]) == Rounds(t0, n, n)
  {
    InitTables(n, adj, dist, pred);
    t0 := Tables(dist[..], pred[..]);
    RelaxTables(n, dist, pred);
  }

  /** The initialisation loop, lines 11-28. */
  method InitTables(n: nat, adj: array<real>, dist: array<Dist>, pred: array<int>)
    requires adj.Length == n * n && dist.Length == n * n && pred.Length == n * n
    modifies dist, pred
    ensures Initialised(adj[..], n, Tables(dist[..], pred[..]))
  {
    for i := 0 to n
      invariant forall r, c | 0 <= r < i && 0 <= c < n :: InitCell(adj[..], n, Tables(dist[..], pred[..]), r, c)
    {
      for j := 0 to n
        invariant forall r, c | 0 <= r < n && 0 <= c < n && (r < i || (r == i && c < j)) ::
          InitCell(adj[..], n, Tables(dist[..], pred[..]), r, c)
      {
        InitVisit(n, adj, dist, pred, i, j);
      }
    }
  }

  /** One iteration of the initialisation loop: cell `(i, j)` is written and no other. */
  method InitVisit(n: nat, adj: array<real>, dist: array<Dist>, pred: array<int>, i: nat, j: nat)
    requires adj.Length == n * n && dist.Length == n * n && pred.Length == n * n && i < n && j < n
    modifies dist, pred
    ensures InitCell(adj[..], n, Tables(dist[..], pred[..]), i, j)
    ensures forall r, c | 0 <= r < n && 0 <= c < n && (r, c) != (i, j) ::
      InitCell(adj[..], n, Tables(old(dist[..]), old(pred[..])), r, c) ==>
      InitCell(adj[..], n, Tables(dist[..], pred[..]), r, c)
  {
    var x := Cell(n, i, j);
    forall r, c | 0 <= r < n && 0 <= c < n && (r, c) != (i, j) ensures Cell(n, r, c) != x {
      CellUnique(n, i, j, r, c);
    }
    dist[x] := if adj[x] != 0.0 then Fin(adj[x]) else Inf;
    if i == j {
      dist[x] := Fin(0.0);
    }
    if dist[x].Fin? && dist[x].x > 0.0 {
      pred[x] := i;
    } else {
      pred[x] := -1;
    }
  }

  /** The main loop, lines 31-41, in place. */
  method RelaxTables(n: nat, dist: array<Dist>, pred: array<int>)
    requires dist.Length == n * n && pred.Length == n * n
    modifies dist, pred
    ensures Tables(dist[..], pred[..]) == Rounds(Tables(old(dist[..]), old(pred[..])), n, n)
  {
    ghost var t0 := Tables(dist[..], pred[..]);
    for k := 0 to n
      invariant Tables(dist[..], pred[..]) == Rounds(t0, n, k)
    {
      ghost var tk := Tables(dist[..], pred[..]);
      for i := 0 to n
        invariant Tables(dist[..], pred[..]) == Round(tk, n, k, i)
      {
        ghost var ti := Tables(dist[..], pred[..]);
        for j := 0 to n
          invariant Tables(dist[..], pred[..]) == Row(ti, n, k, i, j)
        {
          RelaxVisit(n, dist, pred, k, i, j);
        }
      }
    }
  }

  /** One iteration of the main loop. */
  method RelaxVisit(n: nat, dist: array<Dist>, pred: array<int>, k: nat, i: nat, j: nat)
    requires dist.Length == n * n && pred.Length == n * n && k < n && i < n && j < n
    modifies dist, pred
    ensures Tables(dist[..], pred[..]) == Relax(Tables(old(dist[..]), old(pred[..])), n, k, i, j)
  {
    var newDist := Add(dist[Cell(n, i, k)], dist[Cell(n, k, j)]);
    if Greater(dist[Cell(n, i, j)], newDist) {
      dist[Cell(n, i, j)] := newDist;
      pred[Cell(n, i, j)] := k;
    }
  }

  // ---------------------------------------------------------------------------------------
  // What the tables mean: shortest walks in the graph of `m_adj`.
  // ---------------------------------------------------------------------------------------

  /** Every weight is non-negative. */
  ghost predicate NonNegative(adj: seq<real>) {
    forall c | 0 <= c < |adj| :: adj[c] >= 0.0
  }

  /** A distance that is not a negative number. */
  predicate Unsigned(d: Dist) {
    d.Fin? ==> d.x >= 0.0
  }

  function Min(a: Dist, b: Dist): (m: Dist)
    ensures Le(m, a) && Le(m, b) && (m == a || m == b)
  {
    if Greater(a, b) then b else a
  }

  /** A walk of at least one step from `i` to `j` over the nodes `0 .. n-1` whose inner nodes
      all lie below `k`. */
  ghost predicate Walk(n: nat, w: seq<nat>, i: nat, j: nat, k: nat) {
    && |w| >= 2 && w[0] == i && w[|w| - 1] == j
    && (forall m | 0 <= m < |w| :: w[m] < n)
    && (forall m | 0 < m < |w| - 1 :: w[m] < k)
  }

  /** The summed step weights of a walk; infinite when it uses a missing edge. */
  function WalkWeight(adj: seq<real>, n: nat, w: seq<nat>): Dist
    requires |adj| == n * n && |w| >= 1
  {
    if |w| == 1 then Fin(0.0) else Add(Hop(adj, n, w[0], w[1]), WalkWeight(adj, n, w[1..]))
  }

  /** `Step` for any two numbers; a node outside the table is unreachable. */
  function Hop(adj: seq<real>, n: nat, i: nat, j: nat): Dist
    requires |adj| == n * n
  {
    if i < n && j < n then Step(adj, n, i, j) else Inf
  }

  /** The textbook recurrence: the length of a shortest walk from `i` to `j` whose inner
      nodes lie below `k`. */
  function Shortest(adj: seq<real>, n: nat, k: nat, i: nat, j: nat): Dist
    requires |adj| == n * n && k <= n && i < n && j < n
  {
    if k == 0 then Step(adj, n, i, j)
    else Min(Shortest(adj, n, k - 1, i, j), Add(Shortest(adj, n, k - 1, i, k - 1), Shortest(adj, n, k - 1, k - 1, j)))
  }

  lemma AddAssociative(a: Dist, b: Dist, c: Dist)
    ensures Add(a, Add(b, c)) == Add(Add(a, b), c)
  {
  }

  /** Cutting the walk `w` at its node `m` splits its weight into the weights of the halves. */
  ghost predicate SplitsAt(adj: seq<real>, n: nat, w: seq<nat>, m: nat)
    requires |adj| == n * n && m < |w|
  {
    WalkWeight(adj, n, w) == Add(WalkWeight(adj, n, w[..m + 1]), WalkWeight(adj, n, w[m..]))
  }

  /** A walk's weight is the sum of the weights of its two halves, cut at any node. */
  lemma {:induction false} WalkSplit(adj: seq<real>, n: nat, w: seq<nat>, m: nat)
    requires |adj| == n * n && m < |w|
    ensures SplitsAt(adj, n, w, m)
    decreases m
  {
    if m == 0 {
      WalkSplitFirst(adj, n, w);
    } else {
      WalkSplit(adj, n, w[1..], m - 1);
      WalkSplitStep(adj, n, w, m);
    }
  }

  /** Cutting at the first node leaves an empty walk in front. */
  lemma WalkSplitFirst(adj: seq<real>, n: nat, w: seq<nat>)
    requires |adj| == n * n && 0 < |w|
    ensures SplitsAt(adj, n, w, 0)
  {
    assert w[..1] == [w[0]] && w[0..] == w;
    assert WalkWeight(adj, n, [w[0]]) == Fin(0.0);
  }

  /** Cutting after node `m` of a walk is cutting after node `m - 1` of its tail, with the
      first step in front. */
  lemma WalkSplitStep(adj: seq<real>, n: nat, w: seq<nat>, m: nat)
    requires |adj| == n * n && 0 < m < |w| && SplitsAt(adj, n, w[1..], m - 1)
    ensures SplitsAt(adj, n, w, m)
  {
    var v, head := w[1..], w[..m + 1];
    assert head[1..] == v[..m] && v[m - 1..] == w[m..] && head[0] == w[0] && head[1] == w[1];
    WalkWeightFirst(adj, n, w);
    WalkWeightFirst(adj, n, head);
    AddAssociative(Hop(adj, n, w[0], w[1]), WalkWeight(adj, n, v[..m]), WalkWeight(adj, n, w[m..]));
  }

  /** The first step of a walk of at least two nodes, then the rest. */
  lemma WalkWeightFirst(adj: seq<real>, n: nat, w: seq<nat>)
    requires |adj| == n * n && |w| >= 2
    ensures WalkWeight(adj, n, w) == Add(Hop(adj, n, w[0], w[1]), WalkWeight(adj, n, w[1..]))
  {
  }

  /** Two walks that meet at a node below `k` make one walk, whose weight is their sum. */
  lemma WalkJoin(adj: seq<real>, n: nat, w1: seq<nat>, w2: seq<nat>, i: nat, p: nat, j: nat, k: nat)
    requires |adj| == n * n && Walk(n, w1, i, p, k) && Walk(n, w2, p, j, k) && p < k
    ensures Walk(n, w1 + w2[1..], i, j, k)
    ensures WalkWeight(adj, n, w1 + w2[1..]) == Add(WalkWeight(adj, n, w1), WalkWeight(adj, n, w2))
  {
    var w := w1 + w2[1..];
    forall m | 0 <= m < |w|
      ensures w[m] < n && (0 < m < |w| - 1 ==> w[m] < k)
    {
      if m < |w1| {
        assert w[m] == w1[m];
      } else {
        assert w[m] == w2[m - |w1| + 1];
      }
    }
    assert w[..|w1|] == w1 && w[|w1| - 1..] == w2;
    WalkSplit(adj, n, w, |w1| - 1);
  }

  /** Cutting a walk at an inner node gives two walks. */
  lemma WalkCut(n: nat, w: seq<nat>, i: nat, j: nat, k: nat, m: nat)
    requires Walk(n, w, i, j, k) && 0 < m < |w| - 1
    ensures Walk(n, w[..m + 1], i, w[m], k) && Walk(n, w[m..], w[m], j, k)
  {
    forall x | 0 <= x < |w| - m
      ensures w[m..][x] == w[m + x]
    {
    }
  }

  /** With non-negative weights no shortest distance is negative. */
  lemma {:induction false} ShortestUnsigned(adj: seq<real>, n: nat, k: nat, i: nat, j: nat)
    requires |adj| == n * n && NonNegative(adj) && k <= n && i < n && j < n
    ensures Unsigned(Shortest(adj, n, k, i, j))
  {
    if k > 0 {
      ShortestUnsigned(adj, n, k - 1, i, j);
      ShortestUnsigned(adj, n, k - 1, i, k - 1);
      ShortestUnsigned(adj, n, k - 1, k - 1, j);
    }
  }

  /** With non-negative weights the way from a node to itself stays 0. */
  lemma {:induction false} ShortestDiagonal(adj: seq<real>, n: nat, k: nat, i: nat)
    requires |adj| == n * n && NonNegative(adj) && k <= n && i < n
    ensures Shortest(adj, n, k, i, i) == Fin(0.0)
  {
    if k > 0 {
      ShortestDiagonal(adj, n, k - 1, i);
      ShortestUnsigned(adj, n, k - 1, i, k - 1);
      ShortestUnsigned(adj, n, k - 1, k - 1, i);
    }
  }

  /** Round `k` does not change row `k` or column `k`: going through `k` to reach `k` gains
      nothing. This is what lets the C loop update the table in place. */
  lemma ShortestStable(adj: seq<real>, n: nat, k: nat, i: nat, j: nat)
    requires |adj| == n * n && NonNegative(adj) && k < n && i < n && j < n
    ensures Shortest(adj, n, k + 1, i, k) == Shortest(adj, n, k, i, k)
    ensures Shortest(adj, n, k + 1, k, j) == Shortest(adj, n, k, k, j)
  {
    ShortestDiagonal(adj, n, k, k);
  }

  /** A walk whose length is the shortest distance: every entry is the weight of some walk. */
  function Witness(adj: seq<real>, n: nat, k: nat, i: nat, j: nat): (w: seq<nat>)
    requires |adj| == n * n && k <= n && i < n && j < n
    ensures Walk(n, w, i, j, k)
    ensures WalkWeight(adj, n, w) == Shortest(adj, n, k, i, j)
  {
    if k == 0 then [i, j]
    else
      var a := Shortest(adj, n, k - 1, i, j);
      var b := Add(Shortest(adj, n, k - 1, i, k - 1), Shortest(adj, n, k - 1, k - 1, j));
      if Greater(a, b) then
        var w1 := Witness(adj, n, k - 1, i, k - 1);
        var w2 := Witness(adj, n, k - 1, k - 1, j);
        WalkJoin(adj, n, w1, w2, i, k - 1, j, k);
        w1 + w2[1..]
      else Witness(adj, n, k - 1, i, j)
  }

  /** No walk whose inner nodes lie below `k` is shorter than `Shortest(k)`. */
  lemma {:induction false} ShortestOptimal(adj: seq<real>, n: nat, k: nat, w: seq<nat>, i: nat, j: nat)
    requires |adj| == n * n && NonNegative(adj) && k <= n && Walk(n, w, i, j, k)
    ensures Le(Shortest(adj, n, k, i, j), WalkWeight(adj, n, w))
    decreases k, |w|
  {
    if k == 0 {
      var second := w[1];
      assert |w| == 2;
      assert w[1..] == [j];
    } else if m :| 0 < m < |w| - 1 && w[m] == k - 1 {
      var w1, w2 := w[..m + 1], w[m..];
      WalkCut(n, w, i, j, k, m);
      WalkSplit(adj, n, w, m);
      ShortestOptimal(adj, n, k, w1, i, k - 1);
      ShortestOptimal(adj, n, k, w2, k - 1, j);
      ThroughBound(adj, n, k, i, j, WalkWeight(adj, n, w1), WalkWeight(adj, n, w2));
    } else {
      ShortestOptimal(adj, n, k - 1, w, i, j);
    }
  }

  /** Bounds on the two halves through `k - 1` bound the whole. */
  lemma ThroughBound(adj: seq<real>, n: nat, k: nat, i: nat, j: nat, a: Dist, b: Dist)
    requires |adj| == n * n && NonNegative(adj) && 0 < k <= n && i < n && j < n
    requires Le(Shortest(adj, n, k, i, k - 1), a) && Le(Shortest(adj, n, k, k - 1, j), b)
    ensures Le(Shortest(adj, n, k, i, j), Add(a, b))
  {
    ShortestStable(adj, n, k - 1, i, j);
    AddMono(a, b, Shortest(adj, n, k - 1, i, k - 1), Shortest(adj, n, k - 1, k - 1, j));
  }

  // ---------------------------------------------------------------------------------------
  // The in-place loop computes the recurrence.
  // ---------------------------------------------------------------------------------------

  /** Round `k` has visited the cells before `(i, j)` in row-major order: those hold
      `Shortest(k + 1)`, the others still `Shortest(k)`. */
  ghost predicate Partial(adj: seq<real>, n: nat, t: Tables, k: nat, i: nat, j: nat)
    requires |adj| == n * n && Sized(t, n) && k < n
  {
    forall r, c | 0 <= r < n && 0 <= c < n ::
      At(t, n, r, c) == if r < i || (r == i && c < j) then Shortest(adj, n, k + 1, r, c) else Shortest(adj, n, k, r, c)
  }

  /** Every `pred` entry is `-1` or a node. */
  ghost predicate PredsInRange(t: Tables, n: nat)
    requires Sized(t, n)
  {
    forall r, c | 0 <= r < n && 0 <= c < n :: -1 <= t.pred[Cell(n, r, c)] < n
  }

  /** Every diagonal `pred` entry is `-1`. */
  ghost predicate DiagonalPreds(t: Tables, n: nat)
    requires Sized(t, n)
  {
    forall i | 0 <= i < n :: t.pred[Cell(n, i, i)] == -1
  }

  /** `pred[i][j] == i` only where `m_adj` holds an edge from `i` to `j`. */
  ghost predicate DirectPreds(adj: seq<real>, n: nat, t: Tables)
    requires |adj| == n * n && Sized(t, n)
  {
    forall r, c | 0 <= r < n && 0 <= c < n :: t.pred[Cell(n, r, c)] == r ==> r != c && adj[Cell(n, r, c)] > 0.0
  }

  /** The three facts about `pred` that every step of the main loop keeps. */
  ghost predicate PredsSound(adj: seq<real>, n: nat, t: Tables)
    requires |adj| == n * n && Sized(t, n)
  {
    DiagonalPreds(t, n) && PredsInRange(t, n) && DirectPreds(adj, n, t)
  }

  lemma RelaxStep(adj: seq<real>, n: nat, t: Tables, k: nat, i: nat, j: nat)
    requires |adj| == n * n && NonNegative(adj) && Sized(t, n) && k < n && i < n && j < n
    requires Partial(adj, n, t, k, i, j) && PredsSound(adj, n, t)
    ensures var r := Relax(t, n, k, i, j);
      Partial(adj, n, r, k, i, j + 1) && PredsSound(adj, n, r)
  {
    var r := Relax(t, n, k, i, j);
    RelaxSpec(t, n, k, i, j);
    ShortestStable(adj, n, k, i, j);
    assert At(t, n, i, k) == Shortest(adj, n, k, i, k);
    assert At(t, n, k, j) == Shortest(adj, n, k, k, j);
    assert At(r, n, i, j) == Shortest(adj, n, k + 1, i, j);
    forall a, b | 0 <= a < n && 0 <= b < n && (a, b) != (i, j)
      ensures At(r, n, a, b) == At(t, n, a, b) && r.pred[Cell(n, a, b)] == t.pred[Cell(n, a, b)]
    {
      CellUnique(n, i, j, a, b);
    }
    if i == j {
      ShortestDiagonal(adj, n, k, i);
      ShortestUnsigned(adj, n, k, i, k);
      ShortestUnsigned(adj, n, k, k, i);
    }
    if i == k {
      ShortestDiagonal(adj, n, k, i);
    }
  }

  lemma {:induction false} RowStep(adj: seq<real>, n: nat, t: Tables, k: nat, i: nat, j: nat)
    requires |adj| == n * n && NonNegative(adj) && Sized(t, n) && k < n && i < n && j <= n
    requires Partial(adj, n, t, k, i, 0) && PredsSound(adj, n, t)
    ensures var r := Row(t, n, k, i, j);
      Partial(adj, n, r, k, i, j) && PredsSound(adj, n, r)
  {
    if j > 0 {
      RowStep(adj, n, t, k, i, j - 1);
      var s := Row(t, n, k, i, j - 1);
      RelaxStep(adj, n, s, k, i, j - 1);
      assert Row(t, n, k, i, j) == Relax(s, n, k, i, j - 1);
    }
  }

  lemma {:induction false} RoundStep(adj: seq<real>, n: nat, t: Tables, k: nat, i: nat)
    requires |adj| == n * n && NonNegative(adj) && Sized(t, n) && k < n && i <= n
    requires Partial(adj, n, t, k, 0, 0) && PredsSound(adj, n, t)
    ensures var r := Round(t, n, k, i);
      Partial(adj, n, r, k, i, 0) && PredsSound(adj, n, r)
  {
    if i > 0 {
      RoundStep(adj, n, t, k, i - 1);
      var s := Round(t, n, k, i - 1);
      RowStep(adj, n, s, k, i - 1, n);
      assert Round(t, n, k, i) == Row(s, n, k, i - 1, n);
      PartialNextRow(adj, n, Row(s, n, k, i - 1, n), k, i - 1);
    }
  }

  /** Finishing row `i` is starting row `i + 1`. */
  lemma PartialNextRow(adj: seq<real>, n: nat, t: Tables, k: nat, i: nat)
    requires |adj| == n * n && Sized(t, n) && k < n
    requires Partial(adj, n, t, k, i, n)
    ensures Partial(adj, n, t, k, i + 1, 0)
  {
    forall r, c | 0 <= r < n && 0 <= c < n
      ensures At(t, n, r, c) == if r < i + 1 then Shortest(adj, n, k + 1, r, c) else Shortest(adj, n, k, r, c)
    {
    }
  }

  /** After `k` rounds the table holds `Shortest(k)`. */
  lemma {:induction false} RoundsStep(adj: seq<real>, n: nat, t0: Tables, k: nat)
    requires Initialised(adj, n, t0) && NonNegative(adj) && k <= n
    ensures var t := Rounds(t0, n, k);
      && (forall r, c | 0 <= r < n && 0 <= c < n :: At(t, n, r, c) == Shortest(adj, n, k, r, c))
      && PredsSound(adj, n, t)
  {
    if k == 0 {
      forall r, c | 0 <= r < n && 0 <= c < n ensures At(t0, n, r, c) == Shortest(adj, n, 0, r, c) {
        assert InitCell(adj, n, t0, r, c);
      }
      forall i | 0 <= i < n ensures t0.pred[Cell(n, i, i)] == -1 {
        assert InitCell(adj, n, t0, i, i);
      }
      forall r, c | 0 <= r < n && 0 <= c < n
        ensures -1 <= t0.pred[Cell(n, r, c)] < n
        ensures t0.pred[Cell(n, r, c)] == r ==> r != c && adj[Cell(n, r, c)] > 0.0
      {
        assert InitCell(adj, n, t0, r, c);
      }
    } else {
      RoundsStep(adj, n, t0, k - 1);
      var s := Rounds(t0, n, k - 1);
      assert Partial(adj, n, s, k - 1, 0, 0);
      RoundStep(adj, n, s, k - 1, n);
    }
  }

  /** `pred` never claims more than the distances give: where `pred[i][j] == i` the entry is
      the direct step, and where it is another node `p`, going through `p` is no longer than
      the entry. */
  ghost predicate PredsTight(adj: seq<real>, n: nat, t: Tables)
    requires |adj| == n * n && Sized(t, n)
  {
    forall a, b {:trigger t.pred[Cell(n, a, b)]} | 0 <= a < n && 0 <= b < n ::
      var p := t.pred[Cell(n, a, b)];
      && (p == a ==> At(t, n, a, b) == Step(adj, n, a, b))
      && (0 <= p < n && p != a ==> Le(Add(At(t, n, a, p), At(t, n, p, b)), At(t, n, a, b)))
  }

  /** Lowering an operand never raises a sum. */
  lemma AddMono(a: Dist, b: Dist, a': Dist, b': Dist)
    requires Le(a', a) && Le(b', b)
    ensures Le(Add(a', b'), Add(a, b))
  {
  }

  lemma LeTrans(a: Dist, b: Dist, c: Dist)
    requires Le(a, b) && Le(b, c)
    ensures Le(a, c)
  {
  }

  /** Relaxing one cell keeps `pred` tight: a rewritten entry is exactly the sum through
      `k`, and every other entry can only have gained shorter halves. The diagonal entry of
      `k` stays 0. */
  lemma RelaxTight(adj: seq<real>, n: nat, t: Tables, k: nat, i: nat, j: nat)
    requires |adj| == n * n && Sized(t, n) && k < n && i < n && j < n
    requires At(t, n, k, k) == Fin(0.0) && PredsTight(adj, n, t)
    ensures PredsTight(adj, n, Relax(t, n, k, i, j)) && At(Relax(t, n, k, i, j), n, k, k) == Fin(0.0)
  {
    var r := Relax(t, n, k, i, j);
    RelaxSpec(t, n, k, i, j);
    if r != t {
      assert k != i && k != j;
      CellUnique(n, i, j, i, k);
      CellUnique(n, i, j, k, j);
      CellUnique(n, i, j, k, k);
      forall a, b | 0 <= a < n && 0 <= b < n
        ensures var p := r.pred[Cell(n, a, b)];
          && (p == a ==> At(r, n, a, b) == Step(adj, n, a, b))
          && (0 <= p < n && p != a ==> Le(Add(At(r, n, a, p), At(r, n, p, b)), At(r, n, a, b)))
      {
        if (a, b) != (i, j) {
          CellUnique(n, i, j, a, b);
          var p := t.pred[Cell(n, a, b)];
          if 0 <= p < n && p != a {
            AddMono(At(t, n, a, p), At(t, n, p, b), At(r, n, a, p), At(r, n, p, b));
            LeTrans(Add(At(r, n, a, p), At(r, n, p, b)), Add(At(t, n, a, p), At(t, n, p, b)), At(t, n, a, b));
          }
        }
      }
    }
  }

  /** Columns `0 .. j-1` of a row in round `k` keep `pred` tight and the diagonal entry of
      `k` at 0. */
  lemma {:induction false} RowTight(adj: seq<real>, n: nat, t: Tables, k: nat, i: nat, j: nat)
    requires |adj| == n * n && Sized(t, n) && k < n && i < n && j <= n
    requires At(t, n, k, k) == Fin(0.0) && PredsTight(adj, n, t)
    ensures PredsTight(adj, n, Row(t, n, k, i, j)) && At(Row(t, n, k, i, j), n, k, k) == Fin(0.0)
  {
    if j > 0 {
      RowTight(adj, n, t, k, i, j - 1);
      var s := Row(t, n, k, i, j - 1);
      RelaxTight(adj, n, s, k, i, j - 1);
      assert Row(t, n, k, i, j) == Relax(s, n, k, i, j - 1);
    }
  }

  /** Rows `0 .. i-1` of round `k` keep `pred` tight and the diagonal entry of `k` at 0. */
  lemma {:induction false} RoundTight(adj: seq<real>, n: nat, t: Tables, k: nat, i: nat)
    requires |adj| == n * n && Sized(t, n) && k < n && i <= n
    requires At(t, n, k, k) == Fin(0.0) && PredsTight(adj, n, t)
    ensures PredsTight(adj, n, Round(t, n, k, i)) && At(Round(t, n, k, i), n, k, k) == Fin(0.0)
  {
    if i > 0 {
      RoundTight(adj, n, t, k, i - 1);
      var s := Round(t, n, k, i - 1);
      RowTight(adj, n, s, k, i - 1, n);
      assert Round(t, n, k, i) == Row(s, n, k, i - 1, n);
    }
  }

  /** The initialised tables are tight: `pred` is the row only over a direct step. */
  lemma InitTight(adj: seq<real>, n: nat, t0: Tables)
    requires Initialised(adj, n, t0)
    ensures PredsTight(adj, n, t0)
  {
    forall a, b | 0 <= a < n && 0 <= b < n
      ensures t0.pred[Cell(n, a, b)] == a ==> At(t0, n, a, b) == Step(adj, n, a, b)
      ensures t0.pred[Cell(n, a, b)] == a || t0.pred[Cell(n, a, b)] == -1
    {
      assert InitCell(adj, n, t0, a, b);
    }
  }

  /** After any number of rounds the diagonal is still 0. */
  lemma RoundsDiagonal(adj: seq<real>, n: nat, t0: Tables, k: nat, d: nat)
    requires Initialised(adj, n, t0) && NonNegative(adj) && k <= n && d < n
    ensures At(Rounds(t0, n, k), n, d, d) == Fin(0.0)
  {
    RoundsStep(adj, n, t0, k);
    ShortestDiagonal(adj, n, k, d);
  }

  /** Every round keeps `pred` tight, starting from the initialised tables. */
  lemma {:induction false} RoundsTight(adj: seq<real>, n: nat, t0: Tables, k: nat)
    requires Initialised(adj, n, t0) && NonNegative(adj) && k <= n
    ensures PredsTight(adj, n, Rounds(t0, n, k))
  {
    if k == 0 {
      InitTight(adj, n, t0);
    } else {
      RoundsTight(adj, n, t0, k - 1);
      var s := Rounds(t0, n, k - 1);
      RoundsDiagonal(adj, n, t0, k - 1, k - 1);
      RoundTight(adj, n, s, k - 1, n);
      assert Rounds(t0, n, k) == Round(s, n, k - 1, n);
    }
  }

  /** In the final tables `pred` is exact: `pred[i][j] == i` marks the direct step, and any
      other node `p` in `pred[i][j]` splits `dist[i][j]` into `dist[i][p] + dist[p][j]`. */
  ghost predicate Through(adj: seq<real>, n: nat, t: Tables)
    requires |adj| == n * n && Sized(t, n)
  {
    forall a, b | 0 <= a < n && 0 <= b < n ::
      var p := t.pred[Cell(n, a, b)];
      && (p == a ==> At(t, n, a, b) == Step(adj, n, a, b))
      && (0 <= p < n && p != a ==> At(t, n, a, b) == Add(At(t, n, a, p), At(t, n, p, b)))
  }

  // ---------------------------------------------------------------------------------------
  // What `floydwarshall` leaves in the tables, for non-negative weights.
  // ---------------------------------------------------------------------------------------

  /** Every final `dist[i][j]` is the weight of some walk from `i` to `j`, and no walk from
      `i` to `j` weighs less. */
  lemma FinalShortest(adj: seq<real>, n: nat, t0: Tables)
    requires Initialised(adj, n, t0) && NonNegative(adj)
    ensures var t := Rounds(t0, n, n);
      && (forall i, j, w | Walk(n, w, i, j, n) :: Le(At(t, n, i, j), WalkWeight(adj, n, w)))
      && (forall i, j | 0 <= i < n && 0 <= j < n ::
            Walk(n, Witness(adj, n, n, i, j), i, j, n) && WalkWeight(adj, n, Witness(adj, n, n, i, j)) == At(t, n, i, j))
  {
    RoundsStep(adj, n, t0, n);
    forall i, j, w | Walk(n, w, i, j, n) ensures Le(Shortest(adj, n, n, i, j), WalkWeight(adj, n, w)) {
      ShortestOptimal(adj, n, n, w, i, j);
    }
  }

  /** The final table satisfies the triangle inequality. */
  lemma FinalTriangle(adj: seq<real>, n: nat, t0: Tables)
    requires Initialised(adj, n, t0) && NonNegative(adj)
    ensures Triangle(n, Rounds(t0, n, n))
  {
    RoundsStep(adj, n, t0, n);
    forall i, j, k | 0 <= i < n && 0 <= j < n && 0 <= k < n
      ensures Le(Shortest(adj, n, n, i, j), Add(Shortest(adj, n, n, i, k), Shortest(adj, n, n, k, j)))
    {
      var w1, w2 := Witness(adj, n, n, i, k), Witness(adj, n, n, k, j);
      WalkJoin(adj, n, w1, w2, i, k, j, n);
      ShortestOptimal(adj, n, n, w1 + w2[1..], i, j);
    }
  }

  /** The diagonal of `dist` stays 0 and that of `pred` stays `-1`; every `pred` entry is
      `-1` or a node, and `pred[i][j] == i` only over an edge of `m_adj`. */
  lemma FinalDiagonal(adj: seq<real>, n: nat, t0: Tables)
    requires Initialised(adj, n, t0) && NonNegative(adj)
    ensures var t := Rounds(t0, n, n);
      && (forall i | 0 <= i < n :: At(t, n, i, i) == Fin(0.0) && t.pred[Cell(n, i, i)] == -1)
      && (forall i, j | 0 <= i < n && 0 <= j < n :: -1 <= t.pred[Cell(n, i, j)] < n)
      && DirectPreds(adj, n, t)
  {
    RoundsStep(adj, n, t0, n);
    forall i | 0 <= i < n ensures Shortest(adj, n, n, i, i) == Fin(0.0) {
      ShortestDiagonal(adj, n, n, i);
    }
  }

  /** No entry is longer than the way through any third node. */
  ghost predicate Triangle(n: nat, t: Tables)
    requires Sized(t, n)
  {
    forall i, j, k | 0 <= i < n && 0 <= j < n && 0 <= k < n :: Le(At(t, n, i, j), Add(At(t, n, i, k), At(t, n, k, j)))
  }

  /** Tight tables that satisfy the triangle inequality are exact. */
  lemma TightThrough(adj: seq<real>, n: nat, t: Tables)
    requires |adj| == n * n && Sized(t, n)
    requires PredsTight(adj, n, t) && Triangle(n, t)
    ensures Through(adj, n, t)
  {
    forall a, b | 0 <= a < n && 0 <= b < n
      ensures var p := t.pred[Cell(n, a, b)];
        0 <= p < n && p != a ==> At(t, n, a, b) == Add(At(t, n, a, p), At(t, n, p, b))
    {
      var p := t.pred[Cell(n, a, b)];
      if 0 <= p < n && p != a {
        assert Le(At(t, n, a, b), Add(At(t, n, a, p), At(t, n, p, b)));
      }
    }
  }

  /** The final tables satisfy `Through`: tightness gives one inequality, the triangle
      inequality the other. */
  lemma FinalThrough(adj: seq<real>, n: nat, t0: Tables)
    requires Initialised(adj, n, t0) && NonNegative(adj)
    ensures Through(adj, n, Rounds(t0, n, n))
  {
    RoundsTight(adj, n, t0, n);
    FinalTriangle(adj, n, t0);
    TightThrough(adj, n, Rounds(t0, n, n));
  }
}
