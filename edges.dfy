/** Nodes, weighted edges and the weight of a set of edges. */
module Edges {
  import opened Base

  /** A node is an opaque identity; the model numbers nodes. */
  type Node = nat

  /** A weighted edge. `id` stands for the identity of the Python object: two edges
      between the same pair are different edges unless they carry the same id. */
  datatype Edge = Edge(id: nat, u: Node, v: Node, weight: real)

  /** The edges the system is built for: no loop, a non-negative weight. */
  predicate Proper(e: Edge) {
    e.u != e.v && e.weight >= 0.0
  }

  /** The sort key of `get_mst_kruskal`. */
  function Weight(e: Edge): real {
    e.weight
  }

  /** The sum of the weights of a set of edges, each counted once. */
  ghost function Total(s: set<Edge>): real {
    if s == {} then 0.0
    else
      var e :| e in s;
      e.weight + Total(s - {e})
  }

  /** Any element can be taken out first, whichever one `Total` happened to choose. */
  lemma {:induction false} TotalRemove(s: set<Edge>, e: Edge)
    requires e in s
    ensures Total(s) == e.weight + Total(s - {e})
    decreases |s|
  {
    var d :| d in s && Total(s) == d.weight + Total(s - {d});
    if d != e {
      TotalRemove(s - {d}, e);
      TotalRemove(s - {e}, d);
      assert s - {d} - {e} == s - {e} - {d};
    }
  }

  lemma TotalAdd(s: set<Edge>, e: Edge)
    requires e !in s
    ensures Total(s + {e}) == Total(s) + e.weight
  {
    TotalRemove(s + {e}, e);
    assert s + {e} - {e} == s;
  }

  lemma {:induction false} TotalNonNegative(s: set<Edge>)
    requires forall e | e in s :: e.weight >= 0.0
    ensures Total(s) >= 0.0
    decreases |s|
  {
    if s != {} {
      var e :| e in s;
      TotalRemove(s, e);
      TotalNonNegative(s - {e});
    }
  }

  /** Dropping edges of non-negative weight never raises the total. */
  lemma {:induction false} TotalSubset(s: set<Edge>, t: set<Edge>)
    requires s <= t && forall e | e in t :: e.weight >= 0.0
    ensures Total(s) <= Total(t)
    decreases t
  {
    if s != t {
      var e :| e in t && e !in s;
      TotalRemove(t, e);
      TotalSubset(s, t - {e});
    }
  }

  /** The total weight of a list of edges, as Python's `reduce(+, ...)` over it. */
  function SumWeights(es: seq<Edge>): real {
    if es == [] then 0.0 else SumWeights(es[..|es| - 1]) + es[|es| - 1].weight
  }

  /** The weight of two lists one after the other is the sum of their weights. */
  lemma {:induction false} SumWeightsAppend(xs: seq<Edge>, ys: seq<Edge>)
    ensures SumWeights(xs + ys) == SumWeights(xs) + SumWeights(ys)
    decreases |ys|
  {
    if ys == [] {
      assert xs + ys == xs;
    } else {
      var init := ys[..|ys| - 1];
      SumWeightsAppend(xs, init);
      assert (xs + ys)[..|xs + ys| - 1] == xs + init;
    }
  }

  /** Summing a duplicate-free list is summing the set of its elements. */
  lemma {:induction false} SumWeightsIsTotal(es: seq<Edge>)
    requires NoDup(es)
    ensures SumWeights(es) == Total(set e | e in es)
  {
    if es != [] {
      var init, last := es[..|es| - 1], es[|es| - 1];
      assert NoDup(init);
      SumWeightsIsTotal(init);
      assert last !in init;
      assert (set e | e in es) == (set e | e in init) + {last} by {
        assert es == init + [last];
      }
      TotalAdd((set e | e in init), last);
    }
  }
}
