/** Spanning forests of a set of edges. An acyclic list of edges over the nodes `vs` leaves
    exactly `|vs| - |es|` classes, so every spanning forest of the same edges has the same
    size, and a forest built greedily by weight is one of least total weight. */
module Forests {
  import opened Edges
  import opened Partition

  /** The nodes some edge of `es` touches. */
  ghost function Ends(es: seq<Edge>): set<Node> {
    (set d | d in es :: d.u) + (set d | d in es :: d.v)
  }

  /** The classes the nodes of `vs` fall into once the edges of `es` are merged. */
  ghost function Classes(es: seq<Edge>, vs: set<Node>): set<set<Node>> {
    set x | x in vs :: Class(es, x)
  }

  /** `t` is a spanning forest of the edges `es`: an acyclic list of them that connects the
      two ends of every one of them. */
  ghost predicate SpanningForest(t: seq<Edge>, es: set<Edge>) {
    && Acyclic(t)
    && (forall d | d in t :: d in es)
    && (forall d | d in es :: Connected(t, d.u, d.v))
  }

  /** The edges of `es` lighter than `w`, in their order. */
  function Lighter(es: seq<Edge>, w: real): (r: seq<Edge>)
    ensures |r| <= |es|
  {
    if es == [] then []
    else
      var init, e := es[..|es| - 1], es[|es| - 1];
      assert es == init + [e];
      Lighter(init, w) + if e.weight < w then [e] else []
  }

  /** What `Lighter` keeps: edges of the list, and only those lighter than `w`. */
  lemma {:induction false} LighterMembers(es: seq<Edge>, w: real)
    ensures forall d | d in Lighter(es, w) :: d in es && d.weight < w
    decreases |es|
  {
    if es != [] {
      var init := es[..|es| - 1];
      LighterMembers(init, w);
      assert forall d | d in init :: d in es;
    }
  }

  lemma ClassesSplit(es: seq<Edge>, vs: set<Node>, x: Node)
    requires x in vs
    ensures Classes(es, vs) == Classes(es, vs - {x}) + {Class(es, x)}
  {
  }

  /** Before any edge, every node is a class of its own. */
  lemma {:induction false} ClassesEmpty(vs: set<Node>)
    ensures |Classes([], vs)| == |vs|
    decreases vs
  {
    if vs != {} {
      var x :| x in vs;
      var ws := vs - {x};
      ClassesEmpty(ws);
      ClassesSplit([], vs, x);
      assert Class([], x) == {x};
      forall y | y in ws ensures Class([], y) != {x} {
        assert Class([], y) == {y};
      }
    }
  }

  /** Appending an edge between two classes merges them and leaves the others alone. */
  lemma ClassAfterJoin(es: seq<Edge>, e: Edge, x: Node)
    ensures Class(es + [e], x) ==
      if x in Class(es, e.u) + Class(es, e.v) then Class(es, e.u) + Class(es, e.v) else Class(es, x)
  {
    assert (es + [e])[..|es|] == es;
    var c, cu, cv := Class(es, x), Class(es, e.u), Class(es, e.v);
    ClassHasSelf(es, x);
    if e.u in c {
      ClassOfMember(es, x, e.u);
    } else if e.v in c {
      ClassOfMember(es, x, e.v);
    } else if x in cu {
      ClassOfMember(es, e.u, x);
      ClassHasSelf(es, e.u);
    } else if x in cv {
      ClassOfMember(es, e.v, x);
      ClassHasSelf(es, e.v);
    }
  }

  /** An edge between two classes leaves one class fewer. */
  lemma ClassesMerge(es: seq<Edge>, e: Edge, vs: set<Node>)
    requires e.u in vs && e.v in vs && !Connected(es, e.u, e.v)
    ensures |Classes(es + [e], vs)| + 1 == |Classes(es, vs)|
  {
    var cu, cv := Class(es, e.u), Class(es, e.v);
    var before := Classes(es, vs);
    forall x | x in vs
      ensures Class(es + [e], x) == if x in cu + cv then cu + cv else Class(es, x)
    {
      ClassAfterJoin(es, e, x);
    }
    ClassHasSelf(es, e.v);
    assert cu != cv;
    if cu + cv in before {
      var y :| y in vs && Class(es, y) == cu + cv;
      ClassHasSelf(es, e.u);
      ClassOfMember(es, y, e.u);
      assert false;
    }
    var rest := before - {cu, cv};
    forall c | c in Classes(es + [e], vs) ensures c in rest + {cu + cv} {
      var x :| x in vs && Class(es + [e], x) == c;
      if x !in cu + cv {
        if Class(es, x) == cu {
          ClassHasSelf(es, x);
        } else if Class(es, x) == cv {
          ClassHasSelf(es, x);
        }
      }
    }
    forall c | c in rest + {cu + cv} ensures c in Classes(es + [e], vs) {
      if c == cu + cv {
        ClassHasSelf(es, e.u);
        assert Class(es + [e], e.u) == c;
      } else {
        var x :| x in vs && Class(es, x) == c;
        ClassHasSelf(es, x);
        if x in cu {
          ClassOfMember(es, e.u, x);
        } else if x in cv {
          ClassOfMember(es, e.v, x);
        }
        assert Class(es + [e], x) == c;
      }
    }
    assert Classes(es + [e], vs) == rest + {cu + cv};
    assert |before - {cu}| == |before| - 1;
    assert rest == (before - {cu}) - {cv};
  }

  /** A prefix of an acyclic list is acyclic. */
  lemma AcyclicPrefix(es: seq<Edge>, n: nat)
    requires Acyclic(es) && n <= |es|
    ensures Acyclic(es[..n])
  {
    forall k | 0 <= k < n ensures !Connected(es[..n][..k], es[..n][k].u, es[..n][k].v) {
      assert es[..n][..k] == es[..k];
    }
  }

  /** An acyclic list whose ends lie in `vs` leaves `|vs| - |es|` classes of `vs`. */
  lemma {:induction false} ForestClasses(es: seq<Edge>, vs: set<Node>)
    requires Acyclic(es) && Ends(es) <= vs
    ensures |Classes(es, vs)| + |es| == |vs|
    decreases |es|
  {
    if es == [] {
      ClassesEmpty(vs);
    } else {
      var init, e := es[..|es| - 1], es[|es| - 1];
      assert es == init + [e];
      AcyclicPrefix(es, |es| - 1);
      assert Ends(init) <= Ends(es);
      ForestClasses(init, vs);
      assert e.u in Ends(es) && e.v in Ends(es);
      ClassesMerge(init, e, vs);
    }
  }

  /** When `a` connects the ends of every edge of `b`, each class of `b` lies within the class
      of `a` of the same node. */
  lemma {:induction false} ClassWithin(a: seq<Edge>, b: seq<Edge>, x: Node)
    requires forall d | d in b :: Connected(a, d.u, d.v)
    ensures Class(b, x) <= Class(a, x)
    decreases |b|
  {
    ClassHasSelf(a, x);
    if b != [] {
      var init, d := b[..|b| - 1], b[|b| - 1];
      assert forall d' | d' in init :: d' in b;
      ClassWithin(a, init, x);
      ClassWithin(a, init, d.u);
      ClassWithin(a, init, d.v);
      var c := Class(init, x);
      if d.u in c || d.v in c {
        assert d in b;
        ClassOfMember(a, d.u, d.v);
        if d.u in c {
          ClassOfMember(a, x, d.u);
        } else {
          ClassOfMember(a, x, d.v);
        }
      }
    }
  }

  /** When `a` connects the ends of every edge of `b`, `a` splits `vs` into no more classes
      than `b` does. */
  lemma {:induction false} ClassesFewer(a: seq<Edge>, b: seq<Edge>, vs: set<Node>)
    requires forall d | d in b :: Connected(a, d.u, d.v)
    ensures |Classes(a, vs)| <= |Classes(b, vs)|
    decreases vs
  {
    if vs != {} {
      var x :| x in vs;
      var ws := vs - {x};
      ClassesFewer(a, b, ws);
      ClassesSplit(a, vs, x);
      ClassesSplit(b, vs, x);
      if Class(b, x) in Classes(b, ws) {
        var y :| y in ws && Class(b, y) == Class(b, x);
        ClassHasSelf(b, y);
        ClassWithin(a, b, x);
        ClassOfMember(a, x, y);
        assert Classes(a, vs) == Classes(a, ws);
      }
    }
  }

  /** The exchange property of forests: when `a` connects the ends of every edge of the
      acyclic `b`, `b` has no more edges than the acyclic `a`. */
  lemma Augment(a: seq<Edge>, b: seq<Edge>)
    requires Acyclic(a) && Acyclic(b)
    requires forall d | d in b :: Connected(a, d.u, d.v)
    ensures |b| <= |a|
  {
    var vs := Ends(a) + Ends(b);
    ForestClasses(a, vs);
    ForestClasses(b, vs);
    ClassesFewer(a, b, vs);
  }

  /** Every edge of a list connects its own ends within the list. */
  lemma EdgesConnected(es: seq<Edge>)
    ensures forall d | d in es :: Connected(es, d.u, d.v)
  {
    forall d | d in es ensures Connected(es, d.u, d.v) {
      var k :| 0 <= k < |es| && es[k] == d;
      EdgeConnects(es, k);
    }
  }

  /** The light edges of an acyclic list are an acyclic list. */
  lemma {:induction false} LighterAcyclic(es: seq<Edge>, w: real)
    requires Acyclic(es)
    ensures Acyclic(Lighter(es, w))
    decreases |es|
  {
    if es != [] {
      var init, e := es[..|es| - 1], es[|es| - 1];
      assert es == init + [e];
      AcyclicPrefix(es, |es| - 1);
      LighterAcyclic(init, w);
      var l := Lighter(init, w);
      if e.weight < w {
        assert !Connected(es[..|es| - 1], es[|es| - 1].u, es[|es| - 1].v);
        LighterMembers(init, w);
        EdgesConnected(init);
        ClassWithin(init, l, e.u);
        AcyclicAppend(l, e);
        assert Lighter(es, w) == l + [e];
      } else {
        assert Lighter(es, w) == l + [];
        assert l + [] == l;
      }
    }
  }

  lemma {:induction false} LighterAppend(xs: seq<Edge>, ys: seq<Edge>, w: real)
    ensures Lighter(xs + ys, w) == Lighter(xs, w) + Lighter(ys, w)
    decreases |ys|
  {
    if ys == [] {
      assert xs + ys == xs;
    } else {
      var init := ys[..|ys| - 1];
      LighterAppend(xs, init, w);
      assert (xs + ys)[..|xs + ys| - 1] == xs + init;
    }
  }

  /** Taking one edge out of a list leaves no more light edges than before. */
  lemma LighterRemove(t: seq<Edge>, j: nat, w: real)
    requires j < |t|
    ensures |Lighter(t[..j] + t[j + 1..], w)| <= |Lighter(t, w)|
  {
    SplitAround(t, j);
    LighterAppend(t[..j] + [t[j]], t[j + 1..], w);
    LighterAppend(t[..j], [t[j]], w);
    LighterAppend(t[..j], t[j + 1..], w);
  }

  /** Taking one edge out of a list takes its weight off the sum. */
  lemma SumWeightsRemove(t: seq<Edge>, j: nat)
    requires j < |t|
    ensures SumWeights(t) == SumWeights(t[..j] + t[j + 1..]) + t[j].weight
  {
    SplitAround(t, j);
    SumWeightsWithout(t[..j], t[j], t[j + 1..]);
  }

  lemma SplitAround(t: seq<Edge>, j: nat)
    requires j < |t|
    ensures t == t[..j] + [t[j]] + t[j + 1..]
  {
  }

  lemma SumWeightsWithout(a: seq<Edge>, e: Edge, b: seq<Edge>)
    ensures SumWeights(a + [e] + b) == SumWeights(a + b) + e.weight
  {
    SumWeightsAppend(a + [e], b);
    SumWeightsAppend(a, [e]);
    SumWeightsAppend(a, b);
    assert SumWeights([e]) == e.weight by {
      assert [e][..0] == [];
    }
  }

  /** Comparing weights position by position: if `m` is sorted by weight and, for every `i`,
      fewer than `i + 1` edges of the equally long `t` are lighter than `m[i]`, then `t`
      weighs at least as much as `m`. */
  lemma {:induction false} SumDominated(m: seq<Edge>, t: seq<Edge>)
    requires |t| == |m|
    requires forall k, l | 0 <= k < l < |m| :: m[k].weight <= m[l].weight
    requires forall i | 0 <= i < |m| :: |Lighter(t, m[i].weight)| <= i
    ensures SumWeights(m) <= SumWeights(t)
    decreases |m|
  {
    if m != [] {
      var n := |m| - 1;
      var x := m[n].weight;
      var j := Heavy(t, x);
      var rest := t[..j] + t[j + 1..];
      SumWeightsRemove(t, j);
      forall i | 0 <= i < n ensures |Lighter(rest, m[..n][i].weight)| <= i {
        LighterRemove(t, j, m[i].weight);
      }
      SumDominated(m[..n], rest);
    }
  }

  /** A list with fewer light edges than edges has an edge at least as heavy as `w`. */
  lemma Heavy(t: seq<Edge>, w: real) returns (j: nat)
    requires |Lighter(t, w)| < |t|
    ensures j < |t| && t[j].weight >= w
  {
    if forall d | d in t :: d.weight < w {
      LighterComplete(t, w);
      assert false;
    }
    var d :| d in t && d.weight >= w;
    j :| j < |t| && t[j] == d;
  }

  /** When every edge is lighter than `w`, all of them are kept. */
  lemma {:induction false} LighterComplete(t: seq<Edge>, w: real)
    requires forall d | d in t :: d.weight < w
    ensures Lighter(t, w) == t
    decreases |t|
  {
    if t != [] {
      var init := t[..|t| - 1];
      assert forall d | d in init :: d in t;
      LighterComplete(init, w);
      assert t[|t| - 1] in t;
    }
  }
}
