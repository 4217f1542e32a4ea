/** The partition of the nodes into the connected classes of a list of edges: the
    reference against which the union-find forest and Kruskal's loop are proved. */
module Partition {
  import opened Base
  import opened Edges

  /** The class of `x` once the edges of `es` have been merged in order. */
  ghost function Class(es: seq<Edge>, x: Node): set<Node>
    decreases |es|
  {
    if es == [] then {x}
    else
      var init, e := es[..|es| - 1], es[|es| - 1];
      var c := Class(init, x);
      if e.u in c || e.v in c then c + Class(init, e.u) + Class(init, e.v) else c
  }

  ghost predicate Connected(es: seq<Edge>, x: Node, y: Node) {
    y in Class(es, x)
  }

  lemma {:induction false} ClassHasSelf(es: seq<Edge>, x: Node)
    ensures x in Class(es, x)
    decreases |es|
  {
    if es != [] {
      ClassHasSelf(es[..|es| - 1], x);
    }
  }

  /** Two classes are equal as soon as they meet: connectivity is an equivalence. */
  lemma {:induction false} ClassOfMember(es: seq<Edge>, x: Node, y: Node)
    requires y in Class(es, x)
    ensures Class(es, y) == Class(es, x)
    decreases |es|
  {
    if es != [] {
      var init, e := es[..|es| - 1], es[|es| - 1];
      var a, u, v := Class(init, x), Class(init, e.u), Class(init, e.v);
      ClassHasSelf(init, e.u);
      ClassHasSelf(init, e.v);
      if e.u in a || e.v in a {
        if e.u in a { ClassOfMember(init, x, e.u); }
        if e.v in a { ClassOfMember(init, x, e.v); }
        if y in a {
          ClassOfMember(init, x, y);
        } else if y in u {
          ClassOfMember(init, e.u, y);
        } else {
          ClassOfMember(init, e.v, y);
        }
      } else {
        ClassOfMember(init, x, y);
      }
    }
  }

  lemma ConnectedSymmetric(es: seq<Edge>, x: Node, y: Node)
    requires Connected(es, x, y)
    ensures Connected(es, y, x)
  {
    ClassOfMember(es, x, y);
    ClassHasSelf(es, x);
  }

  /** Appending an edge joins exactly the classes of its two endpoints. */
  lemma ConnectedAppend(es: seq<Edge>, e: Edge, x: Node, y: Node)
    ensures Connected(es + [e], x, y) <==>
      Connected(es, x, y)
      || (Connected(es, x, e.u) && Connected(es, e.v, y))
      || (Connected(es, x, e.v) && Connected(es, e.u, y))
  {
    assert (es + [e])[..|es|] == es;
    var a := Class(es, x);
    ClassHasSelf(es, e.u);
    ClassHasSelf(es, e.v);
    if e.u in a { ClassOfMember(es, x, e.u); }
    if e.v in a { ClassOfMember(es, x, e.v); }
    if y in Class(es, e.u) { ClassOfMember(es, e.u, y); }
    if y in Class(es, e.v) { ClassOfMember(es, e.v, y); }
    if e.u in Class(es, e.v) { ClassOfMember(es, e.v, e.u); }
    if e.v in Class(es, e.u) { ClassOfMember(es, e.u, e.v); }
  }

  /** A node that no edge touches is alone in its class. */
  lemma {:induction false} Untouched(es: seq<Edge>, x: Node)
    requires forall e | e in es :: e.u != x && e.v != x
    ensures Class(es, x) == {x}
    decreases |es|
  {
    if es != [] {
      var init, e := es[..|es| - 1], es[|es| - 1];
      assert forall d | d in init :: d in es;
      Untouched(init, x);
      assert e in es;
    }
  }

  /** Every edge of the list connects its own endpoints. */
  lemma {:induction false} EdgeConnects(es: seq<Edge>, i: nat)
    requires i < |es|
    ensures Connected(es, es[i].u, es[i].v)
    decreases |es|
  {
    var init, e := es[..|es| - 1], es[|es| - 1];
    assert es == init + [e];
    ClassHasSelf(init, es[i].u);
    ClassHasSelf(init, es[i].v);
    ConnectedAppend(init, e, es[i].u, es[i].v);
    if i < |es| - 1 {
      EdgeConnects(init, i);
    }
  }

  /** Every edge of the list joins two classes that the edges before it kept apart. */
  ghost predicate Acyclic(es: seq<Edge>) {
    forall k | 0 <= k < |es| :: !Connected(es[..k], es[k].u, es[k].v)
  }

  /** Appending an edge between two classes keeps a list acyclic. */
  lemma AcyclicAppend(es: seq<Edge>, e: Edge)
    requires Acyclic(es) && !Connected(es, e.u, e.v)
    ensures Acyclic(es + [e])
  {
    forall k | 0 <= k < |es| + 1
      ensures !Connected((es + [e])[..k], (es + [e])[k].u, (es + [e])[k].v)
    {
      if k < |es| {
        assert (es + [e])[..k] == es[..k];
      } else {
        assert (es + [e])[..k] == es;
      }
    }
  }

  /** Appending an edge keeps every connection, and connects the edge's own endpoints. */
  lemma ConnectedGrows(es: seq<Edge>, e: Edge, x: Node, y: Node)
    requires Connected(es, x, y) || (x == e.u && y == e.v)
    ensures Connected(es + [e], x, y)
  {
    ConnectedAppend(es, e, x, y);
    ClassHasSelf(es, e.u);
    ClassHasSelf(es, e.v);
  }

  /** An acyclic list holds no edge twice. */
  lemma AcyclicNoDup(es: seq<Edge>)
    requires Acyclic(es)
    ensures NoDup(es)
  {
    forall k, l | 0 <= k < l < |es|
      ensures es[k] != es[l]
    {
      if es[k] == es[l] {
        assert es[..l][k] == es[l];
        EdgeConnects(es[..l], k);
      }
    }
  }
}
