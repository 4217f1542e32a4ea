/** The simulated-annealing driver of simulannealing.py. The bookkeeping of one iteration
    (the cost difference, the scale `k`, acceptance, the best-so-far tree and the stagnation
    counter) is the pure function `Step` on costs; `SimulatedAnnealing.GetMinSteinerTree`
    runs the two nested loops over it and moves the tree objects accordingly. The two random
    draws are oracles: `pick` chooses the edge that `Neighborhood.get` cuts, and `draw` is the
    outcome of the Metropolis test `random.random() < exp(-(delta / (k * t)))`. */
module Annealing {
  import opened Base
  import opened Edges
  import opened Adjacencies
  import opened Graphs
  import opened SteinerTrees
  import opened Paths
  import opened Heuristics

  /** Outcome of the Metropolis test: accepted, rejected, or `math.exp` overflowed. */
  datatype Verdict = Accept | Reject | Overflow

  /** What the scale `k` is computed from: the first nonzero `delta` and the temperature at
      that moment (`k = -(delta / (log(0.9999) * t))`). */
  datatype Temper = Temper(delta: real, temperature: real)

  /** The numbers one iteration reads and writes: the cost of `current`, the cost of
      `self.optimal`, `k` (None until the first nonzero delta) and `count`. */
  datatype Control = Control(current: real, optimal: real, k: Option<Temper>, count: int)

  /** The result of one iteration: the new control numbers, whether the neighbour became
      `current`, whether it became `self.optimal`, whether the run returns now, and whether
      the iteration raised `ZeroDivisionError`. */
  datatype Move = Move(next: Control, accepted: bool, improved: bool, stop: bool, raised: bool)

  function Abs(x: real): real {
    if x < 0.0 then -x else x
  }

  /** The scale `k` after an iteration with the given `delta` at temperature `t`. */
  function Scale(k: Option<Temper>, delta: real, t: real): (r: Option<Temper>)
    // there is a scale afterwards, and once there is one it never changes
    ensures r.Some? && (k.Some? ==> r == k)
    ensures r.value.delta == (if k.Some? then k.value.delta else delta)
  {
    if k.None? then Some(Temper(delta, t)) else k
  }

  /** The stagnation test of an iteration that did not return early: `count` grows while the
      change stays under `percent` of the cost of `current`, and is reset otherwise. */
  function Stagnate(c: Control, delta: real, accepted: bool, improved: bool, percent: real, stop: int): (r: Move)
    // only `count` moves: it grows by one on a small change and is reset on a large one
    ensures r.next == c.(count := r.next.count) && !r.raised
    ensures r.accepted == accepted && r.improved == improved
    ensures r.next.count == if Abs(delta) < percent * c.current then c.count + 1 else 0
    // the run returns exactly when the grown count reaches `stop`, never on a reset
    ensures r.stop <==> Abs(delta) < percent * c.current && r.next.count >= stop
  {
    if Abs(delta) < percent * c.current then
      Move(c.(count := c.count + 1), accepted, improved, c.count + 1 >= stop, false)
    else
      Move(c.(count := 0), accepted, improved, false, false)
  }

  /** One iteration of the inner loop, given the cost of the neighbour and the outcome
      `verdict` of the Metropolis test, which is consulted only for a dearer neighbour. */
  function Step(c: Control, newCost: real, t: real, verdict: Verdict, percent: real, stop: int): (r: Move)
    // a zero difference changes nothing
    ensures newCost == c.current ==> r == Move(c, false, false, false, false)
    // computing k divides by t, and the test divides by k * t: at t == 0 the first
    // nonzero difference, and every dearer neighbour, raise before anything changes
    ensures r.raised <==> newCost != c.current && t == 0.0 && (c.k.None? || newCost > c.current)
    ensures r.raised ==> r == Move(c, false, false, false, true)
    // k is fixed by the first nonzero difference and never changes afterwards
    ensures c.k.Some? ==> r.next.k == c.k
    ensures c.k.None? && newCost != c.current && !r.raised ==> r.next.k == Some(Temper(newCost - c.current, t))
    // a cheaper neighbour is always taken; a dearer one only on the Metropolis test
    ensures r.next.current == if r.accepted then newCost else c.current
    ensures newCost < c.current && !r.raised ==> r.accepted
    ensures newCost > c.current && !r.raised ==> (r.accepted <==> verdict == Accept)
    // the best tree is replaced only by a strictly cheaper, accepted one
    ensures r.improved <==> !r.raised && newCost < c.current && newCost < c.optimal
    ensures r.improved ==> r.accepted
    ensures r.next.optimal == if r.improved then newCost else c.optimal
    ensures r.next.optimal <= c.optimal
    ensures c.optimal <= c.current ==> r.next.optimal <= r.next.current
    // the run returns on an overflow or once `count` reaches `stop`
    ensures r.stop <==> (newCost != c.current && !r.raised &&
      if newCost > c.current && verdict == Overflow
      then true
      else Abs(newCost - c.current) < percent * r.next.current && c.count + 1 >= stop)
    ensures r.stop && r.next.count != c.count + 1 ==> !r.accepted
    ensures newCost != c.current && !r.stop && !r.raised ==>
      r.next.count == if Abs(newCost - c.current) < percent * r.next.current then c.count + 1 else 0
  {
    var delta := newCost - c.current;
    if delta == 0.0 then Move(c, false, false, false, false)
    else if t == 0.0 && (c.k.None? || delta > 0.0) then Move(c, false, false, false, true)
    else
      var k := Scale(c.k, delta, t);
      if delta < 0.0 then
        var improved := newCost < c.optimal;
        Stagnate(Control(newCost, if improved then newCost else c.optimal, k, c.count),
                 delta, true, improved, percent, stop)
      else if verdict == Overflow then Move(c.(k := k), false, false, true, false)
      else
        var accepted := verdict == Accept;
        Stagnate(c.(current := if accepted then newCost else c.current, k := k),
                 delta, accepted, false, percent, stop)
  }

  /** One evaluated neighbour: its stage `i`, iteration `j` and temperature `t`, the control
      numbers before it, its cost, the outcome of the Metropolis test for it, and the move
      `Step` makes. */
  datatype Trial = Trial(i: nat, j: nat, t: real, before: Control, newCost: real, verdict: Verdict, move: Move)

  /** The control numbers after the trials, starting from `c0`. */
  function After(c0: Control, trials: seq<Trial>): Control {
    if trials == [] then c0 else trials[|trials| - 1].move.next
  }

  /** The costs `current` takes during a run: the starting cost, then the cost of each
      accepted neighbour, in order. */
  function Visited(start: real, trials: seq<Trial>): (r: seq<real>)
    ensures |r| >= 1 && r[0] == start
  {
    if trials == [] then [start]
    else
      var last := trials[|trials| - 1];
      Visited(start, trials[..|trials| - 1]) + if last.move.accepted then [last.newCost] else []
  }

  /** The trial happens at stage `i < l1`, iteration `j < l2`, at the temperature of its
      stage; its verdict is the oracle's answer for it and its move is `Step`'s. */
  ghost predicate Sound(tr: Trial, t0: real, alfa: real, l1: nat, l2: nat,
                        draw: (nat, nat, real, Temper, real) -> Verdict, percent: real, stop: int) {
    var delta := tr.newCost - tr.before.current;
    && tr.i < l1 && tr.j < l2 && tr.t == Cooled(t0, alfa, tr.i)
    && tr.verdict == draw(tr.i, tr.j, delta, Scale(tr.before.k, delta, tr.t).value, tr.t)
    && tr.move == Step(tr.before, tr.newCost, tr.t, tr.verdict, percent, stop)
  }

  /** `a` comes before position (`i`, `j`) of the nested loops. */
  predicate Earlier(a: Trial, i: nat, j: nat) {
    a.i < i || (a.i == i && a.j < j)
  }

  /** `tr` may follow the trials `prefix` of a run from `c0`: it starts where they left off,
      and comes later in the loops than the last of them, which did not end the run. */
  predicate Follows(prefix: seq<Trial>, tr: Trial, c0: Control) {
    && tr.before == After(c0, prefix)
    && (prefix != [] ==> var last := prefix[|prefix| - 1];
          Earlier(last, tr.i, tr.j) && !last.move.stop && !last.move.raised)
  }

  /** What the nested loops evaluate from the control numbers `c0`: sound trials, each one
      following those before it. */
  ghost predicate Run(trials: seq<Trial>, c0: Control, t0: real, alfa: real, l1: nat, l2: nat,
                      draw: (nat, nat, real, Temper, real) -> Verdict, percent: real, stop: int)
    decreases |trials|
  {
    trials != [] ==>
      var init, last := trials[..|trials| - 1], trials[|trials| - 1];
      && Run(init, c0, t0, alfa, l1, l2, draw, percent, stop)
      && Sound(last, t0, alfa, l1, l2, draw, percent, stop)
      && Follows(init, last, c0)
  }

  /** A run grows by every sound trial that may follow it. */
  lemma RunAppend(trials: seq<Trial>, tr: Trial, c0: Control, t0: real, alfa: real, l1: nat, l2: nat,
                  draw: (nat, nat, real, Temper, real) -> Verdict, percent: real, stop: int)
    requires Run(trials, c0, t0, alfa, l1, l2, draw, percent, stop)
    requires Sound(tr, t0, alfa, l1, l2, draw, percent, stop) && Follows(trials, tr, c0)
    ensures Run(trials + [tr], c0, t0, alfa, l1, l2, draw, percent, stop)
  {
    assert (trials + [tr])[..|trials|] == trials;
  }

  /** Over a run that starts with `current` as the best, the best cost is the least cost
      `current` ever took, and it never exceeds the cost of `current`. */
  lemma {:induction false} RunKeepsBest(trials: seq<Trial>, c0: Control, t0: real, alfa: real, l1: nat, l2: nat,
                                        draw: (nat, nat, real, Temper, real) -> Verdict, percent: real, stop: int)
    requires Run(trials, c0, t0, alfa, l1, l2, draw, percent, stop) && c0.optimal == c0.current
    ensures var f, vs := After(c0, trials), Visited(c0.current, trials);
      && f.optimal in vs && f.current in vs && f.optimal <= f.current
      && forall v | v in vs :: f.optimal <= v
    decreases |trials|
  {
    if trials != [] {
      var init := trials[..|trials| - 1];
      RunKeepsBest(init, c0, t0, alfa, l1, l2, draw, percent, stop);
    }
  }

  /** What the loops keep about the trials, at position (`i`, `j`) of the loops: a run from
      `c0` that ends at `ctl`, all of it before that position, nothing raised, and still
      going exactly when its last trial did not stop it. */
  ghost predicate Course(trials: seq<Trial>, c0: Control, ctl: Control, running: bool, i: nat, j: nat,
                           t0: real, alfa: real, l1: nat, l2: nat, draw: (nat, nat, real, Temper, real) -> Verdict,
                           percent: real, stop: int)
  {
    && Run(trials, c0, t0, alfa, l1, l2, draw, percent, stop)
    && After(c0, trials) == ctl
    && (trials != [] ==> Earlier(trials[|trials| - 1], i, j))
    && Calm(trials)
    && (running <==> trials == [] || !trials[|trials| - 1].move.stop)
  }

  /** A sound trial at the current position that does not raise extends a running run by
      one iteration. */
  lemma CourseStep(trials: seq<Trial>, tr: Trial, c0: Control, i: nat, j: nat, t0: real, alfa: real,
                     l1: nat, l2: nat, draw: (nat, nat, real, Temper, real) -> Verdict, percent: real, stop: int)
    requires Course(trials, c0, tr.before, true, i, j, t0, alfa, l1, l2, draw, percent, stop)
    requires Sound(tr, t0, alfa, l1, l2, draw, percent, stop) && tr.i == i && tr.j == j && !tr.move.raised
    ensures Course(trials + [tr], c0, tr.move.next, !tr.move.stop, i, j + 1, t0, alfa, l1, l2, draw, percent, stop)
  {
    RunAppend(trials, tr, c0, t0, alfa, l1, l2, draw, percent, stop);
    CalmAppend(trials, tr);
  }

  /** No trial of the list raised. */
  predicate Calm(trials: seq<Trial>) {
    forall n | 0 <= n < |trials| :: !trials[n].move.raised
  }

  lemma CalmAppend(trials: seq<Trial>, tr: Trial)
    requires Calm(trials) && !tr.move.raised
    ensures Calm(trials + [tr])
  {
    var ts := trials + [tr];
    forall n | 0 <= n < |ts| ensures !ts[n].move.raised {
      if n < |trials| {
        assert ts[n] == trials[n];
      }
    }
  }

  /** The temperature after `stages` coolings by `alfa`, starting at `t0`. */
  function Cooled(t0: real, alfa: real, stages: nat): (r: real)
    ensures alfa == 1.0 ==> r == t0
    ensures 0.0 <= t0 && 0.0 <= alfa <= 1.0 ==> 0.0 <= r <= t0
    // a start at 0, or a cooling rate of 0 after the first stage, gives temperature 0
    ensures t0 == 0.0 || (alfa == 0.0 && stages > 0) ==> r == 0.0
  {
    if stages == 0 then t0 else Cooled(t0, alfa, stages - 1) * alfa
  }

  /** `i` full stages of `l2` iterations. */
  function Budget(i: nat, l2: nat): (r: nat)
    ensures r == i * l2
  {
    if i == 0 then 0 else Budget(i - 1, l2) + l2
  }

  lemma {:induction false} BudgetGrows(i: nat, l1: nat, l2: nat)
    requires i <= l1
    ensures Budget(i, l2) <= Budget(l1, l2)
  {
    if i < l1 {
      BudgetGrows(i, l1 - 1, l2);
    }
  }

  /** `SimulatedAnnealing` with its settings `percent` and `stop` and the best tree found. */
  class SimulatedAnnealing {
    const graph: Graph
    const terminals: seq<Node>
    var optimal: SteinerTree?
    const percent: real
    const stop: int

    constructor (graph: Graph, terminals: seq<Node>, percent: real, stop: int)
      ensures this.graph == graph && this.terminals == terminals
      ensures this.percent == percent && this.stop == stop && optimal == null
    {
      this.graph := graph;
      this.terminals := terminals;
      this.percent := percent;
      this.stop := stop;
      optimal := null;
    }

    /** The call `Ngb.get(self.graph, current, fw)`, with `pick(i, j, n)` choosing among the
        `n` edges of the tree. False when the tree has no edge (`random.choice` raises) or
        when `Neighborhood.get` fails. */
    method Explore(current: SteinerTree, pred: Pred, fuel: nat, i: nat, j: nat,
                   pick: (nat, nat, nat) -> nat)
        returns (ok: bool, next: SteinerTree?)
      requires Consistent(graph.State())
      requires current.Valid() && SubMap(current.State(), graph.State())
      ensures ok ==> next != null && fresh(next) && next.Valid() && next.terminals == current.terminals
      ensures ok ==> SubMap(next.State(), graph.State())
    {
      var es := current.tree.graph.GetEdges();
      if |es| == 0 {
        return false, null;
      }
      var edge := es[pick(i, j, |es|) % |es|];
      ghost var cut, best;
      ok, next, cut, best := Neighbourhood(graph, current, pred, fuel, edge);
    }

    /** `get_min_steiner_tree(t_0, alfa, l1, l2)`. False when the H-algorithm or a neighbour
        move fails, or an iteration raises `ZeroDivisionError`. `start` is the tree of the
        H-algorithm, `trials` every neighbour evaluated with the move made on it, in order,
        and `evaluated` counts the neighbours computed. */
    method GetMinSteinerTree(pred: Pred, fuel: nat, t0: real, alfa: real, l1: nat, l2: nat,
                             pick: (nat, nat, nat) -> nat, draw: (nat, nat, real, Temper, real) -> Verdict)
        returns (ok: bool, best: SteinerTree?, ghost start: SteinerTree?, ghost trials: seq<Trial>,
                 ghost evaluated: nat)
      requires Consistent(graph.State())
      modifies this
      ensures !AllCosted(graph.State(), pred, fuel, terminals) ==> !ok
      ensures ok ==> start != null && start.Valid() && start.terminals == (set n | n in terminals)
      ensures ok ==> best == optimal && best != null && best.Valid()
      ensures ok ==> best.terminals == (set n | n in terminals) && SubMap(best.State(), graph.State())
      ensures ok ==> var c0 := Control(start.cost, start.cost, None, 0);
        && Run(trials, c0, t0, alfa, l1, l2, draw, percent, stop)
        && best.cost == After(c0, trials).optimal
      ensures ok ==> best == start || best.cost < start.cost
      ensures ok ==> best.cost in Visited(start.cost, trials)
      ensures ok ==> forall v | v in Visited(start.cost, trials) :: best.cost <= v
      ensures ok ==> forall n | 0 <= n < |trials| :: !trials[n].move.raised
      ensures ok && (trials == [] || !trials[|trials| - 1].move.stop) ==> evaluated == l1 * l2
      ensures |trials| <= evaluated <= l1 * l2
    {
      var first;
      ghost var forest;
      ok, first, forest := GetSteinerTree(graph, terminals, pred, fuel);
      start := first;
      if !ok {
        return false, null, start, [], 0;
      }
      ok, best, trials, evaluated := Anneal(first, pred, fuel, t0, alfa, l1, l2, pick, draw);
    }

    /** The two nested loops of `get_min_steiner_tree`, from the tree `start` of the
        H-algorithm: `l1` stages cooled by `alfa` from `t0`, each of up to `l2` neighbours. */
    method Anneal(start: SteinerTree, pred: Pred, fuel: nat, t0: real, alfa: real, l1: nat, l2: nat,
                  pick: (nat, nat, nat) -> nat, draw: (nat, nat, real, Temper, real) -> Verdict)
        returns (ok: bool, best: SteinerTree?, ghost trials: seq<Trial>, ghost evaluated: nat)
      requires Consistent(graph.State())
      requires start.Valid() && start.terminals == (set n | n in terminals) && SubMap(start.State(), graph.State())
      modifies this
      ensures start.Valid() && start.terminals == (set n | n in terminals)
      ensures ok ==> best == optimal && best != null && best.Valid()
      ensures ok ==> best.terminals == (set n | n in terminals) && SubMap(best.State(), graph.State())
      ensures ok ==> var c0 := Control(start.cost, start.cost, None, 0);
        && Run(trials, c0, t0, alfa, l1, l2, draw, percent, stop)
        && best.cost == After(c0, trials).optimal
      ensures ok ==> best == start || best.cost < start.cost
      ensures ok ==> best.cost in Visited(start.cost, trials)
      ensures ok ==> forall v | v in Visited(start.cost, trials) :: best.cost <= v
      ensures ok ==> forall n | 0 <= n < |trials| :: !trials[n].move.raised
      ensures ok && (trials == [] || !trials[|trials| - 1].move.stop) ==> evaluated == l1 * l2
      ensures |trials| <= evaluated <= l1 * l2
    {
      trials, evaluated := [], 0;
      var current := start;
      optimal := start;
      var ctl := Control(start.cost, start.cost, None, 0);
      ghost var c0 := ctl;
      var t := t0;
      var running := true;
      var i := 0;
      ok := true;
      while i < l1 && running && ok
        invariant i <= l1 && |trials| <= evaluated <= Budget(i, l2)
        invariant running && ok ==> evaluated == Budget(i, l2)
        invariant t == Cooled(t0, alfa, i)
        invariant ok ==> Invariant(current, ctl, start)
        invariant ok ==> Course(trials, c0, ctl, running, i, 0, t0, alfa, l1, l2, draw, percent, stop)
        decreases l1 - i
      {
        ok, current, ctl, running, trials, evaluated :=
          Stage(pred, fuel, i, t, pick, draw, current, ctl, start, c0, trials, evaluated, t0, alfa, l1, l2);
        t := t * alfa;
        i := i + 1;
      }
      BudgetGrows(i, l1, l2);
      best := optimal;
      if ok {
        RunKeepsBest(trials, c0, t0, alfa, l1, l2, draw, percent, stop);
      }
    }

    /** The inner loop at stage `i` and temperature `t`: up to `l2` neighbours, each moved to
        by `Update`, until the run stops, a move fails or an iteration raises. */
    method Stage(pred: Pred, fuel: nat, i: nat, t: real, pick: (nat, nat, nat) -> nat,
                 draw: (nat, nat, real, Temper, real) -> Verdict, current: SteinerTree, ctl: Control,
                 ghost start: SteinerTree, ghost c0: Control, ghost trials: seq<Trial>, ghost evaluated: nat,
                 ghost t0: real, ghost alfa: real, ghost l1: nat, l2: nat)
        returns (ok: bool, current': SteinerTree, ctl': Control, running: bool, ghost trials': seq<Trial>,
                 ghost evaluated': nat)
      requires Consistent(graph.State())
      requires i < l1 && t == Cooled(t0, alfa, i) && |trials| <= evaluated
      requires Invariant(current, ctl, start) && Course(trials, c0, ctl, true, i, 0, t0, alfa, l1, l2, draw, percent, stop)
      modifies this
      ensures |trials'| <= evaluated' <= evaluated + l2
      ensures ok && running ==> evaluated' == evaluated + l2
      ensures ok ==> Invariant(current', ctl', start)
      ensures ok ==> Course(trials', c0, ctl', running, i + 1, 0, t0, alfa, l1, l2, draw, percent, stop)
    {
      ok, current', ctl', running, trials', evaluated' := true, current, ctl, true, trials, evaluated;
      var j := 0;
      while j < l2 && running && ok
        invariant j <= l2 && |trials'| <= evaluated' && evaluated' == evaluated + j
        invariant ok ==> Invariant(current', ctl', start)
        invariant ok ==> Course(trials', c0, ctl', running, i, j, t0, alfa, l1, l2, draw, percent, stop)
        decreases l2 - j
      {
        ok, current', ctl', running, trials' :=
          Evaluate(pred, fuel, i, j, t, pick, draw, current', ctl', start, c0, trials', t0, alfa, l1, l2);
        evaluated' := evaluated' + 1;
        j := j + 1;
      }
    }

    /** Iteration `j` of stage `i`: a neighbour of `current` (line 45), the verdict of the
        Metropolis test for it, then `Update`. It fails when the move fails or the iteration
        raises; otherwise the run grows by one trial. */
    method Evaluate(pred: Pred, fuel: nat, i: nat, j: nat, t: real, pick: (nat, nat, nat) -> nat,
                    draw: (nat, nat, real, Temper, real) -> Verdict, current: SteinerTree, ctl: Control,
                    ghost start: SteinerTree, ghost c0: Control, ghost trials: seq<Trial>,
                    ghost t0: real, ghost alfa: real, ghost l1: nat, ghost l2: nat)
        returns (ok: bool, current': SteinerTree, ctl': Control, running: bool, ghost trials': seq<Trial>)
      requires Consistent(graph.State())
      requires i < l1 && j < l2 && t == Cooled(t0, alfa, i)
      requires Invariant(current, ctl, start) && Course(trials, c0, ctl, true, i, j, t0, alfa, l1, l2, draw, percent, stop)
      modifies this
      ensures |trials'| <= |trials| + 1
      ensures ok ==> Invariant(current', ctl', start)
      ensures ok ==> Course(trials', c0, ctl', running, i, j + 1, t0, alfa, l1, l2, draw, percent, stop)
    {
      var next;
      current', ctl', running, trials' := current, ctl, true, trials;
      ok, next := Explore(current, pred, fuel, i, j, pick);
      if ok {
        var delta := next.cost - ctl.current;
        var verdict := draw(i, j, delta, Scale(ctl.k, delta, t).value, t);
        var raised;
        current', ctl', running, raised := Update(current, next, ctl, start, t, verdict);
        ghost var tr := Trial(i, j, t, ctl, next.cost, verdict, Step(ctl, next.cost, t, verdict, percent, stop));
        trials' := trials + [tr];
        ok := !raised;
        if ok {
          CourseStep(trials, tr, c0, i, j, t0, alfa, l1, l2, draw, percent, stop);
        }
      }
    }

    /** The body of the inner loop once the neighbour `next` and the verdict of the
        Metropolis test for it are known: the control numbers follow `Step`, and `current`
        and `self.optimal` follow its decisions. */
    method Update(current: SteinerTree, next: SteinerTree, ctl: Control, ghost start: SteinerTree, t: real,
                  verdict: Verdict)
        returns (current': SteinerTree, ctl': Control, running: bool, raised: bool)
      requires Invariant(current, ctl, start)
      requires next.Valid() && SubMap(next.State(), graph.State()) && next.terminals == current.terminals
      modifies this
      ensures Invariant(current', ctl', start)
      ensures var mv := Step(ctl, next.cost, t, verdict, percent, stop);
        && ctl' == mv.next && running == !mv.stop && raised == mv.raised
        && current' == (if mv.accepted then next else current)
        && optimal == (if mv.improved then next else old(optimal))
    {
      var mv := Step(ctl, next.cost, t, verdict, percent, stop);
      current' := current;
      if mv.accepted {
        current' := next;
      }
      if mv.improved {
        optimal := current';
      }
      ctl' := mv.next;
      running := !mv.stop;
      raised := mv.raised;
    }

    /** What the loops keep about the trees: both are valid, drawn from the graph and span
        the terminals; the control numbers are their costs; the best tree is the H-algorithm's
        tree or one strictly cheaper. */
    ghost predicate Invariant(current: SteinerTree?, ctl: Control, start: SteinerTree?)
      reads this, optimal, current, start
      reads if optimal != null then {optimal.tree, optimal.tree.graph} else {}
      reads if current != null then {current.tree, current.tree.graph} else {}
      reads graph
    {
      && current != null && optimal != null && start != null
      && current.Valid() && optimal.Valid()
      && SubMap(current.State(), graph.State()) && SubMap(optimal.State(), graph.State())
      && current.terminals == (set n | n in terminals) && optimal.terminals == current.terminals
      && ctl.current == current.cost && ctl.optimal == optimal.cost && ctl.optimal <= ctl.current
      && (optimal == start || optimal.cost < start.cost)
    }

  }
}
