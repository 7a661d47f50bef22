/**
 * The iterative deepening driver of `minmax.best_move`: every root child is
 * searched at depths 2, 3, ..., 21 with the full window, keeping the best
 * value, and the move of the first child with the largest kept value wins.
 * After each search the driver reads the clock; when the budget is spent the
 * latest result replaces the kept value before the comparison.
 */
module Deepening {
  import opened Extended
  import opened GameTree
  import opened Fingerprint
  import opened AlphaBeta
  import opened AlphaBetaProperties
  import opened Extremum

  /** `max_depth`: the number of deepening iterations. */
  const MaxIterations: nat := 20
  /** `deepening_factor`: the depth of the first iteration. */
  const DeepeningFactor: nat := 2

  datatype Deepened = Deepened(best: Ext, results: seq<Ext>, st: St)

  datatype Iteration = Iteration(value: Ext, kept: Ext, st: St)

  /** One deepening iteration at depth `depth`: the search with the full
      window, the clock reading after it, and the new kept value. When the
      reading reports the budget spent, the result replaces `best` before the
      comparison; in every case the kept value is at least the result. */
  ghost function Iterate(ctx: Ctx, child: Node, depth: nat, best: Ext, st: St): (it: Iteration)
    requires ReadyTree(child) && Consistent(st)
    ensures it.value == Search(ctx, child, depth, NegInf, PosInf, st).value
    ensures it.st.clock == Search(ctx, child, depth, NegInf, PosInf, st).st.clock + 1
    ensures it.st == Search(ctx, child, depth, NegInf, PosInf, st).st.(clock := it.st.clock)
    ensures it.kept == if ctx.expired(it.st.clock - 1) then it.value else Max(best, it.value)
    ensures Consistent(it.st) && Le(it.value, it.kept)
  {
    var s := Search(ctx, child, depth, NegInf, PosInf, st);
    var kept := if ctx.expired(s.st.clock) then s.value else best;
    Iteration(s.value, Max(kept, s.value), s.st.(clock := s.st.clock + 1))
  }

  /** Iterations `i` to the last for one child: `best` is the value kept so
      far, `results` are the search results of these iterations in order. */
  ghost function Deepen(ctx: Ctx, child: Node, i: nat, best: Ext, st: St): (r: Deepened)
    requires i <= MaxIterations && ReadyTree(child) && Consistent(st)
    ensures Consistent(r.st) && i + |r.results| == MaxIterations
    decreases MaxIterations - i
  {
    if i == MaxIterations then Deepened(best, [], st)
    else
      var it := Iterate(ctx, child, i + DeepeningFactor, best, st);
      var rest := Deepen(ctx, child, i + 1, it.kept, it.st);
      Deepened(rest.best, [it.value] + rest.results, rest.st)
  }

  /** One iteration moves the deepening forward: what iterations `i` onwards
      keep and leave is what iterations `i + 1` onwards keep and leave after
      `Iterate`. */
  lemma DeepenStep(ctx: Ctx, child: Node, i: nat, best: Ext, st: St, it: Iteration)
    requires i < MaxIterations && ReadyTree(child) && Consistent(st)
    requires it == Iterate(ctx, child, i + DeepeningFactor, best, st)
    ensures Deepen(ctx, child, i, best, st).best == Deepen(ctx, child, i + 1, it.kept, it.st).best
    ensures Deepen(ctx, child, i, best, st).st == Deepen(ctx, child, i + 1, it.kept, it.st).st
    ensures Deepen(ctx, child, i, best, st).results == [it.value] + Deepen(ctx, child, i + 1, it.kept, it.st).results
  {
  }

  /** The kept values of all root children, in order, and the final state. */
  datatype Roots = Roots(values: seq<Ext>, st: St)

  /** Deepening root children `c` onwards, after `acc` holds the kept values
      of the children before `c`. */
  ghost function Collect(ctx: Ctx, kids: seq<Node>, c: nat, acc: seq<Ext>, st: St): (r: Roots)
    requires c <= |kids| && AllReady(kids) && Consistent(st)
    ensures |r.values| + c == |acc| + |kids| && Consistent(r.st)
    ensures forall j :: 0 <= j < |acc| ==> r.values[j] == acc[j]
    decreases |kids| - c
  {
    if c == |kids| then Roots(acc, st)
    else
      var d := Deepen(ctx, kids[c], 0, NegInf, st);
      Collect(ctx, kids, c + 1, acc + [d.best], d.st)
  }

  /** The kept value of every root child, in order, and the final state. */
  ghost function RootValues(ctx: Ctx, kids: seq<Node>, st: St): (r: Roots)
    requires AllReady(kids) && Consistent(st)
    ensures |r.values| == |kids| && Consistent(r.st)
  {
    Collect(ctx, kids, 0, [], st)
  }

  /** The kept value collected for child `c` is the result of deepening that
      child from the state the earlier children left. */
  lemma CollectNext(ctx: Ctx, kids: seq<Node>, c: nat, acc: seq<Ext>, st: St, d: Deepened)
    requires c < |kids| && AllReady(kids) && Consistent(st)
    requires d == Deepen(ctx, kids[c], 0, NegInf, st)
    ensures Collect(ctx, kids, c, acc, st).values[|acc|] == d.best
  {
    var r := Collect(ctx, kids, c + 1, acc + [d.best], d.st);
    assert r.values[|acc|] == (acc + [d.best])[|acc|];
  }

  /** The first root child's kept value heads the list: it is the result of
      deepening that child from the starting state. */
  lemma RootValuesHead(ctx: Ctx, kids: seq<Node>, st: St)
    requires AllReady(kids) && Consistent(st) && kids != []
    ensures RootValues(ctx, kids, st).values[0] == Deepen(ctx, kids[0], 0, NegInf, st).best
  {
    CollectNext(ctx, kids, 0, [], st, Deepen(ctx, kids[0], 0, NegInf, st));
  }

  /** The state the root children before `c` leave: each is deepened in
      turn from the state the one before it left. */
  ghost function StateBefore(ctx: Ctx, kids: seq<Node>, c: nat, st: St): (s: St)
    requires c <= |kids| && AllReady(kids) && Consistent(st)
    ensures Consistent(s)
  {
    if c == 0 then st
    else Deepen(ctx, kids[c - 1], 0, NegInf, StateBefore(ctx, kids, c - 1, st)).st
  }

  /** Collecting from child `i` on, every later child `c` gets the kept value
      of its own deepening, started from the state the children before it
      left. */
  lemma {:induction false} CollectAt(ctx: Ctx, kids: seq<Node>, i: nat, acc: seq<Ext>, st: St, c: nat)
    requires i <= c < |kids| && |acc| == i && AllReady(kids) && Consistent(st)
    ensures Collect(ctx, kids, i, acc, StateBefore(ctx, kids, i, st)).values[c]
            == Deepen(ctx, kids[c], 0, NegInf, StateBefore(ctx, kids, c, st)).best
    decreases c - i
  {
    var d := Deepen(ctx, kids[i], 0, NegInf, StateBefore(ctx, kids, i, st));
    if i == c {
      CollectNext(ctx, kids, i, acc, StateBefore(ctx, kids, i, st), d);
    } else {
      assert StateBefore(ctx, kids, i + 1, st) == d.st;
      CollectAt(ctx, kids, i + 1, acc + [d.best], st, c);
    }
  }

  /** The kept value of root child `c` is the result of deepening that child
      from the state the earlier children left. */
  lemma RootValueIsDeepening(ctx: Ctx, kids: seq<Node>, st: St, c: nat)
    requires AllReady(kids) && Consistent(st) && c < |kids|
    ensures RootValues(ctx, kids, st).values[c] == Deepen(ctx, kids[c], 0, NegInf, StateBefore(ctx, kids, c, st)).best
  {
    CollectAt(ctx, kids, 0, [], st, c);
  }

  /** Every element of `xs` is `e`. */
  ghost predicate Constant(xs: seq<Ext>, e: Ext) {
    forall j :: 0 <= j < |xs| ==> xs[j] == e
  }

  /** The kept value `r.best` is the maximum of `best` and all the results:
      it bounds them all and is one of them. */
  ghost predicate KeepsMaximum(best: Ext, r: Deepened) {
    && Le(best, r.best)
    && (forall j :: 0 <= j < |r.results| ==> Le(r.results[j], r.best))
    && (r.best == best || exists j :: 0 <= j < |r.results| && r.best == r.results[j])
  }

  /** Prepending one iteration whose kept value is the maximum of `best` and
      its result keeps the maximum. */
  lemma KeepsMaximumPrepend(best: Ext, value: Ext, rest: Deepened, r: Deepened)
    requires KeepsMaximum(Max(best, value), rest)
    requires r.best == rest.best && r.results == [value] + rest.results
    ensures KeepsMaximum(best, r)
  {
    var kept := Max(best, value);
    LeTrans(best, kept, r.best);
    forall j | 0 <= j < |r.results| ensures Le(r.results[j], r.best) {
      if j == 0 { LeTrans(value, kept, r.best); } else { assert r.results[j] == rest.results[j - 1]; }
    }
    if rest.best == kept && kept != best {
      assert r.best == r.results[0];
    } else if rest.best != kept {
      var j :| 0 <= j < |rest.results| && rest.best == rest.results[j];
      assert r.best == r.results[j + 1];
    }
  }

  /** An iteration that keeps the maximum of `best` and its result, followed
      by iterations that keep the maximum, keeps the maximum. */
  lemma KeepsMaximumStep(ctx: Ctx, child: Node, i: nat, best: Ext, st: St, it: Iteration)
    requires i < MaxIterations && ReadyTree(child) && Consistent(st)
    requires it == Iterate(ctx, child, i + DeepeningFactor, best, st) && it.kept == Max(best, it.value)
    requires KeepsMaximum(it.kept, Deepen(ctx, child, i + 1, it.kept, it.st))
    ensures KeepsMaximum(best, Deepen(ctx, child, i, best, st))
  {
    DeepenStep(ctx, child, i, best, st, it);
    KeepsMaximumPrepend(best, it.value, Deepen(ctx, child, i + 1, it.kept, it.st), Deepen(ctx, child, i, best, st));
  }

  /** Without time-outs the kept value is the maximum of the starting value
      and all iteration results. */
  lemma {:induction false} DeepeningKeepsMaximum(ctx: Ctx, child: Node, i: nat, best: Ext, st: St)
    requires i <= MaxIterations && ReadyTree(child) && Consistent(st) && NeverExpires(ctx)
    ensures KeepsMaximum(best, Deepen(ctx, child, i, best, st))
    decreases MaxIterations - i
  {
    if i < MaxIterations {
      var it := Iterate(ctx, child, i + DeepeningFactor, best, st);
      assert !ctx.expired(it.st.clock - 1);
      assert it.kept == Max(best, it.value);
      DeepeningKeepsMaximum(ctx, child, i + 1, it.kept, it.st);
      KeepsMaximumStep(ctx, child, i, best, st, it);
    }
  }

  /** Once the child's fingerprint is stored with a depth below the next
      iteration's, every remaining iteration is a cache hit that returns the
      stored value. */
  lemma {:induction false} LaterIterationsHit(ctx: Ctx, child: Node, i: nat, best: Ext, st: St)
    requires i <= MaxIterations && ReadyTree(child) && Consistent(st)
    requires HashState(ctx.hasher, child.state) in st.tt
    requires st.dt[HashState(ctx.hasher, child.state)] < i + DeepeningFactor
    ensures Constant(Deepen(ctx, child, i, best, st).results, st.tt[HashState(ctx.hasher, child.state)])
    decreases MaxIterations - i
  {
    if i < MaxIterations {
      var key := HashState(ctx.hasher, child.state);
      assert Hit(ctx, child, i + DeepeningFactor, st);
      SearchOnHit(ctx, child, i + DeepeningFactor, NegInf, PosInf, st);
      var it := Iterate(ctx, child, i + DeepeningFactor, best, st);
      assert it.st.tt == st.tt && it.st.dt == st.dt && it.value == st.tt[key];
      LaterIterationsHit(ctx, child, i + 1, it.kept, it.st);
      var rest := Deepen(ctx, child, i + 1, it.kept, it.st);
      var r := Deepen(ctx, child, i, best, st);
      assert r.results == [it.value] + rest.results;
      assert Constant(rest.results, st.tt[key]);
      forall j | 0 <= j < |r.results| ensures r.results[j] == st.tt[key] {
        if j == 0 { assert r.results[0] == it.value; } else { assert r.results[j] == rest.results[j - 1]; }
      }
    }
  }

  /** With the cache test as written, deepening stops searching after the first
      iteration: if the first search of a child is not a cache hit, every later
      iteration returns the child's static evaluation, the entry that search
      left for it. */
  lemma DeepeningCollapses(ctx: Ctx, child: Node, st: St)
    requires ReadyTree(child) && Consistent(st)
    requires !Hit(ctx, child, DeepeningFactor, st)
    ensures Deepen(ctx, child, 0, NegInf, st).results[0] == Search(ctx, child, DeepeningFactor, NegInf, PosInf, st).value
    ensures Constant(Deepen(ctx, child, 0, NegInf, st).results[1..], HeuristicValue(child.state))
  {
    var key := HashState(ctx.hasher, child.state);
    var first := Search(ctx, child, DeepeningFactor, NegInf, PosInf, st);
    VisitLeavesEntry(ctx, child, DeepeningFactor, NegInf, PosInf, st);
    var it := Iterate(ctx, child, DeepeningFactor, NegInf, st);
    assert it.value == first.value && it.st.tt == first.st.tt && it.st.dt == first.st.dt;
    LaterIterationsHit(ctx, child, 1, it.kept, it.st);
    var rest := Deepen(ctx, child, 1, it.kept, it.st);
    assert Deepen(ctx, child, 0, NegInf, st).results == [it.value] + rest.results;
    assert Deepen(ctx, child, 0, NegInf, st).results[1..] == rest.results;
  }

  /** Without time-outs, the value every root child is ranked by is the
      maximum of its 20 search results: each root child's kept value is
      its own deepening's, and that deepening keeps the maximum. */
  lemma RootValuesKeepMaximum(ctx: Ctx, kids: seq<Node>, st: St, c: nat)
    requires AllReady(kids) && Consistent(st) && c < |kids| && NeverExpires(ctx)
    ensures RootValues(ctx, kids, st).values[c] == Deepen(ctx, kids[c], 0, NegInf, StateBefore(ctx, kids, c, st)).best
    ensures KeepsMaximum(NegInf, Deepen(ctx, kids[c], 0, NegInf, StateBefore(ctx, kids, c, st)))
  {
    RootValueIsDeepening(ctx, kids, st, c);
    DeepeningKeepsMaximum(ctx, kids[c], 0, NegInf, StateBefore(ctx, kids, c, st));
  }
}
