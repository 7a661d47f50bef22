/**
 * The depth-limited alpha-beta search of `minmax.alphabeta` as a function of
 * its inputs and of the searcher's tables, and the plain minimax value it is
 * compared with.
 *
 * The searcher's state is threaded explicitly: the transposition table
 * (fingerprint to value), the depth table (fingerprint to the depth recorded
 * with it), the number of clock readings taken so far, and a count of cache
 * hits that exists only for the specification. The wall clock is an oracle:
 * the k-th reading reports that the time budget is spent iff `expired(k)`.
 */
module AlphaBeta {
  import opened Extended
  import opened GameTree
  import opened Fingerprint
  import opened Extremum

  datatype Ctx = Ctx(hasher: Hasher, expired: nat -> bool)

  datatype St = St(tt: map<int, Ext>, dt: map<int, nat>, clock: nat, hits: nat)

  datatype Run = Run(value: Ext, st: St)

  /** Both tables always hold the same fingerprints. */
  ghost predicate Consistent(st: St) {
    st.tt.Keys == st.dt.Keys
  }

  /** What every search keeps: the tables stay consistent and the counters
      only grow. */
  ghost predicate Grows(st: St, st': St) {
    Consistent(st') && st.clock <= st'.clock && st.hits <= st'.hits
  }

  /** How a search may change the tables: no key is removed, and every depth
      entry it writes is at most the depth `d` it was started with. */
  ghost predicate Evolves(st: St, st': St, d: nat) {
    && st.tt.Keys <= st'.tt.Keys
    && forall k :: k in st'.dt ==> st'.dt[k] <= d || (k in st.dt && st'.dt[k] == st.dt[k])
  }

  /** Every snapshot in the tree can be evaluated. */
  ghost predicate ReadyTree(t: Node)
    decreases t
  {
    Ready(t.state) && forall i :: 0 <= i < |t.children| ==> ReadyTree(t.children[i])
  }

  ghost predicate AllReady(kids: seq<Node>) {
    forall i :: 0 <= i < |kids| ==> ReadyTree(kids[i])
  }

  /** The clock never reports the budget as spent. */
  ghost predicate NeverExpires(ctx: Ctx) {
    forall k :: !ctx.expired(k)
  }

  /** A cache hit: the fingerprint is known and was recorded at another depth. */
  ghost predicate Hit(ctx: Ctx, t: Node, d: nat, st: St)
    requires Consistent(st)
  {
    var key := HashState(ctx.hasher, t.state);
    key in st.tt && d != st.dt[key]
  }

  /** The state a non-hit visit installs before any child is searched: the
      node's fingerprint with the current depth and its static evaluation. */
  ghost function Record(ctx: Ctx, t: Node, d: nat, st: St): St
    requires Ready(t.state)
  {
    var key := HashState(ctx.hasher, t.state);
    st.(tt := st.tt[key := HeuristicValue(t.state)], dt := st.dt[key := d])
  }

  ghost function Search(ctx: Ctx, t: Node, d: nat, alpha: Ext, beta: Ext, st: St): (r: Run)
    requires ReadyTree(t) && Consistent(st)
    ensures Grows(st, r.st)
    decreases d, 0, 0
  {
    if d == 0 then Run(HeuristicValue(t.state), st)
    else if Hit(ctx, t, d, st) then
      Run(st.tt[HashState(ctx.hasher, t.state)], st.(hits := st.hits + 1))
    else
      var st1 := Record(ctx, t, d, st);
      if t.state.player == 0 then MaxLoop(ctx, t.children, d - 1, alpha, beta, NegInf, st1)
      else MinLoop(ctx, t.children, d - 1, alpha, beta, PosInf, st1)
  }

  /** The maximising loop over the children still to search: `v` is the best
      value so far, `alpha` the lower bound so far. */
  ghost function MaxLoop(ctx: Ctx, kids: seq<Node>, d: nat, alpha: Ext, beta: Ext, v: Ext, st: St): (r: Run)
    requires AllReady(kids) && Consistent(st)
    ensures Grows(st, r.st)
    decreases d, 1, |kids|
  {
    if kids == [] then Run(v, st)
    else
      var r := Search(ctx, kids[0], d, alpha, beta, st);
      var v' := Max(v, r.value);
      var alpha' := Max(alpha, r.value);
      if Le(beta, alpha') then Run(v', r.st)
      else
        var st' := r.st.(clock := r.st.clock + 1);
        if ctx.expired(r.st.clock) then Run(v', st')
        else MaxLoop(ctx, kids[1..], d, alpha', beta, v', st')
  }

  /** The minimising loop, symmetric to `MaxLoop`. */
  ghost function MinLoop(ctx: Ctx, kids: seq<Node>, d: nat, alpha: Ext, beta: Ext, v: Ext, st: St): (r: Run)
    requires AllReady(kids) && Consistent(st)
    ensures Grows(st, r.st)
    decreases d, 1, |kids|
  {
    if kids == [] then Run(v, st)
    else
      var r := Search(ctx, kids[0], d, alpha, beta, st);
      var v' := Min(v, r.value);
      var beta' := Min(beta, r.value);
      if Le(beta', alpha) then Run(v', r.st)
      else
        var st' := r.st.(clock := r.st.clock + 1);
        if ctx.expired(r.st.clock) then Run(v', st')
        else MinLoop(ctx, kids[1..], d, alpha, beta', v', st')
  }

  /** A search only adds table entries, and every depth it records is at
      most the depth it was started with. */
  lemma {:induction false} SearchEvolves(ctx: Ctx, t: Node, d: nat, alpha: Ext, beta: Ext, st: St)
    requires ReadyTree(t) && Consistent(st)
    ensures Evolves(st, Search(ctx, t, d, alpha, beta, st).st, d)
    decreases d, 0, 0
  {
    if d > 0 && !Hit(ctx, t, d, st) {
      var st1 := Record(ctx, t, d, st);
      if t.state.player == 0 {
        MaxLoopEvolves(ctx, t.children, d - 1, alpha, beta, NegInf, st1);
      } else {
        MinLoopEvolves(ctx, t.children, d - 1, alpha, beta, PosInf, st1);
      }
    }
  }

  lemma {:induction false} MaxLoopEvolves(ctx: Ctx, kids: seq<Node>, d: nat, alpha: Ext, beta: Ext, v: Ext, st: St)
    requires AllReady(kids) && Consistent(st)
    ensures Evolves(st, MaxLoop(ctx, kids, d, alpha, beta, v, st).st, d)
    decreases d, 1, |kids|
  {
    if kids != [] {
      var r := Search(ctx, kids[0], d, alpha, beta, st);
      SearchEvolves(ctx, kids[0], d, alpha, beta, st);
      var alpha' := Max(alpha, r.value);
      if !Le(beta, alpha') && !ctx.expired(r.st.clock) {
        var st' := r.st.(clock := r.st.clock + 1);
        MaxLoopEvolves(ctx, kids[1..], d, alpha', beta, Max(v, r.value), st');
      }
    }
  }

  lemma {:induction false} MinLoopEvolves(ctx: Ctx, kids: seq<Node>, d: nat, alpha: Ext, beta: Ext, v: Ext, st: St)
    requires AllReady(kids) && Consistent(st)
    ensures Evolves(st, MinLoop(ctx, kids, d, alpha, beta, v, st).st, d)
    decreases d, 1, |kids|
  {
    if kids != [] {
      var r := Search(ctx, kids[0], d, alpha, beta, st);
      SearchEvolves(ctx, kids[0], d, alpha, beta, st);
      var beta' := Min(beta, r.value);
      if !Le(beta', alpha) && !ctx.expired(r.st.clock) {
        var st' := r.st.(clock := r.st.clock + 1);
        MinLoopEvolves(ctx, kids[1..], d, alpha, beta', Min(v, r.value), st');
      }
    }
  }

  /** A beta cut-off at the first child ends the maximising loop with that
      child's result taken into the best value. */
  lemma MaxLoopCut(ctx: Ctx, kids: seq<Node>, d: nat, alpha: Ext, beta: Ext, v: Ext, st: St, r: Run)
    requires AllReady(kids) && Consistent(st) && kids != []
    requires r == Search(ctx, kids[0], d, alpha, beta, st)
    requires Le(beta, Max(alpha, r.value))
    ensures MaxLoop(ctx, kids, d, alpha, beta, v, st) == Run(Max(v, r.value), r.st)
  {
  }

  /** Without a cut-off, a clock reading that reports the budget spent ends
      the loop after that reading. */
  lemma MaxLoopOut(ctx: Ctx, kids: seq<Node>, d: nat, alpha: Ext, beta: Ext, v: Ext, st: St, r: Run)
    requires AllReady(kids) && Consistent(st) && kids != []
    requires r == Search(ctx, kids[0], d, alpha, beta, st)
    requires !Le(beta, Max(alpha, r.value)) && ctx.expired(r.st.clock)
    ensures MaxLoop(ctx, kids, d, alpha, beta, v, st) == Run(Max(v, r.value), r.st.(clock := r.st.clock + 1))
  {
  }

  /** Otherwise the loop goes on with the rest of the children, the raised
      alpha and best value, and the clock read once more. */
  lemma MaxLoopNext(ctx: Ctx, kids: seq<Node>, d: nat, alpha: Ext, beta: Ext, v: Ext, st: St, r: Run)
    requires AllReady(kids) && Consistent(st) && kids != []
    requires r == Search(ctx, kids[0], d, alpha, beta, st)
    requires !Le(beta, Max(alpha, r.value)) && !ctx.expired(r.st.clock)
    ensures MaxLoop(ctx, kids, d, alpha, beta, v, st) ==
              MaxLoop(ctx, kids[1..], d, Max(alpha, r.value), beta, Max(v, r.value), r.st.(clock := r.st.clock + 1))
  {
    var st' := r.st.(clock := r.st.clock + 1);
    assert MaxLoop(ctx, kids, d, alpha, beta, v, st) == MaxLoop(ctx, kids[1..], d, Max(alpha, r.value), beta, Max(v, r.value), st');
  }

  /** The minimising counterpart of `MaxLoopCut`. */
  lemma MinLoopCut(ctx: Ctx, kids: seq<Node>, d: nat, alpha: Ext, beta: Ext, v: Ext, st: St, r: Run)
    requires AllReady(kids) && Consistent(st) && kids != []
    requires r == Search(ctx, kids[0], d, alpha, beta, st)
    requires Le(Min(beta, r.value), alpha)
    ensures MinLoop(ctx, kids, d, alpha, beta, v, st) == Run(Min(v, r.value), r.st)
  {
  }

  /** The minimising counterpart of `MaxLoopOut`. */
  lemma MinLoopOut(ctx: Ctx, kids: seq<Node>, d: nat, alpha: Ext, beta: Ext, v: Ext, st: St, r: Run)
    requires AllReady(kids) && Consistent(st) && kids != []
    requires r == Search(ctx, kids[0], d, alpha, beta, st)
    requires !Le(Min(beta, r.value), alpha) && ctx.expired(r.st.clock)
    ensures MinLoop(ctx, kids, d, alpha, beta, v, st) == Run(Min(v, r.value), r.st.(clock := r.st.clock + 1))
  {
  }

  /** The minimising counterpart of `MaxLoopNext`. */
  lemma MinLoopNext(ctx: Ctx, kids: seq<Node>, d: nat, alpha: Ext, beta: Ext, v: Ext, st: St, r: Run)
    requires AllReady(kids) && Consistent(st) && kids != []
    requires r == Search(ctx, kids[0], d, alpha, beta, st)
    requires !Le(Min(beta, r.value), alpha) && !ctx.expired(r.st.clock)
    ensures MinLoop(ctx, kids, d, alpha, beta, v, st) ==
              MinLoop(ctx, kids[1..], d, alpha, Min(beta, r.value), Min(v, r.value), r.st.(clock := r.st.clock + 1))
  {
    var st' := r.st.(clock := r.st.clock + 1);
    assert MinLoop(ctx, kids, d, alpha, beta, v, st) == MinLoop(ctx, kids[1..], d, alpha, Min(beta, r.value), Min(v, r.value), st');
  }

  /** The maximising loop at child `i`, given that child's search result
      `r`: a beta cut-off, a time-out, or the loop over the later children. */
  lemma MaxLoopStep(ctx: Ctx, kids: seq<Node>, i: nat, d: nat, alpha: Ext, beta: Ext, v: Ext, st: St, r: Run)
    requires AllReady(kids) && Consistent(st) && i < |kids|
    requires r == Search(ctx, kids[i], d, alpha, beta, st)
    ensures Le(beta, Max(alpha, r.value)) ==>
              MaxLoop(ctx, kids[i..], d, alpha, beta, v, st) == Run(Max(v, r.value), r.st)
    ensures !Le(beta, Max(alpha, r.value)) && ctx.expired(r.st.clock) ==>
              MaxLoop(ctx, kids[i..], d, alpha, beta, v, st) == Run(Max(v, r.value), r.st.(clock := r.st.clock + 1))
    ensures !Le(beta, Max(alpha, r.value)) && !ctx.expired(r.st.clock) ==>
              MaxLoop(ctx, kids[i..], d, alpha, beta, v, st) ==
              MaxLoop(ctx, kids[i + 1..], d, Max(alpha, r.value), beta, Max(v, r.value), r.st.(clock := r.st.clock + 1))
  {
    assert kids[i..][0] == kids[i] && kids[i..][1..] == kids[i + 1..];
    if Le(beta, Max(alpha, r.value)) {
      MaxLoopCut(ctx, kids[i..], d, alpha, beta, v, st, r);
    } else if ctx.expired(r.st.clock) {
      MaxLoopOut(ctx, kids[i..], d, alpha, beta, v, st, r);
    } else {
      MaxLoopNext(ctx, kids[i..], d, alpha, beta, v, st, r);
    }
  }

  /** The minimising loop at child `i`, symmetric to `MaxLoopStep`. */
  lemma MinLoopStep(ctx: Ctx, kids: seq<Node>, i: nat, d: nat, alpha: Ext, beta: Ext, v: Ext, st: St, r: Run)
    requires AllReady(kids) && Consistent(st) && i < |kids|
    requires r == Search(ctx, kids[i], d, alpha, beta, st)
    ensures Le(Min(beta, r.value), alpha) ==>
              MinLoop(ctx, kids[i..], d, alpha, beta, v, st) == Run(Min(v, r.value), r.st)
    ensures !Le(Min(beta, r.value), alpha) && ctx.expired(r.st.clock) ==>
              MinLoop(ctx, kids[i..], d, alpha, beta, v, st) == Run(Min(v, r.value), r.st.(clock := r.st.clock + 1))
    ensures !Le(Min(beta, r.value), alpha) && !ctx.expired(r.st.clock) ==>
              MinLoop(ctx, kids[i..], d, alpha, beta, v, st) ==
              MinLoop(ctx, kids[i + 1..], d, alpha, Min(beta, r.value), Min(v, r.value), r.st.(clock := r.st.clock + 1))
  {
    assert kids[i..][0] == kids[i] && kids[i..][1..] == kids[i + 1..];
    if Le(Min(beta, r.value), alpha) {
      MinLoopCut(ctx, kids[i..], d, alpha, beta, v, st, r);
    } else if ctx.expired(r.st.clock) {
      MinLoopOut(ctx, kids[i..], d, alpha, beta, v, st, r);
    } else {
      MinLoopNext(ctx, kids[i..], d, alpha, beta, v, st, r);
    }
  }

  /** Plain depth-limited minimax: player 0 maximises, player 1 minimises, a
      node without children is worth `-inf` or `+inf` to the side to move. */
  ghost function Minimax(t: Node, d: nat): Ext
    requires ReadyTree(t)
    decreases d, 0, 0
  {
    if d == 0 then HeuristicValue(t.state)
    else if t.state.player == 0 then MaxOf(t.children, d - 1)
    else MinOf(t.children, d - 1)
  }

  ghost function MaxOf(kids: seq<Node>, d: nat): Ext
    requires AllReady(kids)
    decreases d, 1, |kids|
  {
    if kids == [] then NegInf else Max(Minimax(kids[0], d), MaxOf(kids[1..], d))
  }

  ghost function MinOf(kids: seq<Node>, d: nat): Ext
    requires AllReady(kids)
    decreases d, 1, |kids|
  {
    if kids == [] then PosInf else Min(Minimax(kids[0], d), MinOf(kids[1..], d))
  }
}
