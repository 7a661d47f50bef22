/**
 * What the alpha-beta search of `minmax.alphabeta` guarantees: the depth-0
 * cut-off, the behaviour on a cache hit, the entry a visit leaves behind, the
 * sentinels of childless nodes, and agreement with plain minimax when no cache
 * hit occurs and the clock never runs out.
 */
module AlphaBetaProperties {
  import opened Extended
  import opened GameTree
  import opened Fingerprint
  import opened Extremum
  import opened AlphaBeta

  /** At depth 0 the search is the static evaluation and leaves the state alone. */
  lemma SearchAtDepthZero(ctx: Ctx, t: Node, alpha: Ext, beta: Ext, st: St)
    requires ReadyTree(t) && Consistent(st)
    ensures Search(ctx, t, 0, alpha, beta, st) == Run(HeuristicValue(t.state), st)
  {
  }

  /** On a cache hit the stored value is returned; no table entry is written,
      no clock is read, nothing below the node is searched. */
  lemma SearchOnHit(ctx: Ctx, t: Node, d: nat, alpha: Ext, beta: Ext, st: St)
    requires ReadyTree(t) && Consistent(st)
    requires d > 0 && Hit(ctx, t, d, st)
    ensures var r := Search(ctx, t, d, alpha, beta, st);
            && r.value == st.tt[HashState(ctx.hasher, t.state)]
            && r.st.tt == st.tt && r.st.dt == st.dt && r.st.clock == st.clock
  {
  }

  /** An entry recorded at a depth greater than `d` survives a search at depth
      `d` unchanged: a node below with the same fingerprint is searched at a
      smaller depth, so it is a hit and writes nothing. */
  lemma {:induction false} SearchKeepsDeeperEntry(ctx: Ctx, t: Node, d: nat, alpha: Ext, beta: Ext, st: St, key: int)
    requires ReadyTree(t) && Consistent(st)
    requires key in st.dt && st.dt[key] > d
    ensures key in Search(ctx, t, d, alpha, beta, st).st.dt
    ensures Search(ctx, t, d, alpha, beta, st).st.dt[key] == st.dt[key]
    ensures Search(ctx, t, d, alpha, beta, st).st.tt[key] == st.tt[key]
    decreases d, 0, 0
  {
    if d > 0 && !Hit(ctx, t, d, st) {
      var st1 := Record(ctx, t, d, st);
      assert HashState(ctx.hasher, t.state) != key;
      if t.state.player == 0 {
        MaxLoopKeepsDeeperEntry(ctx, t.children, d - 1, alpha, beta, NegInf, st1, key);
      } else {
        MinLoopKeepsDeeperEntry(ctx, t.children, d - 1, alpha, beta, PosInf, st1, key);
      }
    }
  }

  lemma {:induction false} MaxLoopKeepsDeeperEntry(ctx: Ctx, kids: seq<Node>, d: nat, alpha: Ext, beta: Ext, v: Ext,
                                                   st: St, key: int)
    requires AllReady(kids) && Consistent(st)
    requires key in st.dt && st.dt[key] > d
    ensures key in MaxLoop(ctx, kids, d, alpha, beta, v, st).st.dt
    ensures MaxLoop(ctx, kids, d, alpha, beta, v, st).st.dt[key] == st.dt[key]
    ensures MaxLoop(ctx, kids, d, alpha, beta, v, st).st.tt[key] == st.tt[key]
    decreases d, 1, |kids|
  {
    if kids != [] {
      var r := Search(ctx, kids[0], d, alpha, beta, st);
      SearchKeepsDeeperEntry(ctx, kids[0], d, alpha, beta, st, key);
      if Le(beta, Max(alpha, r.value)) {
        MaxLoopCut(ctx, kids, d, alpha, beta, v, st, r);
      } else if ctx.expired(r.st.clock) {
        MaxLoopOut(ctx, kids, d, alpha, beta, v, st, r);
      } else {
        MaxLoopNext(ctx, kids, d, alpha, beta, v, st, r);
        MaxLoopKeepsDeeperEntry(ctx, kids[1..], d, Max(alpha, r.value), beta, Max(v, r.value), r.st.(clock := r.st.clock + 1), key);
      }
    }
  }

  lemma {:induction false} MinLoopKeepsDeeperEntry(ctx: Ctx, kids: seq<Node>, d: nat, alpha: Ext, beta: Ext, v: Ext,
                                                   st: St, key: int)
    requires AllReady(kids) && Consistent(st)
    requires key in st.dt && st.dt[key] > d
    ensures key in MinLoop(ctx, kids, d, alpha, beta, v, st).st.dt
    ensures MinLoop(ctx, kids, d, alpha, beta, v, st).st.dt[key] == st.dt[key]
    ensures MinLoop(ctx, kids, d, alpha, beta, v, st).st.tt[key] == st.tt[key]
    decreases d, 1, |kids|
  {
    if kids != [] {
      var r := Search(ctx, kids[0], d, alpha, beta, st);
      SearchKeepsDeeperEntry(ctx, kids[0], d, alpha, beta, st, key);
      if Le(Min(beta, r.value), alpha) {
        MinLoopCut(ctx, kids, d, alpha, beta, v, st, r);
      } else if ctx.expired(r.st.clock) {
        MinLoopOut(ctx, kids, d, alpha, beta, v, st, r);
      } else {
        MinLoopNext(ctx, kids, d, alpha, beta, v, st, r);
        MinLoopKeepsDeeperEntry(ctx, kids[1..], d, alpha, Min(beta, r.value), Min(v, r.value), r.st.(clock := r.st.clock + 1), key);
      }
    }
  }

  /** A visit that is not a hit leaves the node's fingerprint in both tables
      with exactly the entry it recorded: the visit's depth and the node's
      static evaluation. */
  lemma VisitLeavesEntry(ctx: Ctx, t: Node, d: nat, alpha: Ext, beta: Ext, st: St)
    requires ReadyTree(t) && Consistent(st)
    requires d > 0 && !Hit(ctx, t, d, st)
    ensures HashState(ctx.hasher, t.state) in Search(ctx, t, d, alpha, beta, st).st.dt
    ensures Search(ctx, t, d, alpha, beta, st).st.dt[HashState(ctx.hasher, t.state)] == d
    ensures Search(ctx, t, d, alpha, beta, st).st.tt[HashState(ctx.hasher, t.state)] == HeuristicValue(t.state)
  {
    var st1 := Record(ctx, t, d, st);
    var key := HashState(ctx.hasher, t.state);
    if t.state.player == 0 {
      MaxLoopKeepsDeeperEntry(ctx, t.children, d - 1, alpha, beta, NegInf, st1, key);
    } else {
      MinLoopKeepsDeeperEntry(ctx, t.children, d - 1, alpha, beta, PosInf, st1, key);
    }
  }

  /** Because the cache test is "recorded depth differs", once a node has been
      searched at depth d without a hit, searching it again at any greater depth
      is a hit: the node's static evaluation, stored by the first visit, is
      returned and nothing below is searched. */
  lemma DeeperSearchHitsCache(ctx: Ctx, t: Node, d: nat, d': nat, alpha: Ext, beta: Ext,
                              alpha': Ext, beta': Ext, st: St)
    requires ReadyTree(t) && Consistent(st)
    requires 0 < d < d' && !Hit(ctx, t, d, st)
    ensures var r := Search(ctx, t, d, alpha, beta, st);
            && Hit(ctx, t, d', r.st)
            && Search(ctx, t, d', alpha', beta', r.st).value == HeuristicValue(t.state)
            && Search(ctx, t, d', alpha', beta', r.st).st == r.st.(hits := r.st.hits + 1)
  {
    VisitLeavesEntry(ctx, t, d, alpha, beta, st);
  }

  /** A searched node without children is worth `-inf` to player 0 and `+inf`
      to player 1, whatever its static evaluation. */
  lemma ChildlessSentinel(ctx: Ctx, t: Node, d: nat, alpha: Ext, beta: Ext, st: St)
    requires ReadyTree(t) && Consistent(st)
    requires d > 0 && !Hit(ctx, t, d, st) && t.children == []
    ensures Search(ctx, t, d, alpha, beta, st).value == if t.state.player == 0 then NegInf else PosInf
  {
  }

  /** The fail-soft alpha-beta relation between a search result `v` and the
      minimax value `m` for the window (alpha, beta). */
  ghost predicate Brackets(v: Ext, m: Ext, alpha: Ext, beta: Ext) {
    && (Le(v, alpha) ==> Le(m, v))
    && (Le(beta, v) ==> Le(v, m))
    && (Lt(alpha, v) && Lt(v, beta) ==> v == m)
  }

  /** Without cache hits and without running out of time, the search agrees
      with minimax inside the window and errs on the correct side outside it. */
  lemma {:induction false} SearchBracketsMinimax(ctx: Ctx, t: Node, d: nat, alpha: Ext, beta: Ext, st: St)
    requires ReadyTree(t) && Consistent(st) && NeverExpires(ctx) && Lt(alpha, beta)
    requires Search(ctx, t, d, alpha, beta, st).st.hits == st.hits
    ensures Brackets(Search(ctx, t, d, alpha, beta, st).value, Minimax(t, d), alpha, beta)
    decreases d, 0, 0
  {
    if d > 0 && !Hit(ctx, t, d, st) {
      var st1 := Record(ctx, t, d, st);
      if t.state.player == 0 {
        MaxLoopBrackets(ctx, t.children, d - 1, alpha, beta, alpha, NegInf, NegInf, st1);
      } else {
        MinLoopBrackets(ctx, t.children, d - 1, alpha, beta, beta, PosInf, PosInf, st1);
      }
    }
  }

  /** Python's `max` is associative on search values. */
  lemma MaxAssociative(a: Ext, b: Ext, c: Ext)
    ensures Max(Max(a, b), c) == Max(a, Max(b, c))
  {
  }

  lemma MinAssociative(a: Ext, b: Ext, c: Ext)
    ensures Min(Min(a, b), c) == Min(a, Min(b, c))
  {
  }

  /** A beta cut-off in the maximising loop: the child's result `x`, which
      brackets its minimax value `mx`, reaches beta and becomes the loop's
      result, which then brackets any maximum that includes `mx`. */
  lemma MaxCutoff(alpha0: Ext, beta: Ext, v: Ext, m: Ext, x: Ext, mx: Ext, rest: Ext)
    requires Lt(alpha0, beta) && Le(m, v) && (v == NegInf || Lt(v, beta))
    requires Le(beta, Max(Max(alpha0, v), x)) && Brackets(x, mx, Max(alpha0, v), beta)
    ensures Brackets(Max(v, x), Max(m, Max(mx, rest)), alpha0, beta)
  {
  }

  /** No cut-off in the maximising loop: the loop's bookkeeping holds again
      with the child's result and minimax value taken in. */
  lemma MaxContinue(alpha0: Ext, beta: Ext, v: Ext, m: Ext, x: Ext, mx: Ext)
    requires Lt(alpha0, beta) && Le(m, v) && (Lt(alpha0, v) ==> v == m) && (v == NegInf || Lt(v, beta))
    requires !Le(beta, Max(Max(alpha0, v), x)) && Brackets(x, mx, Max(alpha0, v), beta)
    ensures Le(Max(m, mx), Max(v, x)) && (Lt(alpha0, Max(v, x)) ==> Max(v, x) == Max(m, mx))
    ensures Max(Max(alpha0, v), x) == Max(alpha0, Max(v, x)) && Lt(Max(v, x), beta)
  {
  }

  /** An alpha cut-off in the minimising loop, symmetric to `MaxCutoff`. */
  lemma MinCutoff(alpha: Ext, beta0: Ext, v: Ext, m: Ext, x: Ext, mx: Ext, rest: Ext)
    requires Lt(alpha, beta0) && Le(v, m) && (v == PosInf || Lt(alpha, v))
    requires Le(Min(Min(beta0, v), x), alpha) && Brackets(x, mx, alpha, Min(beta0, v))
    ensures Brackets(Min(v, x), Min(m, Min(mx, rest)), alpha, beta0)
  {
  }

  /** No cut-off in the minimising loop, symmetric to `MaxContinue`. */
  lemma MinContinue(alpha: Ext, beta0: Ext, v: Ext, m: Ext, x: Ext, mx: Ext)
    requires Lt(alpha, beta0) && Le(v, m) && (Lt(v, beta0) ==> v == m) && (v == PosInf || Lt(alpha, v))
    requires !Le(Min(Min(beta0, v), x), alpha) && Brackets(x, mx, alpha, Min(beta0, v))
    ensures Le(Min(v, x), Min(m, mx)) && (Lt(Min(v, x), beta0) ==> Min(v, x) == Min(m, mx))
    ensures Min(Min(beta0, v), x) == Min(beta0, Min(v, x)) && Lt(alpha, Min(v, x))
  {
  }

  /** The maximising loop: `m` is the best minimax value among the children
      already searched, `v` the best search result among them. */
  lemma {:induction false} MaxLoopBrackets(ctx: Ctx, kids: seq<Node>, d: nat, alpha0: Ext, beta: Ext,
                                           alpha: Ext, v: Ext, m: Ext, st: St)
    requires AllReady(kids) && Consistent(st) && NeverExpires(ctx) && Lt(alpha0, beta)
    requires Le(m, v) && (Lt(alpha0, v) ==> v == m)
    requires alpha == Max(alpha0, v) && (v == NegInf || Lt(v, beta))
    requires MaxLoop(ctx, kids, d, alpha, beta, v, st).st.hits == st.hits
    ensures Brackets(MaxLoop(ctx, kids, d, alpha, beta, v, st).value, Max(m, MaxOf(kids, d)), alpha0, beta)
    decreases d, 1, |kids|
  {
    if kids != [] {
      var r := Search(ctx, kids[0], d, alpha, beta, st);
      var m0 := Minimax(kids[0], d);
      SearchBracketsMinimax(ctx, kids[0], d, alpha, beta, st);
      if Le(beta, Max(alpha, r.value)) {
        MaxCutoff(alpha0, beta, v, m, r.value, m0, MaxOf(kids[1..], d));
      } else {
        var st' := r.st.(clock := r.st.clock + 1);
        MaxContinue(alpha0, beta, v, m, r.value, m0);
        MaxLoopBrackets(ctx, kids[1..], d, alpha0, beta, Max(alpha, r.value), Max(v, r.value), Max(m, m0), st');
        MaxAssociative(m, m0, MaxOf(kids[1..], d));
      }
    }
  }

  /** The minimising loop, symmetric to `MaxLoopBrackets`. */
  lemma {:induction false} MinLoopBrackets(ctx: Ctx, kids: seq<Node>, d: nat, alpha: Ext, beta0: Ext,
                                           beta: Ext, v: Ext, m: Ext, st: St)
    requires AllReady(kids) && Consistent(st) && NeverExpires(ctx) && Lt(alpha, beta0)
    requires Le(v, m) && (Lt(v, beta0) ==> v == m)
    requires beta == Min(beta0, v) && (v == PosInf || Lt(alpha, v))
    requires MinLoop(ctx, kids, d, alpha, beta, v, st).st.hits == st.hits
    ensures Brackets(MinLoop(ctx, kids, d, alpha, beta, v, st).value, Min(m, MinOf(kids, d)), alpha, beta0)
    decreases d, 1, |kids|
  {
    if kids != [] {
      var r := Search(ctx, kids[0], d, alpha, beta, st);
      var m0 := Minimax(kids[0], d);
      SearchBracketsMinimax(ctx, kids[0], d, alpha, beta, st);
      if Le(Min(beta, r.value), alpha) {
        MinCutoff(alpha, beta0, v, m, r.value, m0, MinOf(kids[1..], d));
      } else {
        var st' := r.st.(clock := r.st.clock + 1);
        MinContinue(alpha, beta0, v, m, r.value, m0);
        MinLoopBrackets(ctx, kids[1..], d, alpha, beta0, Min(beta, r.value), Min(v, r.value), Min(m, m0), st');
        MinAssociative(m, m0, MinOf(kids[1..], d));
      }
    }
  }

  /** With the full window (-inf, +inf), as the iterative deepening driver
      uses, a search without cache hits or time-outs is exactly minimax. */
  lemma FullWindowIsMinimax(ctx: Ctx, t: Node, d: nat, st: St)
    requires ReadyTree(t) && Consistent(st) && NeverExpires(ctx)
    requires Search(ctx, t, d, NegInf, PosInf, st).st.hits == st.hits
    ensures Search(ctx, t, d, NegInf, PosInf, st).value == Minimax(t, d)
  {
    SearchBracketsMinimax(ctx, t, d, NegInf, PosInf, st);
  }
}
