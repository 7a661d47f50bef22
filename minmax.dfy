/**
 * The searcher object of `minmax.py`: a transposition table and a depth table
 * that its depth-limited alpha-beta search fills as it goes, and the
 * iterative-deepening driver that picks the move at the root.
 *
 * Each method is proved to compute exactly the specification function of the
 * same step (`Search` for one alpha-beta call, `RootValues` for the deepening
 * over all root children), so every property proved about those functions
 * holds of the object's behaviour.
 */
module MinmaxAgent {
  import opened Wrappers
  import opened Extended
  import opened GameTree
  import opened Fingerprint
  import opened Extremum
  import opened AlphaBeta
  import opened Deepening
  import opened Selection

  class Minmax {
    /** The hash functions behind the state fingerprint. */
    const hasher: Hasher
    /** The wall clock: the k-th reading reports the budget spent iff `expired(k)`. */
    const expired: nat -> bool

    var transpositionTable: map<int, Ext>
    var depthTable: map<int, nat>
    /** How many times the clock has been read. */
    var clockReads: nat
    /** How many cache hits have occurred (specification only). */
    ghost var hits: nat

    ghost function Context(): Ctx {
      Ctx(hasher, expired)
    }

    ghost function State(): St
      reads this
    {
      St(transpositionTable, depthTable, clockReads, hits)
    }

    ghost predicate Valid()
      reads this
    {
      Consistent(State())
    }

    /** Both tables start empty. */
    constructor (hasher: Hasher, expired: nat -> bool)
      ensures Valid()
      ensures this.hasher == hasher && this.expired == expired
      ensures transpositionTable == map[] && depthTable == map[]
      ensures clockReads == 0 && hits == 0
    {
      this.hasher := hasher;
      this.expired := expired;
      transpositionTable := map[];
      depthTable := map[];
      clockReads := 0;
      hits := 0;
    }

    /** One reading of the clock against the time budget. */
    method TimeUp() returns (up: bool)
      modifies this
      ensures up == expired(old(clockReads))
      ensures clockReads == old(clockReads) + 1
      ensures transpositionTable == old(transpositionTable) && depthTable == old(depthTable)
      ensures hits == old(hits)
    {
      up := expired(clockReads);
      clockReads := clockReads + 1;
    }

    /** The depth-limited alpha-beta search with the transposition table. */
    method AlphaBetaSearch(t: Node, depth: nat, alpha: Ext, beta: Ext) returns (v: Ext)
      requires Valid() && ReadyTree(t)
      modifies this
      ensures Valid()
      ensures Run(v, State()) == Search(Context(), t, depth, alpha, beta, old(State()))
      decreases depth, 1
    {
      var key := HashState(hasher, t.state);
      if depth == 0 {
        v := Heuristic(t.state);
        return;
      }
      if key in transpositionTable && depth != depthTable[key] {
        v := transpositionTable[key];
        hits := hits + 1;
        return;
      }
      v := Expand(t, depth, alpha, beta);
    }

    /** A visit that is neither at depth 0 nor a cache hit: record the node's
        heuristic value at this depth, then run the loop of the side to move. */
    method Expand(t: Node, depth: nat, alpha: Ext, beta: Ext) returns (v: Ext)
      requires Valid() && ReadyTree(t) && depth > 0 && !Hit(Context(), t, depth, State())
      modifies this
      ensures Valid()
      ensures Run(v, State()) == Search(Context(), t, depth, alpha, beta, old(State()))
      decreases depth, 0
    {
      var key := HashState(hasher, t.state);
      depthTable := depthTable[key := depth];
      var h := Heuristic(t.state);
      transpositionTable := transpositionTable[key := h];
      assert State() == Record(Context(), t, depth, old(State()));
      if t.state.player == 0 {
        v := MaximiseOver(t.children, depth - 1, alpha, beta);
      } else {
        v := MinimiseOver(t.children, depth - 1, alpha, beta);
      }
    }

    /** One round of the maximising loop: search child `i`, take its result
        into the best value and alpha, then test for a beta cut-off and read
        the clock. `stop` says the loop ends here. */
    method MaxChild(children: seq<Node>, i: nat, depth: nat, alpha: Ext, beta: Ext, v: Ext)
      returns (v': Ext, alpha': Ext, stop: bool)
      requires Valid() && AllReady(children) && i < |children|
      modifies this
      ensures Valid()
      ensures stop ==> Run(v', State()) == MaxLoop(Context(), children[i..], depth, alpha, beta, v, old(State()))
      ensures !stop ==> MaxLoop(Context(), children[i + 1..], depth, alpha', beta, v', State())
                        == MaxLoop(Context(), children[i..], depth, alpha, beta, v, old(State()))
      decreases depth, 2
    {
      var result := AlphaBetaSearch(children[i], depth, alpha, beta);
      ghost var r := Run(result, State());
      MaxLoopStep(Context(), children, i, depth, alpha, beta, v, old(State()), r);
      v' := Max(v, result);
      alpha' := Max(alpha, result);
      if Le(beta, alpha') {
        return v', alpha', true;
      }
      stop := TimeUp();
      assert State() == r.st.(clock := r.st.clock + 1);
    }

    /** The loop of the maximising player over the children of a node. */
    method MaximiseOver(children: seq<Node>, depth: nat, alpha: Ext, beta: Ext) returns (v: Ext)
      requires Valid() && AllReady(children)
      modifies this
      ensures Valid()
      ensures Run(v, State()) == MaxLoop(Context(), children, depth, alpha, beta, NegInf, old(State()))
      decreases depth, 3
    {
      ghost var target := MaxLoop(Context(), children, depth, alpha, beta, NegInf, old(State()));
      var a := alpha;
      v := NegInf;
      var i := 0;
      while i < |children|
        invariant 0 <= i <= |children| && Valid()
        invariant MaxLoop(Context(), children[i..], depth, a, beta, v, State()) == target
        decreases |children| - i
      {
        var stop;
        v, a, stop := MaxChild(children, i, depth, a, beta, v);
        if stop {
          break;
        }
        i := i + 1;
      }
    }

    /** One round of the minimising loop, symmetric to `MaxChild`. */
    method MinChild(children: seq<Node>, i: nat, depth: nat, alpha: Ext, beta: Ext, v: Ext)
      returns (v': Ext, beta': Ext, stop: bool)
      requires Valid() && AllReady(children) && i < |children|
      modifies this
      ensures Valid()
      ensures stop ==> Run(v', State()) == MinLoop(Context(), children[i..], depth, alpha, beta, v, old(State()))
      ensures !stop ==> MinLoop(Context(), children[i + 1..], depth, alpha, beta', v', State())
                        == MinLoop(Context(), children[i..], depth, alpha, beta, v, old(State()))
      decreases depth, 2
    {
      var result := AlphaBetaSearch(children[i], depth, alpha, beta);
      ghost var r := Run(result, State());
      MinLoopStep(Context(), children, i, depth, alpha, beta, v, old(State()), r);
      v' := Min(v, result);
      beta' := Min(beta, result);
      if Le(beta', alpha) {
        return v', beta', true;
      }
      stop := TimeUp();
      assert State() == r.st.(clock := r.st.clock + 1);
    }

    /** The loop of the minimising player over the children of a node. */
    method MinimiseOver(children: seq<Node>, depth: nat, alpha: Ext, beta: Ext) returns (v: Ext)
      requires Valid() && AllReady(children)
      modifies this
      ensures Valid()
      ensures Run(v, State()) == MinLoop(Context(), children, depth, alpha, beta, PosInf, old(State()))
      decreases depth, 3
    {
      ghost var target := MinLoop(Context(), children, depth, alpha, beta, PosInf, old(State()));
      var b := beta;
      v := PosInf;
      var i := 0;
      while i < |children|
        invariant 0 <= i <= |children| && Valid()
        invariant MinLoop(Context(), children[i..], depth, alpha, b, v, State()) == target
        decreases |children| - i
      {
        var stop;
        v, b, stop := MinChild(children, i, depth, alpha, b, v);
        if stop {
          break;
        }
        i := i + 1;
      }
    }

    /** One deepening iteration: the full-window search at `depth`, the clock
        reading after it, and the new kept value. */
    method DeepenOnce(child: Node, depth: nat, best: Ext) returns (kept: Ext)
      requires Valid() && ReadyTree(child)
      modifies this
      ensures Valid()
      ensures kept == Iterate(Context(), child, depth, best, old(State())).kept
      ensures State() == Iterate(Context(), child, depth, best, old(State())).st
    {
      var res := AlphaBetaSearch(child, depth, NegInf, PosInf);
      var up := TimeUp();
      kept := best;
      if up {
        kept := res;
      }
      if Lt(kept, res) {
        kept := res;
      }
    }

    /** Iterative deepening of one root child: searches at depths 2 to 21 with
        the full window, reading the clock after each. */
    method DeepenChild(child: Node) returns (best: Ext)
      requires Valid() && ReadyTree(child)
      modifies this
      ensures Valid()
      ensures best == Deepen(Context(), child, 0, NegInf, old(State())).best
      ensures State() == Deepen(Context(), child, 0, NegInf, old(State())).st
    {
      ghost var target := Deepen(Context(), child, 0, NegInf, old(State()));
      best := NegInf;
      var i := 0;
      while i < MaxIterations
        invariant i <= MaxIterations && Valid()
        invariant Deepen(Context(), child, i, best, State()).best == target.best
        invariant Deepen(Context(), child, i, best, State()).st == target.st
      {
        DeepenStep(Context(), child, i, best, State(), Iterate(Context(), child, i + DeepeningFactor, best, State()));
        best := DeepenOnce(child, i + DeepeningFactor, best);
        i := i + 1;
      }
    }

    /** The deepened value of every root child, in order. */
    method DeepenAll(children: seq<Node>) returns (bestValues: seq<Ext>)
      requires Valid() && AllReady(children)
      modifies this
      ensures Valid()
      ensures bestValues == RootValues(Context(), children, old(State())).values
      ensures State() == RootValues(Context(), children, old(State())).st
    {
      ghost var target := RootValues(Context(), children, old(State()));
      bestValues := [];
      for c := 0 to |children|
        invariant Valid()
        invariant Collect(Context(), children, c, bestValues, State()) == target
      {
        ghost var d := Deepen(Context(), children[c], 0, NegInf, State());
        var value := DeepenChild(children[c]);
        assert value == d.best && State() == d.st;
        bestValues := bestValues + [value];
      }
    }

    /** The move of the first root child with the largest deepened value, or
        nothing when the root has no children (the source's `max` of an empty
        list fails). */
    method BestMove(root: Node) returns (move: Option<Move>)
      requires Valid() && AllReady(root.children)
      modifies this
      ensures Valid()
      ensures State() == RootValues(Context(), root.children, old(State())).st
      ensures move == if root.children == [] then None
                      else Some(root.children[FirstArgmax(RootValues(Context(), root.children, old(State())).values)].move)
    {
      var children := root.children;
      var bestValues := DeepenAll(children);
      var bestMoves := seq(|children|, j requires 0 <= j < |children| => children[j].move);
      if |bestValues| == 0 {
        move := None;
      } else {
        var k := IndexOfMax(bestValues);
        move := Some(bestMoves[k]);
      }
    }
  }
}
