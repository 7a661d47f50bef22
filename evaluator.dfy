/**
 * The score-and-proximity evaluation of `help.py` (`compute_heuristic` and
 * the helpers it calls), as functions of the evaluator's fish score table,
 * the maximising player, the board circumference `w` and the decay
 * `d |-> e^(-2d)` applied to a hook-to-fish distance.
 */
module Evaluator {
  import opened Wrappers
  import opened Extended
  import opened GameTree
  import opened Sets

  /** Every caught fish has an entry in the score table. */
  predicate CaughtKnown(fishScores: map<int, int>, s: Snapshot) {
    && (s.caught.0.Some? ==> s.caught.0.value in fishScores)
    && (s.caught.1.Some? ==> s.caught.1.value in fishScores)
  }

  /** The score of the fish on a hook, or 0 for an empty hook. */
  function Pending(fishScores: map<int, int>, c: Option<int>): int
    requires c.Some? ==> c.value in fishScores
  {
    match c
    case None => 0
    case Some(f) => fishScores[f]
  }

  /** `get_score_based_value`: 100 times the maximising player's lead, counting
      the fish on each hook as already landed. */
  function ScoreBasedValue(fishScores: map<int, int>, maxPlayer: Player, s: Snapshot): (v: int)
    requires CaughtKnown(fishScores, s)
    ensures v % 100 == 0
    ensures s.caught == (None, None) ==>
              v == 100 * (ScoreOf(s, maxPlayer) - ScoreOf(s, Other(maxPlayer)))
  {
    var extraMax := Pending(fishScores, CaughtBy(s, maxPlayer));
    var extraMin := Pending(fishScores, CaughtBy(s, Other(maxPlayer)));
    100 * (ScoreOf(s, maxPlayer) - ScoreOf(s, Other(maxPlayer)) + extraMax - extraMin)
  }

  /** The score term is zero-sum: the other player's view is its negation. */
  lemma ScoreBasedValueAntisymmetric(fishScores: map<int, int>, maxPlayer: Player, s: Snapshot)
    requires CaughtKnown(fishScores, s)
    ensures ScoreBasedValue(fishScores, Other(maxPlayer), s) == -ScoreBasedValue(fishScores, maxPlayer, s)
  {
    assert Other(Other(maxPlayer)) == maxPlayer;
  }

  /** How many hooks hold a fish. */
  function CaughtCount(s: Snapshot): (n: nat)
    ensures n <= 2
  {
    (if s.caught.0.Some? then 1 else 0) + (if s.caught.1.Some? then 1 else 0)
  }

  /** No fish on the board, or as many fish on the board as occupied hooks.
      Only the counts are compared: which fish the hooks hold is not checked. */
  predicate Terminal(s: Snapshot) {
    |s.fish| == 0 || |s.fish| == CaughtCount(s)
  }

  /** The horizontal distance on a board of circumference `w`: the shorter
      way round. */
  function HorizontalDistance(a: int, b: int, w: int): (d: int)
    ensures d <= if a - b >= 0 then a - b else b - a
    ensures (if a - b >= 0 then a - b else b - a) <= w ==> 0 <= d <= w / 2
  {
    var dx := if a - b >= 0 then a - b else b - a;
    if dx <= w - dx then dx else w - dx
  }

  /** The hook-to-fish distance: wrapped horizontally, plain vertically. */
  function Distance(hook: Pos, fish: Pos, w: int): (d: int)
    ensures (if fish.0 - hook.0 >= 0 then fish.0 - hook.0 else hook.0 - fish.0) <= w ==> d >= 0
  {
    HorizontalDistance(fish.0, hook.0, w) + (if fish.1 - hook.1 >= 0 then fish.1 - hook.1 else hook.1 - fish.1)
  }

  /** Distance does not depend on which end is the hook. */
  lemma DistanceSymmetric(a: Pos, b: Pos, w: int)
    ensures Distance(a, b, w) == Distance(b, a, w)
  {
    assert HorizontalDistance(b.0, a.0, w) == HorizontalDistance(a.0, b.0, w);
  }

  /** A fish that is on no hook. */
  predicate Free(s: Snapshot, f: int) {
    s.caught.0 != Some(f) && s.caught.1 != Some(f)
  }

  function FreeFish(s: Snapshot): set<int> {
    set f | f in s.fish && Free(s, f)
  }

  /** What the proximity sums need: both hooks, and a score for every free fish. */
  predicate ProximityReady(fishScores: map<int, int>, s: Snapshot) {
    0 in s.hooks && 1 in s.hooks && FreeFish(s) <= fishScores.Keys
  }

  /** One fish's contribution to a player's proximity. */
  function Pull(fishScores: map<int, int>, s: Snapshot, p: Player, w: int, decay: int -> real, f: int): real
    requires ProximityReady(fishScores, s) && f in FreeFish(s)
  {
    (fishScores[f] as real) * decay(Distance(s.hooks[p], s.fish[f], w))
  }

  /** The proximity of player `p` to the fish `ids`: the sum of their pulls. */
  ghost function Proximity(fishScores: map<int, int>, s: Snapshot, p: Player, w: int,
                           decay: int -> real, ids: set<int>): real
    requires ProximityReady(fishScores, s) && ids <= FreeFish(s)
    decreases ids
  {
    if ids == {} then 0.0
    else
      var f := Pick(ids);
      Pull(fishScores, s, p, w, decay, f) + Proximity(fishScores, s, p, w, decay, ids - {f})
  }

  /** The sum does not depend on the order of the fish: any fish can be
      taken first. */
  lemma {:induction false} ProximityTakesAny(fishScores: map<int, int>, s: Snapshot, p: Player, w: int,
                                             decay: int -> real, ids: set<int>, f: int)
    requires ProximityReady(fishScores, s) && ids <= FreeFish(s) && f in ids
    ensures Proximity(fishScores, s, p, w, decay, ids)
         == Pull(fishScores, s, p, w, decay, f) + Proximity(fishScores, s, p, w, decay, ids - {f})
    decreases ids
  {
    var g := Pick(ids);
    if g != f {
      ProximityTakesAny(fishScores, s, p, w, decay, ids - {g}, f);
      ProximityTakesAny(fishScores, s, p, w, decay, ids - {f}, g);
      assert ids - {g} - {f} == ids - {f} - {g};
    }
  }

  /** Removing one fish from the fish still to visit takes its pull off the
      sum when it is free and leaves the sum alone when it is on a hook. */
  lemma ProximityVisit(fishScores: map<int, int>, s: Snapshot, p: Player, w: int,
                       decay: int -> real, remaining: set<int>, f: int)
    requires ProximityReady(fishScores, s) && remaining <= s.fish.Keys && f in remaining
    ensures Proximity(fishScores, s, p, w, decay, FreeFish(s) * remaining)
         == (if Free(s, f) then Pull(fishScores, s, p, w, decay, f) else 0.0)
            + Proximity(fishScores, s, p, w, decay, FreeFish(s) * (remaining - {f}))
  {
    if Free(s, f) {
      ProximityTakesAny(fishScores, s, p, w, decay, FreeFish(s) * remaining, f);
      assert FreeFish(s) * remaining - {f} == FreeFish(s) * (remaining - {f});
    } else {
      assert FreeFish(s) * remaining == FreeFish(s) * (remaining - {f});
    }
  }

  /** With non-negative scores and decay, proximity is non-negative. */
  lemma {:induction false} ProximityNonnegative(fishScores: map<int, int>, s: Snapshot, p: Player, w: int,
                                                decay: int -> real, ids: set<int>)
    requires ProximityReady(fishScores, s) && ids <= FreeFish(s)
    requires forall f :: f in ids ==> fishScores[f] >= 0
    requires forall d :: decay(d) >= 0.0
    ensures Proximity(fishScores, s, p, w, decay, ids) >= 0.0
    decreases ids
  {
    if ids != {} {
      var f := Pick(ids);
      ProximityNonnegative(fishScores, s, p, w, decay, ids - {f});
      assert decay(Distance(s.hooks[p], s.fish[f], w)) >= 0.0;
    }
  }

  /** What an evaluation needs: the caught fish in the table, and, when the
      proximity terms are computed, what they need. */
  predicate Evaluable(fishScores: map<int, int>, s: Snapshot, onlyScores: bool) {
    CaughtKnown(fishScores, s) && (!Terminal(s) && !onlyScores ==> ProximityReady(fishScores, s))
  }

  /** `compute_heuristic`: on a terminal snapshot the sign of the score term
      decides (+inf, -inf or 0); with `onlyScores` the score term; otherwise
      the score term plus the maximising player's proximity minus the other's. */
  ghost function HeuristicValue(fishScores: map<int, int>, maxPlayer: Player, w: int, decay: int -> real,
                                s: Snapshot, onlyScores: bool): Ext
    requires Evaluable(fishScores, s, onlyScores)
  {
    var score := ScoreBasedValue(fishScores, maxPlayer, s);
    if Terminal(s) then
      (if score > 0 then PosInf else if score < 0 then NegInf else Fin(0.0))
    else if onlyScores then Fin(score as real)
    else
      Fin(score as real + Proximity(fishScores, s, maxPlayer, w, decay, FreeFish(s))
                        - Proximity(fishScores, s, Other(maxPlayer), w, decay, FreeFish(s)))
  }

  /** The infinities occur exactly on terminal snapshots, by the sign of the
      score term. */
  lemma TerminalValues(fishScores: map<int, int>, maxPlayer: Player, w: int, decay: int -> real,
                       s: Snapshot, onlyScores: bool)
    requires Evaluable(fishScores, s, onlyScores)
    ensures var h := HeuristicValue(fishScores, maxPlayer, w, decay, s, onlyScores);
            var score := ScoreBasedValue(fishScores, maxPlayer, s);
            && (h == PosInf <==> Terminal(s) && score > 0)
            && (h == NegInf <==> Terminal(s) && score < 0)
            && (Terminal(s) && score == 0 ==> h == Fin(0.0))
            && (!Terminal(s) && onlyScores ==> h == Fin(score as real))
  {
  }

  /** The evaluation is zero-sum: swapping the maximising player negates it. */
  lemma HeuristicAntisymmetric(fishScores: map<int, int>, maxPlayer: Player, w: int, decay: int -> real,
                               s: Snapshot, onlyScores: bool)
    requires Evaluable(fishScores, s, onlyScores)
    ensures HeuristicValue(fishScores, Other(maxPlayer), w, decay, s, onlyScores)
         == Neg(HeuristicValue(fishScores, maxPlayer, w, decay, s, onlyScores))
  {
    ScoreBasedValueAntisymmetric(fishScores, maxPlayer, s);
    assert Other(Other(maxPlayer)) == maxPlayer;
  }
}
