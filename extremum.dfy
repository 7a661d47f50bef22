/**
 * The searcher's static evaluation (`minmax.heuristic`): for every fish with a
 * non-negative score, player 1's squared distance to it minus player 0's, each
 * divided by the fish's score; the value is the smallest such gap, or `+inf`
 * when no fish contributes.
 *
 * The source's "not caught" test compares a fish position with the pair of
 * caught fish ids, so it never excludes a fish: every fish on the board is
 * considered here.
 */
module Extremum {
  import opened GameTree
  import opened Extended
  import opened Sets

  function SqDist(a: Pos, b: Pos): (d: int)
    ensures d >= 0
  {
    (a.0 - b.0) * (a.0 - b.0) + (a.1 - b.1) * (a.1 - b.1)
  }

  /** What the evaluation needs of a snapshot: both hooks, and a nonzero score
      for every fish on the board (a zero score divides by zero). */
  ghost predicate Ready(s: Snapshot) {
    && 0 in s.hooks && 1 in s.hooks
    && forall f :: f in s.fish ==> f in s.fishScores && s.fishScores[f] != 0
  }

  /** The normalised gap of one fish: player 1's distance minus player 0's. */
  function Gap(s: Snapshot, f: int): real
    requires Ready(s) && f in s.fish
  {
    var score := s.fishScores[f] as real;
    (SqDist(s.hooks[1], s.fish[f]) as real) / score - (SqDist(s.hooks[0], s.fish[f]) as real) / score
  }

  /** The fish that contribute a gap: those with a non-negative score. */
  ghost function Contributing(s: Snapshot): set<int>
    requires Ready(s)
  {
    set f | f in s.fish && s.fishScores[f] >= 0
  }

  /** A fish of `ids` whose gap is the least among them. */
  ghost function LeastGapFish(s: Snapshot, ids: set<int>): (f: int)
    requires Ready(s) && ids != {} && ids <= s.fish.Keys
    ensures f in ids
    ensures forall g :: g in ids ==> Gap(s, f) <= Gap(s, g)
  {
    var x := Pick(ids);
    if ids - {x} == {} then
      assert forall g :: g in ids ==> g == x by {
        forall g | g in ids ensures g == x { assert g !in ids - {x}; }
      }
      x
    else
      var rest := LeastGapFish(s, ids - {x});
      var f := if Gap(s, x) < Gap(s, rest) then x else rest;
      assert forall g :: g in ids ==> Gap(s, f) <= Gap(s, g) by {
        forall g | g in ids ensures Gap(s, f) <= Gap(s, g) {
          if g != x { assert g in ids - {x}; }
        }
      }
      f
  }

  /** The value of the evaluation, as a function of the snapshot. */
  ghost function HeuristicValue(s: Snapshot): Ext
    requires Ready(s)
  {
    if Contributing(s) == {} then PosInf
    else Fin(Gap(s, LeastGapFish(s, Contributing(s))))
  }

  /** The evaluation is the minimum over contributing fish of their gaps, and
      `+inf` exactly when no fish contributes. */
  lemma HeuristicIsMinimum(s: Snapshot)
    requires Ready(s)
    ensures HeuristicValue(s) == PosInf <==> Contributing(s) == {}
    ensures forall f :: f in Contributing(s) ==> Le(HeuristicValue(s), Fin(Gap(s, f)))
    ensures HeuristicValue(s) != PosInf ==>
              exists f :: f in Contributing(s) && HeuristicValue(s) == Fin(Gap(s, f))
  {
  }

  /** A value that is `+inf` or a listed gap, and no larger than any gap, is the evaluation. */
  lemma MinimumIsHeuristic(s: Snapshot, h: Ext)
    requires Ready(s)
    requires h == PosInf || exists f :: f in Contributing(s) && h == Fin(Gap(s, f))
    requires forall f :: f in Contributing(s) ==> Le(h, Fin(Gap(s, f)))
    ensures h == HeuristicValue(s)
  {
    HeuristicIsMinimum(s);
    if Contributing(s) != {} {
      var g :| g in Contributing(s) && HeuristicValue(s) == Fin(Gap(s, g));
      assert Le(h, Fin(Gap(s, g)));
      if h != PosInf {
        var f :| f in Contributing(s) && h == Fin(Gap(s, f));
        assert Le(HeuristicValue(s), Fin(Gap(s, f)));
      }
    }
  }

  /** Python's `min` over a non-empty list. */
  method ListMin(xs: seq<Ext>) returns (m: Ext)
    requires |xs| > 0
    ensures m in xs
    ensures forall j :: 0 <= j < |xs| ==> Le(m, xs[j])
  {
    m := xs[0];
    var k := 1;
    while k < |xs|
      invariant 1 <= k <= |xs|
      invariant m in xs[..k]
      invariant forall j :: 0 <= j < k ==> Le(m, xs[j])
    {
      m := Min(m, xs[k]);
      k := k + 1;
    }
  }

  /** The evaluation as the source computes it: gaps collected into a list that
      starts with `+inf`, then the list's minimum. */
  method Heuristic(s: Snapshot) returns (h: Ext)
    requires Ready(s)
    ensures h == HeuristicValue(s)
  {
    var heurList := [PosInf];
    ghost var origin: seq<int> := [];  // the fish behind each listed gap
    var remaining := s.fish.Keys;
    while remaining != {}
      invariant remaining <= s.fish.Keys
      invariant |heurList| == |origin| + 1 && heurList[0] == PosInf
      invariant forall j :: 0 <= j < |origin| ==>
                  origin[j] in Contributing(s) && heurList[j + 1] == Fin(Gap(s, origin[j]))
      invariant forall f :: f in Contributing(s) && f !in remaining ==> f in origin
      decreases remaining
    {
      // A witness: it shows the solver that some element is left to pick.
      ghost var some := Pick(remaining);
      var i :| i in remaining;
      var fish := s.fish[i];
      var score := s.fishScores[i] as real;
      var distance1 := (SqDist(s.hooks[0], fish) as real) / score;
      var distance2 := (SqDist(s.hooks[1], fish) as real) / score;
      if s.fishScores[i] >= 0 {
        heurList := heurList + [Fin(distance2 - distance1)];
        origin := origin + [i];
      }
      remaining := remaining - {i};
    }
    h := ListMin(heurList);
    forall f | f in Contributing(s)
      ensures Le(h, Fin(Gap(s, f)))
    {
      var n :| 0 <= n < |origin| && origin[n] == f;
      assert heurList[n + 1] == Fin(Gap(s, f));
    }
    if h != PosInf {
      var n :| 0 <= n < |heurList| && heurList[n] == h;
      assert heurList[n] == Fin(Gap(s, origin[n - 1]));
    }
    MinimumIsHeuristic(s, h);
  }
}
