/**
 * The evaluator object of `help.py` (`MinimaxModel`): the fish tables built at
 * construction, the board circumference, and the maximising player and depth
 * limit that `next_move` sets before it evaluates the root children.
 *
 * The decay `d |-> e^(-2d)` and the clock are parameters of the methods that
 * use them; the clock's k-th reading since the start of `next_move` reports
 * the budget spent iff `timeUp(k)`.
 */
module ModelAgent {
  import opened Wrappers
  import opened Extended
  import opened GameTree
  import opened FishTables
  import opened Evaluator
  import opened MoveChoice
  import opened Sets

  /** `tree_depth`: the depth `next_move` hands to every root child. */
  const TreeDepth: nat := 6

  /** The search below the root fails outside the depth limit: the branch
      reads the children list before it is ever assigned. */
  datatype SearchError = ChildrenUnbound

  /** The value of every root child, as `next_move` evaluates it. */
  ghost function ChildValues(fishScores: map<int, int>, maxPlayer: Player, w: int, decay: int -> real,
                             kids: seq<Node>): seq<Ext>
    requires forall i :: 0 <= i < |kids| ==> Evaluable(fishScores, kids[i].state, false)
  {
    seq(|kids|, i requires 0 <= i < |kids| =>
                  HeuristicValue(fishScores, maxPlayer, w, decay, kids[i].state, false))
  }

  /** The root values are zero-sum: evaluated for the other player, every
      root child's value is negated. */
  lemma ChildValuesAntisymmetric(fishScores: map<int, int>, maxPlayer: Player, w: int, decay: int -> real,
                                 kids: seq<Node>)
    requires forall i :: 0 <= i < |kids| ==> Evaluable(fishScores, kids[i].state, false)
    ensures |ChildValues(fishScores, Other(maxPlayer), w, decay, kids)| == |kids|
    ensures forall i :: 0 <= i < |kids| ==>
              ChildValues(fishScores, Other(maxPlayer), w, decay, kids)[i]
              == Neg(ChildValues(fishScores, maxPlayer, w, decay, kids)[i])
  {
    forall i | 0 <= i < |kids|
      ensures ChildValues(fishScores, Other(maxPlayer), w, decay, kids)[i]
              == Neg(ChildValues(fishScores, maxPlayer, w, decay, kids)[i])
    {
      HeuristicAntisymmetric(fishScores, maxPlayer, w, decay, kids[i].state, false);
    }
  }

  class MinimaxModel {
    var fishScores: map<int, int>
    var fishTypes: map<int, nat>
    /** The board's horizontal circumference. */
    var spaceSubdivisions: int
    var maxPlayer: Player
    var maxDepth: nat

    /** Builds the fish tables; a malformed table makes the source raise. */
    constructor (data: seq<Entry>, spaceSubdivisions: int)
      requires ScoreTable(data).Ok?
      ensures fishScores == ScoreTable(data).value && fishTypes == TypeTable(fishScores)
      ensures this.spaceSubdivisions == spaceSubdivisions
    {
      fishScores := map[];
      fishTypes := map[];
      this.spaceSubdivisions := spaceSubdivisions;
      maxPlayer := 0;
      maxDepth := 0;
      new;
      var err := GetFishScoresAndTypes(data);
    }

    /** Reads the raw metadata in order. On success both tables are replaced;
        on the first unreadable entry its error is returned and nothing changes. */
    method GetFishScoresAndTypes(data: seq<Entry>) returns (err: Option<TableError>)
      modifies this
      ensures spaceSubdivisions == old(spaceSubdivisions)
      ensures maxPlayer == old(maxPlayer) && maxDepth == old(maxDepth)
      ensures ScoreTable(data).Ok? ==>
                err == None && fishScores == ScoreTable(data).value && fishTypes == TypeTable(fishScores)
      ensures ScoreTable(data).Err? ==>
                err == Some(ScoreTable(data).error)
                && fishScores == old(fishScores) && fishTypes == old(fishTypes)
    {
      var scores: map<int, int> := map[];
      for i := 0 to |data|
        invariant ScoreTable(data[..i]) == Ok(scores)
      {
        assert data[..i + 1][..i] == data[..i];
        var e := data[i];
        if e.0 != GameOverKey {
          var id := FishId(e.0);
          if id.Err? {
            ScoreTableKeepsError(data, i + 1);
            return Some(id.error);
          }
          if e.1.Malformed? {
            ScoreTableKeepsError(data, i + 1);
            return Some(NoScore(e.0));
          }
          scores := scores[id.value := e.1.score];
        }
      }
      assert data[..|data|] == data;
      fishScores := scores;
      fishTypes := TypeTable(scores);
      err := None;
    }

    /** `get_proximity_value`: the sum of the pulls of the free fish on the
        player's hook. */
    method ProximityValue(s: Snapshot, player: Player, decay: int -> real) returns (v: real)
      requires ProximityReady(fishScores, s)
      ensures v == Proximity(fishScores, s, player, spaceSubdivisions, decay, FreeFish(s))
    {
      ghost var total := Proximity(fishScores, s, player, spaceSubdivisions, decay, FreeFish(s));
      v := 0.0;
      var remaining := s.fish.Keys;
      assert FreeFish(s) * remaining == FreeFish(s);
      while remaining != {}
        invariant remaining <= s.fish.Keys
        invariant v + Proximity(fishScores, s, player, spaceSubdivisions, decay, FreeFish(s) * remaining) == total
        decreases remaining
      {
        // A witness: it shows the solver that some element is left to pick.
        ghost var some := Pick(remaining);
        var f :| f in remaining;
        ProximityVisit(fishScores, s, player, spaceSubdivisions, decay, remaining, f);
        if Free(s, f) {
          assert f in FreeFish(s);
          v := v + Pull(fishScores, s, player, spaceSubdivisions, decay, f);
        }
        remaining := remaining - {f};
      }
      assert FreeFish(s) * {} == {};
    }

    /** `compute_heuristic`. */
    method ComputeHeuristic(s: Snapshot, onlyScores: bool, decay: int -> real) returns (h: Ext)
      requires Evaluable(fishScores, s, onlyScores)
      ensures h == HeuristicValue(fishScores, maxPlayer, spaceSubdivisions, decay, s, onlyScores)
    {
      var scoreBasedValue := ScoreBasedValue(fishScores, maxPlayer, s);
      var nFish := |s.fish|;
      var nCaught := CaughtCount(s);
      if nFish == 0 || nFish == nCaught {
        if scoreBasedValue > 0 {
          return PosInf;
        }
        if scoreBasedValue < 0 {
          return NegInf;
        }
        return Fin(0.0);
      }
      if onlyScores {
        return Fin(scoreBasedValue as real);
      }
      var valueMaxPlayer := ProximityValue(s, maxPlayer, decay);
      var valueMinPlayer := ProximityValue(s, Other(maxPlayer), decay);
      var proximityValue := valueMaxPlayer - valueMinPlayer;
      h := Fin(scoreBasedValue as real + proximityValue);
    }

    /** `alpha_beta_prunning`: at the depth limit, the evaluation of the node;
        at any other depth the source fails before searching. The window
        plays no part. */
    method AlphaBetaPrunning(node: Node, alpha: Ext, beta: Ext, depth: nat, decay: int -> real)
      returns (r: Result<Ext, SearchError>)
      requires depth == maxDepth ==> Evaluable(fishScores, node.state, false)
      ensures r.Ok? <==> depth == maxDepth
      ensures r.Ok? ==> r.value == HeuristicValue(fishScores, maxPlayer, spaceSubdivisions, decay, node.state, false)
    {
      if depth == maxDepth {
        var h := ComputeHeuristic(node.state, false, decay);
        return Ok(h);
      }
      return Err(ChildrenUnbound);
    }

    /** `next_move`: evaluates the root children for the player to move and
        scans them for the choice. */
    method NextMove(node: Node, decay: int -> real, timeUp: nat -> bool) returns (choice: Choice)
      requires |node.children| != 1 ==>
                 forall i :: 0 <= i < |node.children| ==> Evaluable(fishScores, node.children[i].state, false)
      modifies this
      ensures maxPlayer == node.state.player && maxDepth == TreeDepth
      ensures fishScores == old(fishScores) && fishTypes == old(fishTypes)
      ensures spaceSubdivisions == old(spaceSubdivisions)
      ensures |node.children| == 1 ==> choice == Chosen(node.children[0].move)
      ensures |node.children| != 1 ==>
                choice == ChooseMove(node.children,
                                     ChildValues(fishScores, maxPlayer, spaceSubdivisions, decay, node.children),
                                     timeUp)
    {
      maxPlayer := node.state.player;
      maxDepth := TreeDepth;
      var children := node.children;
      if |children| == 1 {
        return Chosen(children[0].move);
      }
      ghost var vals := ChildValues(fishScores, maxPlayer, spaceSubdivisions, decay, children);
      ghost var target := ScanFrom(children, vals, 0, NegInf, InitialZero, 0, timeUp);
      var alpha := NegInf;
      var beta := PosInf;
      var bestValue := NegInf;
      choice := InitialZero;
      var clockReads := 0;
      for i := 0 to |children|
        invariant ScanFrom(children, vals, i, bestValue, choice, clockReads, timeUp) == target
        invariant maxPlayer == node.state.player && maxDepth == TreeDepth
        invariant fishScores == old(fishScores) && fishTypes == old(fishTypes)
        invariant spaceSubdivisions == old(spaceSubdivisions)
      {
        var value := AlphaBetaPrunning(children[i], alpha, beta, TreeDepth, decay);
        if Lt(bestValue, value.value) {
          bestValue := value.value;
          choice := Chosen(children[i].move);
          alpha := value.value;
          var up := timeUp(clockReads);
          clockReads := clockReads + 1;
          if up {
            return;
          }
          if bestValue == PosInf {
            return;
          }
        }
      }
    }
  }
}
