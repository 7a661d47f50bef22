/**
 * How `MinimaxModel.next_move` turns the values of the root children into a
 * move: a single child is played at once; otherwise the children are scanned
 * in order, and a child strictly better than the best so far becomes the
 * choice. The clock is read only after such an improvement, and the scan stops
 * when the budget is spent or the value is `+inf`. When no child improves on
 * `-inf` the result is the initial placeholder 0.
 */
module MoveChoice {
  import opened Wrappers
  import opened Extended
  import opened GameTree
  import opened Selection

  datatype Choice = Chosen(move: Move) | InitialZero

  /** The scan from child `i` on, with the best value and choice so far and
      the number of clock readings taken. */
  ghost function ScanFrom(kids: seq<Node>, vals: seq<Ext>, i: nat, best: Ext, choice: Choice,
                          clockReads: nat, timeUp: nat -> bool): Choice
    requires |vals| == |kids| && i <= |kids|
    decreases |kids| - i
  {
    if i == |kids| then choice
    else if Lt(best, vals[i]) then
      var chosen := Chosen(kids[i].move);
      if timeUp(clockReads) || vals[i] == PosInf then chosen
      else ScanFrom(kids, vals, i + 1, vals[i], chosen, clockReads + 1, timeUp)
    else ScanFrom(kids, vals, i + 1, best, choice, clockReads, timeUp)
  }

  /** The whole choice, given the children's values. */
  ghost function ChooseMove(kids: seq<Node>, vals: seq<Ext>, timeUp: nat -> bool): Choice
    requires |vals| == |kids|
  {
    if |kids| == 1 then Chosen(kids[0].move)
    else ScanFrom(kids, vals, 0, NegInf, InitialZero, 0, timeUp)
  }

  /** The choice when the budget never runs out: the first child with the
      largest value, or the placeholder when every value is `-inf`. */
  ghost function Untimed(kids: seq<Node>, vals: seq<Ext>): Choice
    requires |vals| == |kids|
  {
    match FirstImprovement(vals)
    case None => InitialZero
    case Some(k) => Chosen(kids[k].move)
  }

  /** At the end of a scan without time-outs, the choice so far is the
      untimed one. */
  lemma ScanEndsUntimed(kids: seq<Node>, vals: seq<Ext>, best: Ext, choice: Choice)
    requires |vals| == |kids|
    requires |kids| == 0 ==> best == NegInf
    requires |kids| > 0 ==> best == vals[FirstArgmax(vals)]
    requires choice == if best == NegInf then InitialZero else Chosen(kids[FirstArgmax(vals)].move)
    ensures choice == Untimed(kids, vals)
  {
    if best == NegInf && |kids| > 0 {
      forall j | 0 <= j < |vals| ensures vals[j] == NegInf {
        assert Le(vals[j], best);
      }
    }
  }

  /** A `+inf` value at the first largest index of the values scanned so far
      is the untimed choice. */
  lemma TopIsUntimed(kids: seq<Node>, vals: seq<Ext>, i: nat)
    requires |vals| == |kids| && i < |kids|
    requires vals[i] == PosInf && FirstArgmax(vals[..i + 1]) == i
    ensures Untimed(kids, vals) == Chosen(kids[i].move)
  {
    FirstArgmaxStopsAtTop(vals, i + 1);
  }

  /** Without time-outs, the scan from child `i` on ends on the untimed
      choice, provided the best value and choice so far are those of the first
      largest value among the children before `i`. */
  lemma {:induction false} ScanWithoutTimeout(kids: seq<Node>, vals: seq<Ext>, i: nat, best: Ext,
                                              choice: Choice, clockReads: nat, timeUp: nat -> bool)
    requires |vals| == |kids| && i <= |kids|
    requires forall k :: !timeUp(k)
    requires i == 0 ==> best == NegInf
    requires i > 0 ==> best == vals[FirstArgmax(vals[..i])]
    requires best != PosInf
    requires choice == if best == NegInf then InitialZero else Chosen(kids[FirstArgmax(vals[..i])].move)
    ensures ScanFrom(kids, vals, i, best, choice, clockReads, timeUp) == Untimed(kids, vals)
    decreases |kids| - i
  {
    if i == |kids| {
      assert vals[..i] == vals;
      ScanEndsUntimed(kids, vals, best, choice);
    } else {
      BestSoFarStep(vals, i, best);
      if Lt(best, vals[i]) {
        if vals[i] == PosInf {
          TopIsUntimed(kids, vals, i);
        } else {
          ScanWithoutTimeout(kids, vals, i + 1, vals[i], Chosen(kids[i].move), clockReads + 1, timeUp);
        }
      } else {
        ScanWithoutTimeout(kids, vals, i + 1, best, choice, clockReads, timeUp);
      }
    }
  }

  /** Without time-outs, a root with several children gets the first child
      with the largest value, or the placeholder when all are `-inf`. */
  lemma ChoiceWithoutTimeout(kids: seq<Node>, vals: seq<Ext>, timeUp: nat -> bool)
    requires |vals| == |kids| && |kids| != 1
    requires forall k :: !timeUp(k)
    ensures ChooseMove(kids, vals, timeUp) == Untimed(kids, vals)
  {
    ScanWithoutTimeout(kids, vals, 0, NegInf, InitialZero, 0, timeUp);
  }

  /** Whatever the clock does, a chosen move belongs to a child whose value is
      above `-inf` and strictly above every earlier child's. */
  lemma {:induction false} ScanChoosesImprovement(kids: seq<Node>, vals: seq<Ext>, i: nat, best: Ext,
                                                  choice: Choice, clockReads: nat, timeUp: nat -> bool)
    requires |vals| == |kids| && i <= |kids|
    requires forall j :: 0 <= j < i ==> Le(vals[j], best)
    requires choice == InitialZero ==> best == NegInf
    requires choice.Chosen? ==> exists k :: 0 <= k < i && choice.move == kids[k].move && vals[k] == best
                                  && Lt(NegInf, best) && forall j :: 0 <= j < k ==> Lt(vals[j], best)
    ensures var c := ScanFrom(kids, vals, i, best, choice, clockReads, timeUp);
            c.Chosen? ==> exists k :: 0 <= k < |kids| && c.move == kids[k].move
                           && Lt(NegInf, vals[k]) && forall j :: 0 <= j < k ==> Lt(vals[j], vals[k])
    decreases |kids| - i
  {
    if i < |kids| {
      if Lt(best, vals[i]) {
        assert forall j :: 0 <= j < i ==> Lt(vals[j], vals[i]) by {
          forall j | 0 <= j < i ensures Lt(vals[j], vals[i]) { LeTrans(vals[j], best, vals[i]); }
        }
        if !(timeUp(clockReads) || vals[i] == PosInf) {
          ScanChoosesImprovement(kids, vals, i + 1, vals[i], Chosen(kids[i].move), clockReads + 1, timeUp);
        }
      } else {
        ScanChoosesImprovement(kids, vals, i + 1, best, choice, clockReads, timeUp);
      }
    }
  }

  lemma ChoiceIsImprovement(kids: seq<Node>, vals: seq<Ext>, timeUp: nat -> bool)
    requires |vals| == |kids| && |kids| != 1
    ensures var c := ChooseMove(kids, vals, timeUp);
            c.Chosen? ==> exists k :: 0 <= k < |kids| && c.move == kids[k].move
                           && Lt(NegInf, vals[k]) && forall j :: 0 <= j < k ==> Lt(vals[j], vals[k])
  {
    ScanChoosesImprovement(kids, vals, 0, NegInf, InitialZero, 0, timeUp);
  }
}
