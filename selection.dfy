/**
 * Choosing among root children by value: the first child whose value is the
 * largest (`best_values.index(max(best_values))`), and the strict-improvement
 * scan of `next_move`, which keeps the first child strictly above `-inf` and
 * above every earlier child.
 */
module Selection {
  import opened Wrappers
  import opened Extended

  /** The first index holding the largest value. */
  function FirstArgmax(vals: seq<Ext>): (k: nat)
    requires |vals| > 0
    ensures k < |vals|
    ensures forall j :: 0 <= j < |vals| ==> Le(vals[j], vals[k])
    ensures forall j :: 0 <= j < k ==> Lt(vals[j], vals[k])
  {
    if |vals| == 1 then 0
    else
      var k := FirstArgmax(vals[..|vals| - 1]);
      if Lt(vals[k], vals[|vals| - 1]) then |vals| - 1 else k
  }

  /** The index a strict-improvement scan starting from `-inf` ends on: none
      when every value is `-inf`, otherwise the first largest one. */
  function FirstImprovement(vals: seq<Ext>): (r: Option<nat>)
    ensures r == None <==> forall j :: 0 <= j < |vals| ==> vals[j] == NegInf
    ensures r.Some? ==> r.value < |vals| && Lt(NegInf, vals[r.value])
    ensures r.Some? ==> forall j :: 0 <= j < |vals| ==> Le(vals[j], vals[r.value])
    ensures r.Some? ==> forall j :: 0 <= j < r.value ==> Lt(vals[j], vals[r.value])
  {
    if forall j :: 0 <= j < |vals| ==> vals[j] == NegInf then None
    else Some(FirstArgmax(vals))
  }

  /** Scanning one more value: the index moves to it exactly when it is
      strictly larger than the value at the current index. */
  lemma {:induction false} FirstArgmaxStep(vals: seq<Ext>, n: nat)
    requires 0 < n < |vals|
    ensures var k := FirstArgmax(vals[..n]);
            FirstArgmax(vals[..n + 1]) == if Lt(vals[k], vals[n]) then n else k
  {
    assert vals[..n + 1][..n] == vals[..n];
  }

  /** A running scan that keeps the best value seen so far (starting from
      `-inf`) stays on the first largest value: the next value takes over
      exactly when it is strictly larger. */
  lemma BestSoFarStep(vals: seq<Ext>, i: nat, best: Ext)
    requires i < |vals|
    requires i == 0 ==> best == NegInf
    requires i > 0 ==> best == vals[FirstArgmax(vals[..i])]
    ensures Lt(best, vals[i]) ==> FirstArgmax(vals[..i + 1]) == i
    ensures !Lt(best, vals[i]) ==> best == vals[FirstArgmax(vals[..i + 1])]
    ensures !Lt(best, vals[i]) && i > 0 ==> FirstArgmax(vals[..i + 1]) == FirstArgmax(vals[..i])
  {
    assert vals[..i + 1][i] == vals[i];
    if i > 0 {
      FirstArgmaxStep(vals, i);
    }
  }

  /** `FirstArgmax` is the only index holding a largest value with every
      earlier value strictly smaller. */
  lemma FirstArgmaxUnique(vals: seq<Ext>, k: nat)
    requires k < |vals|
    requires forall j :: 0 <= j < |vals| ==> Le(vals[j], vals[k])
    requires forall j :: 0 <= j < k ==> Lt(vals[j], vals[k])
    ensures FirstArgmax(vals) == k
  {
    var k' := FirstArgmax(vals);
    assert Le(vals[k'], vals[k]) && Le(vals[k], vals[k']);
  }

  /** Once the value at the current index is `+inf`, no later value can
      displace it: stopping there gives the same index as scanning everything. */
  lemma FirstArgmaxStopsAtTop(vals: seq<Ext>, n: nat)
    requires 0 < n <= |vals|
    requires vals[FirstArgmax(vals[..n])] == PosInf
    ensures FirstArgmax(vals) == FirstArgmax(vals[..n])
  {
    var k := FirstArgmax(vals[..n]);
    forall j | 0 <= j < k
      ensures Lt(vals[j], vals[k])
    {
      assert vals[..n][j] == vals[j] && vals[..n][k] == vals[k];
    }
    assert vals[k] == PosInf by {
      assert vals[..n][k] == vals[k];
    }
    FirstArgmaxUnique(vals, k);
  }

  /** Python's `max` over a non-empty list: the running maximum is replaced
      only by a strictly larger value, so the result is the value at the first
      largest index. */
  method ListMax(xs: seq<Ext>) returns (m: Ext)
    requires |xs| > 0
    ensures m == xs[FirstArgmax(xs)]
  {
    m := xs[0];
    var k := 1;
    assert xs[..1] == [xs[0]];
    while k < |xs|
      invariant 1 <= k <= |xs|
      invariant m == xs[FirstArgmax(xs[..k])]
    {
      FirstArgmaxStep(xs, k);
      if Lt(m, xs[k]) {
        m := xs[k];
      }
      k := k + 1;
    }
    assert xs[..k] == xs;
  }

  /** Python's `list.index`: the first position holding `m`. */
  method IndexOf(xs: seq<Ext>, m: Ext) returns (k: nat)
    requires m in xs
    ensures k < |xs| && xs[k] == m
    ensures forall j :: 0 <= j < k ==> xs[j] != m
  {
    k := 0;
    while xs[k] != m
      invariant k < |xs| && m in xs[k..]
      invariant forall j :: 0 <= j < k ==> xs[j] != m
      decreases |xs| - k
    {
      assert xs[k..] == [xs[k]] + xs[k + 1..];
      k := k + 1;
    }
  }

  /** `xs.index(max(xs))` is the first largest index. */
  method IndexOfMax(xs: seq<Ext>) returns (k: nat)
    requires |xs| > 0
    ensures k == FirstArgmax(xs)
  {
    var m := ListMax(xs);
    k := IndexOf(xs, m);
  }
}
