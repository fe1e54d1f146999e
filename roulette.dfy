/** Roulette-wheel (fitness-proportionate) selection over the desirability
    weights of the unvisited cities. */
module Roulette {
  import opened Wrappers

  predicate NonNegative(ws: seq<real>) {
    forall k :: 0 <= k < |ws| ==> ws[k] >= 0.0
  }

  /** Sum of the weights, `sum(probability_trans)`. */
  function Sum(ws: seq<real>): real {
    if |ws| == 0 then 0.0 else Sum(ws[..|ws| - 1]) + ws[|ws| - 1]
  }

  /** Entry `j` of the normalised cumulative sum, minus the draw, is positive:
      `cumsum_prob_trans[j] > 0` after `cumsum_prob_trans -= r`. */
  predicate Exceeds(ws: seq<real>, total: real, r: real, j: nat)
    requires j < |ws| && total != 0.0
  {
    Sum(ws[..j + 1]) / total - r > 0.0
  }

  /** The first index at or after `k` whose cumulative weight exceeds the
      draw, or None when there is none. */
  function FirstExceeding(ws: seq<real>, total: real, r: real, k: nat): (res: Option<nat>)
    requires k <= |ws| && total != 0.0
    ensures res.Some? ==> k <= res.value < |ws| && Exceeds(ws, total, r, res.value)
    ensures res.Some? ==> forall j :: k <= j < res.value ==> !Exceeds(ws, total, r, j)
    ensures res.None? ==> forall j :: k <= j < |ws| ==> !Exceeds(ws, total, r, j)
    decreases |ws| - k
  {
    if k == |ws| then None
    else if Exceeds(ws, total, r, k) then Some(k)
    else FirstExceeding(ws, total, r, k + 1)
  }

  /** `list(cumsum_prob_trans > 0).index(True)`: the position in the
      unvisited list of the chosen city. When the weights sum to zero the
      normalisation yields NaN everywhere, no entry is positive, and `index`
      raises; that is None here. */
  function Select(ws: seq<real>, r: real): (res: Option<nat>)
    ensures res.Some? ==> res.value < |ws| && Sum(ws) != 0.0
    ensures res.Some? ==> Exceeds(ws, Sum(ws), r, res.value)
    ensures res.Some? ==> forall j :: 0 <= j < res.value ==> !Exceeds(ws, Sum(ws), r, j)
  {
    var total := Sum(ws);
    if total == 0.0 then None else FirstExceeding(ws, total, r, 0)
  }

  lemma {:induction false} SumPrefixStep(ws: seq<real>, k: nat)
    requires k < |ws|
    ensures Sum(ws[..k + 1]) == Sum(ws[..k]) + ws[k]
  {
    assert ws[..k + 1][..k] == ws[..k];
  }

  lemma {:induction false} SumNonNegative(ws: seq<real>)
    requires NonNegative(ws)
    ensures Sum(ws) >= 0.0
  {
    if |ws| > 0 {
      SumNonNegative(ws[..|ws| - 1]);
    }
  }

  /** Positive weights on a non-empty list give a positive total. */
  lemma {:induction false} SumPositive(ws: seq<real>)
    requires |ws| > 0 && forall k :: 0 <= k < |ws| ==> ws[k] > 0.0
    ensures Sum(ws) > 0.0
  {
    SumNonNegative(ws[..|ws| - 1]);
  }

  /** With a positive total and a draw in [0, 1) the roulette always lands:
      the last cumulative entry is 1, which exceeds the draw. */
  lemma {:induction false} SelectDefined(ws: seq<real>, r: real)
    requires NonNegative(ws) && Sum(ws) > 0.0 && 0.0 <= r < 1.0
    ensures Select(ws, r).Some?
  {
    var total := Sum(ws);
    var last := |ws| - 1;
    assert ws[..last + 1] == ws;
    assert Sum(ws[..last + 1]) / total == 1.0;
    assert Exceeds(ws, total, r, last);
  }

  /** For non-negative weights and a draw in [0, 1), a city is chosen exactly
      when the weights do not all vanish. */
  lemma {:induction false} SelectSomeIff(ws: seq<real>, r: real)
    requires NonNegative(ws) && 0.0 <= r < 1.0
    ensures Select(ws, r).Some? <==> Sum(ws) > 0.0
  {
    SumNonNegative(ws);
    if Sum(ws) > 0.0 {
      SelectDefined(ws, r);
    }
  }

  /** A non-negative draw never picks a city of zero desirability: the
      cumulative sum must rise past the draw exactly at the chosen index. */
  lemma {:induction false} SelectedHasPositiveWeight(ws: seq<real>, r: real)
    requires NonNegative(ws) && 0.0 <= r && Select(ws, r).Some?
    ensures ws[Select(ws, r).value] > 0.0
  {
    var k := Select(ws, r).value;
    var total := Sum(ws);
    SumNonNegative(ws);
    SumPrefixStep(ws, k);
    if k == 0 {
      assert ws[..0] == [];
      assert Sum(ws[..1]) / total > 0.0;
    } else {
      assert !Exceeds(ws, total, r, k - 1);
      assert Sum(ws[..k]) / total < Sum(ws[..k + 1]) / total;
    }
  }

  /** Non-negative weights sum to zero exactly when each of them is zero. */
  lemma {:induction false} ZeroSumIffAllZero(ws: seq<real>)
    requires NonNegative(ws)
    ensures Sum(ws) == 0.0 <==> forall k :: 0 <= k < |ws| ==> ws[k] == 0.0
  {
    if |ws| > 0 {
      var init := ws[..|ws| - 1];
      ZeroSumIffAllZero(init);
      SumNonNegative(init);
      assert forall k :: 0 <= k < |init| ==> init[k] == ws[k];
    }
  }
}
