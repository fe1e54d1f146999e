/** `length.min()` and `length.argmin()` of one round, and the best-so-far
    series `distance_best` / `path_best` they feed. */
module Best {
  import opened Tours

  /** numpy's `argmin`: the first index holding the smallest value. */
  function FirstMinIndex(s: seq<real>): (k: nat)
    requires |s| > 0
    ensures k < |s|
    ensures forall j :: 0 <= j < |s| ==> s[k] <= s[j]
    ensures forall j :: 0 <= j < k ==> s[j] > s[k]
  {
    if |s| == 1 then 0
    else
      var m := FirstMinIndex(s[..|s| - 1]);
      if s[|s| - 1] < s[m] then |s| - 1 else m
  }

  /** The first rounds of a best-so-far series: `paths[k]` is a tour of the
      `n` cities and `bests[k]` its closed length; the lengths never rise,
      and the best of round k is no longer than any tour of rounds 0 .. k
      (`hist[j]` holds the ant lengths of round j). */
  ghost predicate SeriesValid(d: seq<seq<real>>, n: nat, paths: seq<seq<nat>>, bests: seq<real>, hist: seq<seq<real>>)
    requires PositiveMatrix(d, n) && n >= 1
  {
    |paths| == |bests| == |hist| &&
    (forall k :: 0 <= k < |bests| ==>
      IsPermutation(paths[k], n) && bests[k] == TourLength(d, n, paths[k])) &&
    (forall k :: 0 < k < |bests| ==> bests[k] <= bests[k - 1]) &&
    (forall j, k, a :: 0 <= j <= k < |bests| && 0 <= a < |hist[j]| ==> bests[k] <= hist[j][a])
  }

  /** Appending a round whose recorded best is a tour, no longer than the
      previous best nor than any tour of the round, keeps the series valid. */
  lemma {:induction false} SeriesExtend(d: seq<seq<real>>, n: nat, paths: seq<seq<nat>>, bests: seq<real>, hist: seq<seq<real>>,
                     lens: seq<real>, p: seq<nat>, b: real)
    requires PositiveMatrix(d, n) && n >= 1
    requires SeriesValid(d, n, paths, bests, hist)
    requires IsPermutation(p, n) && b == TourLength(d, n, p)
    requires forall a :: 0 <= a < |lens| ==> b <= lens[a]
    requires |bests| > 0 ==> b <= bests[|bests| - 1]
    ensures SeriesValid(d, n, paths + [p], bests + [b], hist + [lens])
  {
    ToursExtend(d, n, paths, bests, p, b);
    BestsExtend(bests, b);
    BoundsExtend(bests, hist, lens, b);
  }

  /** The recorded tours and their lengths, one round longer. */
  lemma {:induction false} ToursExtend(d: seq<seq<real>>, n: nat, paths: seq<seq<nat>>, bests: seq<real>, p: seq<nat>, b: real)
    requires PositiveMatrix(d, n) && n >= 1 && |paths| == |bests|
    requires forall k :: 0 <= k < |bests| ==> IsPermutation(paths[k], n) && bests[k] == TourLength(d, n, paths[k])
    requires IsPermutation(p, n) && b == TourLength(d, n, p)
    ensures forall k :: 0 <= k < |bests| + 1 ==>
              IsPermutation((paths + [p])[k], n) && (bests + [b])[k] == TourLength(d, n, (paths + [p])[k])
  {
    forall k | 0 <= k < |bests| + 1
      ensures IsPermutation((paths + [p])[k], n) && (bests + [b])[k] == TourLength(d, n, (paths + [p])[k])
    {
      if k < |bests| {
        assert (paths + [p])[k] == paths[k] && (bests + [b])[k] == bests[k];
      }
    }
  }

  /** The best-so-far lengths still never rise, one round longer. */
  lemma {:induction false} BestsExtend(bests: seq<real>, b: real)
    requires forall k :: 0 < k < |bests| ==> bests[k] <= bests[k - 1]
    requires |bests| > 0 ==> b <= bests[|bests| - 1]
    ensures forall k :: 0 < k < |bests| + 1 ==> (bests + [b])[k] <= (bests + [b])[k - 1]
  {
    forall k | 0 < k < |bests| + 1
      ensures (bests + [b])[k] <= (bests + [b])[k - 1]
    {
      assert (bests + [b])[k - 1] == bests[k - 1];
    }
  }

  /** Every best-so-far length still bounds the tours of its round and of
      all earlier ones, one round longer. */
  lemma {:induction false} BoundsExtend(bests: seq<real>, hist: seq<seq<real>>, lens: seq<real>, b: real)
    requires |hist| == |bests|
    requires forall j, k, a :: 0 <= j <= k < |bests| && 0 <= a < |hist[j]| ==> bests[k] <= hist[j][a]
    requires forall k :: 0 < k < |bests| ==> bests[k] <= bests[k - 1]
    requires forall a :: 0 <= a < |lens| ==> b <= lens[a]
    requires |bests| > 0 ==> b <= bests[|bests| - 1]
    ensures forall j, k, a :: 0 <= j <= k < |bests| + 1 && 0 <= a < |(hist + [lens])[j]| ==>
              (bests + [b])[k] <= (hist + [lens])[j][a]
  {
    var bests', hist' := bests + [b], hist + [lens];
    forall j, k, a | 0 <= j <= k < |bests'| && 0 <= a < |hist'[j]|
      ensures bests'[k] <= hist'[j][a]
    {
      if k < |bests| {
        assert bests'[k] == bests[k] && hist'[j] == hist[j];
      } else if j < k {
        assert hist'[j] == hist[j] && bests[|bests| - 1] <= hist[j][a];
      } else {
        assert hist'[j] == lens;
      }
    }
  }

  /** Lines 97-106 for round `k` of a series, with ant lengths `lens` and
      tours `cand` (`n` cities, `ants` ants): with `i` the round's first
      shortest ant, row `k` keeps row `k - 1` when ant `i`'s length is
      strictly longer than it, and takes ant `i`'s tour otherwise, ties and
      round 0 included. */
  ghost predicate BestOfRound(n: nat, ants: nat, cand: seq<nat>, lens: seq<real>,
                              paths: seq<seq<nat>>, bests: seq<real>, k: nat)
    requires |lens| == ants >= 1 && |cand| == Slot(ants, n) && k < |paths| == |bests|
    ensures BestOfRound(n, ants, cand, lens, paths, bests, k) ==>
              (forall a :: 0 <= a < ants ==> bests[k] <= lens[a]) && (k > 0 ==> bests[k] <= bests[k - 1])
  {
    var i := FirstMinIndex(lens);
    RowsApart(i, ants, n);
    if k > 0 && lens[i] > bests[k - 1] then bests[k] == bests[k - 1] && paths[k] == paths[k - 1]
    else bests[k] == lens[i] && paths[k] == Row(cand, n, i)
  }

  /** Round `k`'s record depends on rows `k - 1` and `k` only: later rounds
      leave it in place. */
  lemma {:induction false} BestOfRoundKept(n: nat, ants: nat, cand: seq<nat>, lens: seq<real>,
                        paths: seq<seq<nat>>, bests: seq<real>, paths': seq<seq<nat>>, bests': seq<real>, k: nat)
    requires |lens| == ants >= 1 && |cand| == Slot(ants, n) && k < |paths| == |bests| == |paths'| == |bests'|
    requires BestOfRound(n, ants, cand, lens, paths, bests, k)
    requires forall j :: 0 <= j <= k ==> paths'[j] == paths[j] && bests'[j] == bests[j]
    ensures BestOfRound(n, ants, cand, lens, paths', bests', k)
  {
    if k > 0 {
      assert paths'[k - 1] == paths[k - 1] && bests'[k - 1] == bests[k - 1];
    }
  }

  /** In a valid series a later best is never longer than an earlier one. */
  lemma {:induction false} BestsDescend(d: seq<seq<real>>, n: nat, paths: seq<seq<nat>>, bests: seq<real>, hist: seq<seq<real>>,
                                        j: nat, k: nat)
    requires PositiveMatrix(d, n) && n >= 1
    requires SeriesValid(d, n, paths, bests, hist) && j <= k < |bests|
    ensures bests[k] <= bests[j]
  {
    if j < k {
      BestsDescend(d, n, paths, bests, hist, j, k - 1);
    }
  }
}
