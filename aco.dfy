/** The ant colony engine: configuration, problem data, the pheromone
    matrix and the best-so-far series, and the serial round loop. */
module Aco {
  import opened Wrappers
  import opened Tours
  import opened Roulette
  import opened Starts
  import opened Pheromone
  import opened Best
  import opened Walks

  /** The random draws of one round: `draws[a][j - 1]` is the value of
      `np.random.rand()` at step `j` of ant `a`'s tour. */
  predicate ValidDraws(draws: seq<seq<real>>, antCount: nat, n: nat) {
    |draws| >= antCount &&
    forall a :: 0 <= a < |draws| ==>
      |draws[a]| >= n - 1 && forall j :: 0 <= j < |draws[a]| ==> 0.0 <= draws[a][j] < 1.0
  }

  /** The problem data of a run: the city count, the distance table and
      its elementwise reciprocal. */
  datatype Problem = Problem(n: nat, distance: seq<seq<real>>, reciprocal: seq<seq<real>>)

  /** One recorded round of a run: the pheromone matrix it started from and
      the tours it built. */
  datatype RoundRun = RoundRun(pheromone: seq<seq<real>>, tours: RoundTours)

  class Colony {
    // Configuration, as given to the constructor.
    const antCount: nat
    const alpha: real
    const beta: real
    const rho: real
    const q: real
    const maxIter: nat
    /** `np.power(p, alpha) * np.power(r, beta)` for a pheromone value `p`
        and a reciprocal distance `r`; real powers are not modelled, only
        that the result is never negative. */
    const desirability: (real, real, real, real) -> real

    // Problem data and state, set by InputData.
    var cityPos: seq<(real, real)>
    var cityCount: nat
    var distance: seq<seq<real>>
    var reciprocal: seq<seq<real>>
    var pheromone: seq<seq<real>>
    var pathBest: array<seq<nat>>
    var distanceBest: array<real>
    /** How many rows of the best-so-far series the current run has written. */
    ghost var rounds: nat
    /** The ant lengths of every round so far, one row per round. */
    ghost var history: seq<seq<real>>

    /** Rows 0 .. rounds-1 of `pathBest` and `distanceBest` form a valid
        best-so-far series over the rounds recorded in `history`. */
    ghost predicate BestSeriesValid()
      reads this`distance, this`cityCount, this`rounds, this`history, this`pathBest, this`distanceBest, pathBest, distanceBest
      requires PositiveMatrix(distance, cityCount) && cityCount >= 1
      requires rounds <= pathBest.Length == distanceBest.Length
    {
      SeriesValid(distance, cityCount, pathBest[..rounds], distanceBest[..rounds], history)
    }

    /** The problem data a round reads: at least two cities, positive
        distances and reciprocals, a square pheromone matrix. */
    ghost predicate Ready()
      reads this`cityPos, this`cityCount, this`distance, this`reciprocal, this`pheromone
    {
      cityCount >= 2 && |cityPos| == cityCount &&
      PositiveMatrix(distance, cityCount) &&
      PositiveMatrix(reciprocal, cityCount) &&
      |pheromone| == cityCount &&
      (forall u :: 0 <= u < cityCount ==> |pheromone[u]| == cityCount) &&
      DesirabilityNonNegative()
    }

    ghost predicate Valid()
      reads this`cityPos, this`cityCount, this`distance, this`reciprocal, this`pheromone
      reads this`pathBest, this`distanceBest, this`rounds, this`history, pathBest, distanceBest
    {
      Ready() &&
      pathBest.Length == maxIter && distanceBest.Length == maxIter &&
      rounds <= maxIter &&
      BestSeriesValid()
    }

    /** The desirability is a non-negative weight. */
    ghost predicate DesirabilityNonNegative() {
      forall p, a, r, b :: desirability(p, a, r, b) >= 0.0
    }

    /** The desirability never vanishes on positive arguments. */
    ghost predicate DesirabilityPositive() {
      forall p, a, r, b :: p > 0.0 && r > 0.0 ==> desirability(p, a, r, b) > 0.0
    }

    /** `ACO.__init__`: record the configuration. */
    constructor (antCount: nat, alpha: real, beta: real, rho: real, q: real, maxIter: nat,
                 desirability: (real, real, real, real) -> real)
      requires forall p, a, r, b :: desirability(p, a, r, b) >= 0.0
      ensures this.antCount == antCount && this.alpha == alpha && this.beta == beta
      ensures this.rho == rho && this.q == q && this.maxIter == maxIter
      ensures this.desirability == desirability && DesirabilityNonNegative()
    {
      this.antCount := antCount;
      this.alpha := alpha;
      this.beta := beta;
      this.rho := rho;
      this.q := q;
      this.maxIter := maxIter;
      this.desirability := desirability;
      pathBest := new seq<nat>[0];
      distanceBest := new real[0];
    }

    /** `input_data`: store the cities and distances, start from an all-ones
        pheromone matrix, zeroed best-so-far arrays of `maxIter` rows, and
        the elementwise reciprocal of the distances. */
    method InputData(cityPos: seq<(real, real)>, distanceTable: seq<seq<real>>)
      requires |cityPos| >= 2 && PositiveMatrix(distanceTable, |cityPos|)
      requires DesirabilityNonNegative()
      modifies this
      ensures Valid() && rounds == 0
      ensures fresh(pathBest) && fresh(distanceBest)
      ensures this.cityPos == cityPos && cityCount == |cityPos| && distance == distanceTable
      ensures pheromone == Uniform(cityCount, 1.0) && reciprocal == Reciprocal(distanceTable, cityCount)
      ensures forall k :: 0 <= k < maxIter ==> pathBest[k] == seq(cityCount, _ => 0) && distanceBest[k] == 0.0
    {
      var n := |cityPos|;
      var ones, inverse := Uniform(n, 1.0), Reciprocal(distanceTable, n);
      this.cityPos, distance, cityCount, pheromone, reciprocal := cityPos, distanceTable, n, ones, inverse;
      pathBest, distanceBest := ZeroRows(maxIter, n);
      rounds, history := 0, [];
      assert SeriesValid(distance, n, [], [], []);
      assert pathBest[..0] == [] && distanceBest[..0] == [];
    }

    /** `np.zeros((max_iter, city_count))` and `np.zeros(max_iter)`. */
    static method ZeroRows(count: nat, n: nat) returns (paths: array<seq<nat>>, lens: array<real>)
      ensures fresh(paths) && fresh(lens) && paths.Length == count && lens.Length == count
      ensures forall k :: 0 <= k < count ==> paths[k] == seq(n, _ => 0) && lens[k] == 0.0
    {
      paths := new seq<nat>[count](_ => seq(n, _ => 0));
      lens := new real[count](_ => 0.0);
    }

    /** What a walk reads from the colony, as a value. */
    ghost function Environment(): (e: Env)
      reads this`cityPos, this`cityCount, this`distance, this`reciprocal, this`pheromone
      requires Ready()
      ensures Ok(e) && e == EnvAt(Data(), pheromone)
    {
      Env(cityCount, distance, reciprocal, pheromone, alpha, beta, desirability)
    }

    /** The problem data `input_data` stored, as a value. */
    ghost function Data(): Problem
      reads this`cityCount, this`distance, this`reciprocal
    {
      Problem(cityCount, distance, reciprocal)
    }

    /** What a walk reads from the colony when the problem data is `d` and
        the pheromone matrix is `p`. */
    ghost function EnvAt(d: Problem, p: seq<seq<real>>): Env {
      Env(d.n, d.distance, d.reciprocal, p, alpha, beta, desirability)
    }

    /** Lines 81-84: the desirability of moving from `visit` to each city of
        `unvisit`, in the order of `unvisit`. */
    method Desirabilities(visit: nat, unvisit: seq<nat>) returns (ws: seq<real>)
      requires Ready() && visit < cityCount && InRange(unvisit, cityCount)
      ensures ws == Weights(Environment(), visit, unvisit)
      ensures |ws| == |unvisit|
      ensures forall k :: 0 <= k < |ws| ==>
                ws[k] == desirability(pheromone[visit][unvisit[k]], alpha, reciprocal[visit][unvisit[k]], beta)
    {
      var probabilityTrans := new real[|unvisit|];
      for k := 0 to |unvisit|
        invariant forall k' :: 0 <= k' < k ==>
          probabilityTrans[k'] == desirability(pheromone[visit][unvisit[k']], alpha, reciprocal[visit][unvisit[k']], beta)
      {
        probabilityTrans[k] := desirability(pheromone[visit][unvisit[k]], alpha, reciprocal[visit][unvisit[k]], beta);
      }
      ws := probabilityTrans[..];
    }
  
    /** Lines 81-88: one roulette-wheel step from `visit`. The chosen city
        is the roulette's `Choice`: the city of `unvisit` at the first index
        whose normalised cumulative desirability exceeds the draw `r`. It is
        unvisited and of positive desirability; there is no choice (the
        source raises) exactly when all desirabilities are zero, which cannot
        happen while pheromone and desirability stay positive. */
    method ChooseNext(visit: nat, unvisit: seq<nat>, r: real) returns (next: Option<nat>)
      requires Ready() && visit < cityCount && InRange(unvisit, cityCount) && 0.0 <= r < 1.0
      ensures next == Choice(Environment(), visit, unvisit, r)
      ensures next.Some? ==> next.value in unvisit
      ensures next.Some? ==> desirability(pheromone[visit][next.value], alpha, reciprocal[visit][next.value], beta) > 0.0
      ensures next.None? <==> forall k :: 0 <= k < |unvisit| ==>
                desirability(pheromone[visit][unvisit[k]], alpha, reciprocal[visit][unvisit[k]], beta) == 0.0
      ensures DesirabilityPositive() && PositiveMatrix(pheromone, cityCount) && |unvisit| > 0 ==> next.Some?
    {
      var ws := Desirabilities(visit, unvisit);
      var pick := Select(ws, r);
      forall k | 0 <= k < |ws| ensures ws[k] >= 0.0 {
        var p, b := pheromone[visit][unvisit[k]], reciprocal[visit][unvisit[k]];
        assert DesirabilityNonNegative();
        assert desirability(p, alpha, b, beta) >= 0.0;
      }
      SelectSomeIff(ws, r);
      SumNonNegative(ws);
      ZeroSumIffAllZero(ws);
      if DesirabilityPositive() && PositiveMatrix(pheromone, cityCount) && |unvisit| > 0 {
        forall k | 0 <= k < |ws| ensures ws[k] > 0.0 {
          assert pheromone[visit][unvisit[k]] > 0.0 && reciprocal[visit][unvisit[k]] > 0.0;
        }
        SumPositive(ws);
      }
      if pick.None? {
        next := None;
      } else {
        SelectedHasPositiveWeight(ws, r);
        next := Some(unvisit[pick.value]);
      }
    }

    /** `select_path(i)`: ant `i` walks from its start city
        `candidate[i*n]`, choosing each next city by roulette over the
        cities it has not visited, writing its tour into its own row of the
        flat buffer and adding the closed tour's length to `length[i]`.
        `draws[j - 1]` is the draw of step `j`. On a step where every
        desirability is zero the source raises; here the result is false. */
    method SelectPath(i: nat, candidate: array<nat>, length: array<real>, draws: seq<real>) returns (ok: bool)
      requires Ready() && i < antCount
      requires candidate.Length == Slot(antCount, cityCount) && length.Length == antCount
      requires Slot(i, cityCount) < candidate.Length && candidate[Slot(i, cityCount)] < cityCount
      requires |draws| >= cityCount - 1 && forall j :: 0 <= j < |draws| ==> 0.0 <= draws[j] < 1.0
      modifies candidate, length
      ensures Slot(i, cityCount) + cityCount <= candidate.Length
      ensures forall x :: 0 <= x < candidate.Length && !(Slot(i, cityCount) < x < Slot(i, cityCount) + cityCount) ==>
                candidate[x] == old(candidate[x])
      ensures forall a :: 0 <= a < length.Length && a != i ==> length[a] == old(length[a])
      ensures ok <==> Tour(Environment(), old(candidate[Slot(i, cityCount)]), draws).Some?
      ensures ok ==> Row(candidate[..], cityCount, i) == Tour(Environment(), old(candidate[Slot(i, cityCount)]), draws).value
      ensures ok ==> IsPermutation(Row(candidate[..], cityCount, i), cityCount)
      ensures ok ==> length[i] == old(length[i]) + TourLength(distance, cityCount, Row(candidate[..], cityCount, i))
      ensures DesirabilityPositive() && PositiveMatrix(pheromone, cityCount) ==> ok
    {
      RowsApart(i, antCount, cityCount);
      var base := Slot(i, cityCount);
      var len;
      ok, len := WalkRow(base, candidate, draws);
      assert candidate[base .. base + cityCount] == Row(candidate[..], cityCount, i);
      if ok {
        length[i] := length[i] + len;
      }
    }

    /** The body of `select_path` for the row starting at `base`: the walk
        and the closed length `len` of the tour it writes. */
    method WalkRow(base: nat, candidate: array<nat>, draws: seq<real>) returns (ok: bool, len: real)
      requires Ready()
      requires base + cityCount <= candidate.Length && candidate[base] < cityCount
      requires |draws| >= cityCount - 1 && forall j :: 0 <= j < |draws| ==> 0.0 <= draws[j] < 1.0
      modifies candidate
      ensures forall x :: 0 <= x < candidate.Length && !(base < x < base + cityCount) ==>
                candidate[x] == old(candidate[x])
      ensures ok <==> Tour(Environment(), old(candidate[base]), draws).Some?
      ensures ok ==> candidate[base..base + cityCount] == Tour(Environment(), old(candidate[base]), draws).value
      ensures ok ==> IsPermutation(candidate[base..base + cityCount], cityCount)
      ensures ok ==> len == TourLength(distance, cityCount, candidate[base..base + cityCount])
      ensures DesirabilityPositive() && PositiveMatrix(pheromone, cityCount) ==> ok
    {
      ghost var e := Environment();
      var start := candidate[base];
      var visit;
      ghost var tour;
      ok, visit, len, tour := WalkSteps(base, start, draws, candidate);
      if ok {
        ProgressEnds(e, start, draws, tour, visit, len);
        RowPrefixSlice(candidate[..], base, tour);
        len := len + distance[visit][start];
      }
    }

    /** The loop of lines 79-92 for the row starting at `base`: on success
        the row holds the whole walk `tour`, ending at `visit`, with open
        length `len`; on failure the walk has no tour. */
    method WalkSteps(base: nat, start: nat, draws: seq<real>, candidate: array<nat>)
      returns (ok: bool, visit: nat, len: real, ghost tour: seq<nat>)
      requires Ready() && base + cityCount <= candidate.Length && start < cityCount && candidate[base] == start
      requires |draws| >= cityCount - 1 && forall j :: 0 <= j < |draws| ==> 0.0 <= draws[j] < 1.0
      modifies candidate
      ensures ok ==> |tour| == cityCount &&
                     RowSoFar(Environment(), candidate[..], old(candidate[..]), base, start, draws, tour, visit, [], len)
      ensures !ok ==> Tour(Environment(), start, draws) == None &&
                      SameOutside(candidate[..], old(candidate[..]), base, cityCount)
      ensures DesirabilityPositive() && PositiveMatrix(pheromone, cityCount) ==> ok
    {
      ghost var e := Environment();
      var n := cityCount;
      visit := start;
      ProgressBegins(e, start, draws);
      RestOfRange(n, visit);
      var unvisit := Remove(Range(n), visit);
      tour := [start];
      len := 0.0;
      var j := 1;
      while j < n
        invariant 1 <= j <= n && |tour| == j
        invariant RowSoFar(e, candidate[..], old(candidate[..]), base, start, draws, tour, visit, unvisit, len)
      {
        var next := Advance(base, j, visit, unvisit, draws[j - 1], candidate, start, draws, tour, len, old(candidate[..]));
        if next.None? {
          SameOutsideWiden(candidate[..], old(candidate[..]), base, j, n);
          return false, visit, len, tour;
        }
        var k := next.value;
        unvisit := Remove(unvisit, k);
        tour := tour + [k];
        len := len + distance[visit][k];
        visit := k;
        j := j + 1;
      }
      assert |unvisit| == 0;
      ok := true;
    }

    /** One step of the walk (lines 81-90): the roulette's choice from
        `unvisit`, written as the `j`-th city of the row starting at `base`.
        The walk so far, `tour`, is extended by the choice, or has no tour
        when there is none. */
    method Advance(base: nat, j: nat, visit: nat, unvisit: seq<nat>, r: real, candidate: array<nat>,
                   ghost start: nat, ghost draws: seq<real>, ghost tour: seq<nat>, ghost len: real, ghost orig: seq<nat>)
      returns (next: Option<nat>)
      requires Ready() && base + j < candidate.Length && visit < cityCount && InRange(unvisit, cityCount)
      requires 1 <= j == |tour| <= |draws| && r == draws[j - 1] && 0.0 <= r < 1.0 && |unvisit| > 0
      requires RowSoFar(Environment(), candidate[..], orig, base, start, draws, tour, visit, unvisit, len)
      modifies candidate
      ensures next == Choice(Environment(), visit, unvisit, r)
      ensures next.None? ==> Tour(Environment(), start, draws) == None && candidate[..] == old(candidate[..])
      ensures next.Some? ==> next.value in unvisit && next.value < cityCount
      ensures next.Some? ==> RowSoFar(Environment(), candidate[..], orig, base, start, draws, tour + [next.value],
                                      next.value, Remove(unvisit, next.value), len + distance[visit][next.value])
      ensures DesirabilityPositive() && PositiveMatrix(pheromone, cityCount) ==> next.Some?
    {
      ghost var before := candidate[..];
      next := ChooseNext(visit, unvisit, r);
      RowStep(Environment(), before, orig, base, start, draws, tour, visit, unvisit, len, next);
      if next.Some? {
        candidate[base + j] := next.value;
        assert candidate[..] == before[base + j := next.value];
      }
    }

    /** The start city recorded for ant `a`: `candidate[a, 0]`. */
    ghost function StartOf(cand: seq<nat>, n: nat, a: nat): nat
      requires n >= 1 && a < antCount && |cand| == Slot(antCount, n)
    {
      RowsApart(a, antCount, n);
      cand[Slot(a, n)]
    }

    /** Lines 62, 67 and 70: `candidate[b*n : b*n+count, 0] = perm[:count]`,
        the start cities of the `count` first ants of block `b`. The other
        ants keep their start cities. */
    method SetStarts(candidate: array<nat>, perms: seq<seq<nat>>, b: nat, count: nat)
      requires Ready() && candidate.Length == Slot(antCount, cityCount)
      requires ValidPerms(perms, antCount, cityCount)
      requires count <= cityCount && Slot(b, cityCount) + count <= antCount
      modifies candidate
      ensures forall a :: Slot(b, cityCount) <= a < Slot(b, cityCount) + count ==>
                StartOf(candidate[..], cityCount, a) == StartCity(perms, antCount, cityCount, a)
      ensures forall a :: 0 <= a < antCount && !(Slot(b, cityCount) <= a < Slot(b, cityCount) + count) ==>
                StartOf(candidate[..], cityCount, a) == StartOf(old(candidate[..]), cityCount, a)
      ensures TailsKept(old(candidate[..]), candidate[..], cityCount, antCount)
    {
      var n := cityCount;
      var lo := Slot(b, n);
      for t := 0 to count
        invariant forall a :: lo <= a < lo + t ==>
                    StartOf(candidate[..], cityCount, a) == StartCity(perms, antCount, n, a)
        invariant forall a :: 0 <= a < antCount && !(lo <= a < lo + t) ==>
                    StartOf(candidate[..], cityCount, a) == StartOf(old(candidate[..]), cityCount, a)
        invariant TailsKept(old(candidate[..]), candidate[..], n, antCount)
      {
        var a := lo + t;
        BlockOffset(b, t, n);
        BlockBound(antCount, n, a);
        RowsApart(a, antCount, n);
        ghost var before := candidate[..];
        candidate[Slot(a, n)] := perms[b][t];
        StartWriteKeepsTails(before, n, antCount, a, perms[b][t]);
        forall a' | 0 <= a' < antCount && a' != a
          ensures StartOf(candidate[..], cityCount, a') == StartOf(before, cityCount, a')
        {
          if a' < a { RowsApart(a', a, n); } else { RowsApart(a, a', n); }
          RowsApart(a', antCount, n);
          assert Slot(a', n) != Slot(a, n);
          assert candidate[..][Slot(a', n)] == before[Slot(a', n)];
        }
        assert StartOf(candidate[..], cityCount, a) == StartCity(perms, antCount, n, a);
      }
    }

    /** Lines 61-70: with no more ants than cities, the first `antCount`
        entries of one permutation; otherwise one full permutation per block
        of `cityCount` ants and a prefix of one more for the remaining `m`. */
    method AssignStarts(candidate: array<nat>, perms: seq<seq<nat>>)
      requires Ready() && candidate.Length == Slot(antCount, cityCount)
      requires ValidPerms(perms, antCount, cityCount)
      modifies candidate
      ensures forall a :: 0 <= a < antCount ==>
                StartOf(candidate[..], cityCount, a) == StartCity(perms, antCount, cityCount, a)
      ensures TailsKept(old(candidate[..]), candidate[..], cityCount, antCount)
    {
      var n := cityCount;
      if antCount <= n {
        assert Slot(0, n) == 0;
        SetStarts(candidate, perms, 0, antCount);
      } else {
        var m := antCount;
        var blk := 1;
        while m > n
          invariant 1 <= blk && 0 < m && Slot(blk - 1, n) + m == antCount
          invariant forall a :: 0 <= a < Slot(blk - 1, n) ==>
                      StartOf(candidate[..], cityCount, a) == StartCity(perms, antCount, n, a)
          invariant TailsKept(old(candidate[..]), candidate[..], n, antCount)
          decreases m
        {
          SetStarts(candidate, perms, blk - 1, n);
          m := m - n;
          blk := blk + 1;
        }
        SetStarts(candidate, perms, blk - 1, m);
      }
    }

    /** The tours of ants 0 .. k-1 are complete: each such ant's row of the
        candidate buffer is a tour of all the cities and its length entry is
        that tour's closed length. */
    ghost predicate ToursUpTo(d: seq<seq<real>>, n: nat, cand: seq<nat>, lens: seq<real>, k: nat)
      requires PositiveMatrix(d, n) && n >= 1
    {
      |cand| == Slot(antCount, n) && |lens| == antCount && k <= antCount &&
      forall a :: 0 <= a < k ==>
        (RowsApart(a, antCount, n);
         IsPermutation(Row(cand, n, a), n) &&
         lens[a] == TourLength(d, n, Row(cand, n, a)))
    }

    /** Completing ant `i`'s tour, without touching the rows and lengths of
        the ants before it, extends the complete prefix by one ant. */
    lemma {:induction false} ToursUpToStep(cand: seq<nat>, lens: seq<real>, cand': seq<nat>, lens': seq<real>, i: nat)
      requires PositiveMatrix(distance, cityCount) && cityCount >= 1 && i < antCount
      requires ToursUpTo(distance, cityCount, cand, lens, i) && |cand'| == |cand| && |lens'| == |lens|
      requires forall x :: 0 <= x < |cand| && !(Slot(i, cityCount) < x < Slot(i, cityCount) + cityCount) ==>
                 cand'[x] == cand[x]
      requires forall a :: 0 <= a < |lens| && a != i ==> lens'[a] == lens[a]
      requires (RowsApart(i, antCount, cityCount);
                IsPermutation(Row(cand', cityCount, i), cityCount) &&
                lens'[i] == TourLength(distance, cityCount, Row(cand', cityCount, i)))
      ensures ToursUpTo(distance, cityCount, cand', lens', i + 1)
    {
      RowsOutsideUnchanged(cand, cand', cityCount, antCount, i);
    }

    /** Ants 0 .. k-1 have walked under `e`: each one's row of `cand` is
        its roulette tour from its own start city with its own draws. */
    ghost predicate WalkedUpTo(e: Env, cand: seq<nat>, draws: seq<seq<real>>, k: nat)
      requires Ok(e) && |cand| == Slot(antCount, e.n)
      requires ValidDraws(draws, antCount, e.n) && k <= antCount
    {
      forall a :: 0 <= a < k ==>
        StartOf(cand, e.n, a) < e.n &&
        (RowsApart(a, antCount, e.n); Tour(e, StartOf(cand, e.n, a), draws[a]) == Some(Row(cand, e.n, a)))
    }

    /** Ant `i` walking its tour, without touching the rows of the ants
        before it, extends the walked prefix by one ant. */
    lemma {:induction false} WalkedUpToStep(e: Env, cand: seq<nat>, cand': seq<nat>, draws: seq<seq<real>>, i: nat)
      requires Ok(e) && e.n == cityCount && |cand| == |cand'| == Slot(antCount, cityCount)
      requires ValidDraws(draws, antCount, cityCount) && i < antCount
      requires WalkedUpTo(e, cand, draws, i)
      requires forall x :: 0 <= x < |cand| && !(Slot(i, cityCount) < x < Slot(i, cityCount) + cityCount) ==>
                 cand'[x] == cand[x]
      requires StartOf(cand', cityCount, i) < cityCount
      requires (RowsApart(i, antCount, cityCount);
                Tour(e, StartOf(cand', cityCount, i), draws[i]) == Some(Row(cand', cityCount, i)))
      ensures WalkedUpTo(e, cand', draws, i + 1)
    {
      RowsOutsideUnchanged(cand, cand', cityCount, antCount, i);
      forall a | 0 <= a < i
        ensures StartOf(cand', e.n, a) == StartOf(cand, e.n, a)
        ensures (RowsApart(a, antCount, e.n); Row(cand', e.n, a) == Row(cand, e.n, a))
      {
        RowsApart(a, antCount, e.n);
      }
    }

    /** One round's tours are complete, for every ant. */
    ghost predicate Toured(d: seq<seq<real>>, n: nat, cand: seq<nat>, lens: seq<real>)
      requires PositiveMatrix(d, n) && n >= 1
    {
      ToursUpTo(d, n, cand, lens, antCount)
    }

    /** Ant `a` of a complete prefix has a complete tour and its length. */
    lemma {:induction false} ToursUpToAt(cand: seq<nat>, lens: seq<real>, k: nat, a: nat)
      requires PositiveMatrix(distance, cityCount) && cityCount >= 1
      requires ToursUpTo(distance, cityCount, cand, lens, k) && a < k
      ensures a < antCount && |lens| == antCount && |cand| == Slot(antCount, cityCount)
      ensures (RowsApart(a, antCount, cityCount);
               IsPermutation(Row(cand, cityCount, a), cityCount) &&
               lens[a] == TourLength(distance, cityCount, Row(cand, cityCount, a)))
    {
    }

    /** `run` walked from the pheromone it started from: its start cities
        are those `perms` assigns and every ant's row is its roulette tour
        under `draws`. */
    ghost predicate RoundWalked(d: Problem, run: RoundRun, perms: seq<seq<nat>>, draws: seq<seq<real>>) {
      d.n >= 1 && ValidPerms(perms, antCount, d.n) && ValidDraws(draws, antCount, d.n) &&
      Ok(EnvAt(d, run.pheromone)) && |run.tours.cand| == Slot(antCount, d.n) &&
      (forall a :: 0 <= a < antCount ==> StartOf(run.tours.cand, d.n, a) == StartCity(perms, antCount, d.n, a)) &&
      WalkedUpTo(EnvAt(d, run.pheromone), run.tours.cand, draws, antCount)
    }

    /** `run` is a complete round of the run: its tours are complete, its
        ant lengths are `lens`, and it walked from the pheromone it started
        from with the random input `perms`, `draws`. */
    ghost predicate RoundDone(d: Problem, run: RoundRun, perms: seq<seq<nat>>, draws: seq<seq<real>>, lens: seq<real>)
      requires PositiveMatrix(d.distance, d.n) && d.n >= 1
    {
      run.tours.n == d.n && run.tours.ants == antCount >= 1 && run.tours.lens == lens &&
      Toured(d.distance, d.n, run.tours.cand, run.tours.lens) && RoundWalked(d, run, perms, draws)
    }

    /** The rounds of a run so far: round `k` is `runs[k]`, done with the
        random input `perms[k]`, `draws[k]` and ant lengths `hist[k]`, and
        row `k` of the series `paths`, `bests` records its best as lines
        97-106 do. */
    ghost predicate Recorded(d: Problem, runs: seq<RoundRun>, perms: seq<seq<seq<nat>>>, draws: seq<seq<seq<real>>>,
                             paths: seq<seq<nat>>, bests: seq<real>, hist: seq<seq<real>>)
      requires PositiveMatrix(d.distance, d.n) && d.n >= 1
    {
      |runs| == |hist| <= |paths| == |bests| && |runs| <= |perms| && |runs| <= |draws| &&
      forall k {:trigger RoundDone(d, runs[k], perms[k], draws[k], hist[k])} :: 0 <= k < |runs| ==>
        RoundDone(d, runs[k], perms[k], draws[k], hist[k]) &&
        BestOfRound(d.n, antCount, runs[k].tours.cand, runs[k].tours.lens, paths, bests, k)
    }

    /** A round that records its best in row `|runs|` and leaves the rows
        before it in place extends the recorded run by one round. */
    lemma {:induction false} RecordedStep(d: Problem, runs: seq<RoundRun>, perms: seq<seq<seq<nat>>>, draws: seq<seq<seq<real>>>,
                       paths: seq<seq<nat>>, bests: seq<real>, hist: seq<seq<real>>,
                       t: RoundRun, paths': seq<seq<nat>>, bests': seq<real>)
      requires PositiveMatrix(d.distance, d.n) && d.n >= 1
      requires Recorded(d, runs, perms, draws, paths, bests, hist) && |runs| < |paths'| == |paths| == |bests'|
      requires |runs| < |perms| && |runs| < |draws|
      requires forall j :: 0 <= j < |runs| ==> paths'[j] == paths[j] && bests'[j] == bests[j]
      requires RoundDone(d, t, perms[|runs|], draws[|runs|], t.tours.lens)
      requires BestOfRound(d.n, antCount, t.tours.cand, t.tours.lens, paths', bests', |runs|)
      ensures Recorded(d, runs + [t], perms, draws, paths', bests', hist + [t.tours.lens])
    {
      var runs', hist' := runs + [t], hist + [t.tours.lens];
      forall k | 0 <= k < |runs'|
        ensures RoundDone(d, runs'[k], perms[k], draws[k], hist'[k])
        ensures BestOfRound(d.n, antCount, runs'[k].tours.cand, runs'[k].tours.lens, paths', bests', k)
      {
        if k < |runs| {
          assert runs'[k] == runs[k] && hist'[k] == hist[k];
          assert RoundDone(d, runs[k], perms[k], draws[k], hist[k]);
          assert BestOfRound(d.n, antCount, runs[k].tours.cand, runs[k].tours.lens, paths, bests, k);
          BestOfRoundKept(d.n, antCount, runs[k].tours.cand, runs[k].tours.lens, paths, bests, paths', bests', k);
          assert RoundDone(d, runs'[k], perms[k], draws[k], hist'[k]);
        } else {
          assert k == |runs| && runs'[k] == t && hist'[k] == t.tours.lens;
          assert perms[k] == perms[|runs|] && draws[k] == draws[|runs|];
        }
      }
    }

    /** After a round that rewrote at most row `|runs|` of the series: if it
        recorded its best there (`grew`), the recorded run extends by it;
        otherwise nothing changed and the run stays as it was. */
    lemma {:induction false} RecordedAfter(d: Problem, runs: seq<RoundRun>, perms: seq<seq<seq<nat>>>, draws: seq<seq<seq<real>>>,
                        paths: seq<seq<nat>>, bests: seq<real>, hist: seq<seq<real>>,
                        t: RoundRun, grew: bool, paths': seq<seq<nat>>, bests': seq<real>, hist': seq<seq<real>>)
      returns (runs': seq<RoundRun>)
      requires PositiveMatrix(d.distance, d.n) && d.n >= 1
      requires Recorded(d, runs, perms, draws, paths, bests, hist) && |runs| < |paths| == |bests| && |paths'| == |paths| == |bests'|
      requires |runs| < |perms| && |runs| < |draws|
      requires paths' == paths[|runs| := paths'[|runs|]] && bests' == bests[|runs| := bests'[|runs|]]
      requires !grew ==> hist' == hist && paths' == paths && bests' == bests
      requires grew ==> RoundDone(d, t, perms[|runs|], draws[|runs|], t.tours.lens) && hist' == hist + [t.tours.lens]
      requires grew ==> BestOfRound(d.n, antCount, t.tours.cand, t.tours.lens, paths', bests', |runs|)
      ensures runs' == if grew then runs + [t] else runs
      ensures |runs'| == |hist'| && Recorded(d, runs', perms, draws, paths', bests', hist')
    {
      runs' := runs;
      if grew {
        RecordedStep(d, runs, perms, draws, paths, bests, hist, t, paths', bests');
        runs' := runs + [t];
      }
    }

    /** The pheromone matrix after round `run` under `rule`:
        `(1 - rho) P + incre` (line 136), or `P` as it was when the rule is
        unknown and the round raises before the update. */
    ghost function Updated(d: Problem, rule: Option<Rule>, run: RoundRun): seq<seq<real>>
      requires PositiveMatrix(d.distance, d.n) && run.tours.n == d.n && run.tours.Valid()
      requires Square(run.pheromone, d.n)
    {
      if rule.None? then run.pheromone
      else Evaporate(run.pheromone, Increment(rule.value, q, d.distance, run.tours), rho, d.n)
    }

    /** The pheromone thread of a run: the first recorded round started
        from `p0`, every later one from the update of the round before it,
        and `p` is the update of the last one (`p0` itself before any). */
    ghost predicate Chained(d: Problem, p0: seq<seq<real>>, rule: Option<Rule>, runs: seq<RoundRun>, p: seq<seq<real>>)
      requires PositiveMatrix(d.distance, d.n)
    {
      (forall k :: 0 <= k < |runs| ==>
        runs[k].tours.n == d.n && runs[k].tours.Valid() && Square(runs[k].pheromone, d.n)) &&
      if |runs| == 0 then p == p0
      else
        runs[0].pheromone == p0 &&
        (forall k {:trigger Updated(d, rule, runs[k])} :: 0 <= k < |runs| - 1 ==>
          runs[k + 1].pheromone == Updated(d, rule, runs[k])) &&
        p == Updated(d, rule, runs[|runs| - 1])
    }

    /** A recorded round that starts from the current pheromone `p` and
        leaves its update `p'` extends the thread; a round that records
        nothing and leaves the pheromone in place keeps it. */
    lemma {:induction false} ChainedAfter(d: Problem, p0: seq<seq<real>>, rule: Option<Rule>, runs: seq<RoundRun>, p: seq<seq<real>>,
                       t: RoundRun, grew: bool, p': seq<seq<real>>)
      requires PositiveMatrix(d.distance, d.n) && Chained(d, p0, rule, runs, p)
      requires !grew || rule.None? ==> p' == p
      requires grew ==> t.pheromone == p && t.tours.n == d.n && t.tours.Valid() && Square(p, d.n)
      requires grew && rule.Some? ==> p' == Evaporate(p, Increment(rule.value, q, d.distance, t.tours), rho, d.n)
      ensures Chained(d, p0, rule, if grew then runs + [t] else runs, p')
    {
      if grew {
        assert p' == Updated(d, rule, t);
        var runs' := runs + [t];
        assert forall k :: 0 <= k < |runs| ==> runs'[k] == runs[k];
        if |runs| > 0 {
          assert runs'[0] == runs[0];
          assert forall k :: 0 <= k < |runs'| - 1 ==> runs'[k + 1].pheromone == Updated(d, rule, runs'[k]);
        }
      }
    }

    /** Ant `a` of a round with random input `perms`, `draws` finds no
        tour under `e`: its roulette walk runs out of selectable cities. */
    ghost predicate Stuck(e: Env, perms: seq<seq<nat>>, draws: seq<seq<real>>, a: nat) {
      Ok(e) && a < antCount && ValidPerms(perms, antCount, e.n) && ValidDraws(draws, antCount, e.n) &&
      Tour(e, StartCity(perms, antCount, e.n, a), draws[a]).None?
    }

    /** What a round leaves behind, as values, extends the recorded run and
        its pheromone thread: `p`, `paths`, `bests`, `hist` are the state
        before the round, `e` the walk environment it started from, `tours`
        its tours, `grew` whether it recorded a row, and `p'`, `paths'`,
        `bests'`, `hist'` the state after it. */
    lemma {:induction false} RoundBookkept(d: Problem, k: nat, rule: Option<Rule>, perms: seq<seq<seq<nat>>>, draws: seq<seq<seq<real>>>,
                        p0: seq<seq<real>>, runs: seq<RoundRun>, e: Env, p: seq<seq<real>>,
                        paths: seq<seq<nat>>, bests: seq<real>, hist: seq<seq<real>>,
                        tours: RoundTours, grew: bool, p': seq<seq<real>>,
                        paths': seq<seq<nat>>, bests': seq<real>, hist': seq<seq<real>>)
      returns (runs': seq<RoundRun>)
      requires PositiveMatrix(d.distance, d.n) && d.n >= 1 && Square(p, d.n)
      requires k < |perms| && k < |draws| && k < |paths| == |bests| && |paths'| == |paths| == |bests'|
      requires ValidPerms(perms[k], antCount, d.n) && ValidDraws(draws[k], antCount, d.n)
      requires |runs| == k && Recorded(d, runs, perms, draws, paths, bests, hist) && Chained(d, p0, rule, runs, p)
      requires Ok(e) && e == EnvAt(d, p)
      requires tours.n == d.n && tours.ants == antCount && |tours.cand| == Slot(antCount, d.n)
      requires forall a :: 0 <= a < antCount ==> StartOf(tours.cand, d.n, a) == StartCity(perms[k], antCount, d.n, a)
      requires paths' == paths[k := paths'[k]] && bests' == bests[k := bests'[k]]
      requires !grew ==> hist' == hist && paths' == paths && bests' == bests && p' == p
      requires grew ==>
                 antCount >= 1 && Toured(d.distance, d.n, tours.cand, tours.lens) && tours.Valid() &&
                 hist' == hist + [tours.lens] && WalkedUpTo(e, tours.cand, draws[k], antCount) &&
                 BestOfRound(d.n, antCount, tours.cand, tours.lens, paths', bests', k)
      requires grew && rule.None? ==> p' == p
      requires grew && rule.Some? ==> tours.Valid() && p' == Evaporate(p, Increment(rule.value, q, d.distance, tours), rho, d.n)
      ensures runs' == if grew then runs + [RoundRun(p, tours)] else runs
      ensures |runs'| == |hist'| && Recorded(d, runs', perms, draws, paths', bests', hist')
      ensures Chained(d, p0, rule, runs', p')
    {
      var run := RoundRun(p, tours);
      if grew {
        assert RoundDone(d, run, perms[k], draws[k], tours.lens);
      }
      runs' := RecordedAfter(d, runs, perms, draws, paths, bests, hist, run, grew, paths', bests', hist');
      ChainedAfter(d, p0, rule, runs, p, run, grew, p');
    }

    /** Lines 60-94: assign the start cities, then let every ant in turn walk
        its tour from a zeroed length. The round completes exactly when
        every ant's roulette walk from its assigned start finds a tour, and
        then every row is that tour; otherwise it stops at the first ant
        that finds no selectable city. */
    method ConstructTours(perms: seq<seq<nat>>, draws: seq<seq<real>>, candidate: array<nat>)
      returns (ok: bool, length: array<real>)
      requires Ready() && candidate.Length == Slot(antCount, cityCount)
      requires ValidPerms(perms, antCount, cityCount) && ValidDraws(draws, antCount, cityCount)
      modifies candidate
      ensures fresh(length) && length.Length == antCount
      ensures forall a :: 0 <= a < antCount ==>
                StartOf(candidate[..], cityCount, a) == StartCity(perms, antCount, cityCount, a)
      ensures ok <==> forall a :: 0 <= a < antCount ==>
                Tour(Environment(), StartCity(perms, antCount, cityCount, a), draws[a]).Some?
      ensures ok ==> WalkedUpTo(Environment(), candidate[..], draws, antCount)
      ensures ok ==> Toured(distance, cityCount, candidate[..], length[..])
      ensures DesirabilityPositive() && PositiveMatrix(pheromone, cityCount) ==> ok
    {
      length := new real[antCount](_ => 0.0);
      AssignStarts(candidate, perms);
      ok := WalkAll(draws, candidate, length);
    }

    /** Lines 74-94: ants 0, 1, ... walk their tours in turn from their
        assigned start cities and zeroed lengths, and every start city stays
        in place. All ants complete exactly when each one's roulette walk
        finds a tour; the rows are then those tours. */
    method WalkAll(draws: seq<seq<real>>, candidate: array<nat>, length: array<real>) returns (ok: bool)
      requires Ready() && candidate.Length == Slot(antCount, cityCount) && length.Length == antCount
      requires ValidDraws(draws, antCount, cityCount)
      requires forall a :: 0 <= a < antCount ==> StartOf(candidate[..], cityCount, a) < cityCount && length[a] == 0.0
      modifies candidate, length
      ensures forall a :: 0 <= a < antCount ==> StartOf(candidate[..], cityCount, a) == StartOf(old(candidate[..]), cityCount, a)
      ensures ok <==> forall a :: 0 <= a < antCount ==>
                Tour(Environment(), StartOf(old(candidate[..]), cityCount, a), draws[a]).Some?
      ensures ok ==> WalkedUpTo(Environment(), candidate[..], draws, antCount)
      ensures ok ==> Toured(distance, cityCount, candidate[..], length[..])
      ensures DesirabilityPositive() && PositiveMatrix(pheromone, cityCount) ==> ok
    {
      var n := cityCount;
      ok := true;
      var i := 0;
      while i < antCount
        invariant i <= antCount
        invariant forall a :: 0 <= a < antCount ==> StartOf(candidate[..], cityCount, a) == StartOf(old(candidate[..]), cityCount, a)
        invariant forall a :: i <= a < antCount ==> length[a] == 0.0
        invariant ToursUpTo(distance, cityCount, candidate[..], length[..], i)
        invariant WalkedUpTo(Environment(), candidate[..], draws, i)
      {
        ok := WalkAnt(i, draws, candidate, length);
        if !ok {
          return;
        }
        i := i + 1;
      }
    }

    /** Lines 75-94 for ant `i`: it completes exactly when its roulette walk
        from its start city finds a tour, its row is then that tour, and it
        changes no start city and no other length. */
    method WalkAnt(i: nat, draws: seq<seq<real>>, candidate: array<nat>, length: array<real>) returns (ok: bool)
      requires Ready() && i < antCount && candidate.Length == Slot(antCount, cityCount) && length.Length == antCount
      requires ValidDraws(draws, antCount, cityCount)
      requires StartOf(candidate[..], cityCount, i) < cityCount && length[i] == 0.0
      requires ToursUpTo(distance, cityCount, candidate[..], length[..], i) && WalkedUpTo(Environment(), candidate[..], draws, i)
      modifies candidate, length
      ensures forall a :: 0 <= a < antCount ==> StartOf(candidate[..], cityCount, a) == StartOf(old(candidate[..]), cityCount, a)
      ensures forall a :: 0 <= a < length.Length && a != i ==> length[a] == old(length[a])
      ensures ok <==> Tour(Environment(), StartOf(old(candidate[..]), cityCount, i), draws[i]).Some?
      ensures ok ==> ToursUpTo(distance, cityCount, candidate[..], length[..], i + 1) && WalkedUpTo(Environment(), candidate[..], draws, i + 1)
      ensures DesirabilityPositive() && PositiveMatrix(pheromone, cityCount) ==> ok
    {
      var n := cityCount;
      RowsApart(i, antCount, n);
      assert StartOf(candidate[..], cityCount, i) == candidate[Slot(i, n)];
      ghost var before, lensBefore, e := candidate[..], length[..], Environment();
      ok := SelectPath(i, candidate, length, draws[i]);
      assert Environment() == e;
      RowsOutsideUnchanged(before, candidate[..], n, antCount, i);
      if ok {
        ToursUpToStep(before, lensBefore, candidate[..], length[..], i);
        WalkedUpToStep(e, before, candidate[..], draws, i);
      }
    }

    /** Lines 97-106: record round `rounds`' best. Round 0 takes the shortest
        tour of the round; later rounds keep the previous best when the
        round's shortest is strictly longer and take the round's shortest
        otherwise, ties included. `argmin` is the first shortest ant. */
    method UpdateBest(nowIter: nat, candidate: array<nat>, length: array<real>)
      requires Valid() && nowIter == rounds < maxIter
      requires candidate.Length == Slot(antCount, cityCount) && length.Length == antCount >= 1
      requires length != distanceBest
      requires var i := FirstMinIndex(length[..]);
        (RowsApart(i, antCount, cityCount);
         IsPermutation(Row(candidate[..], cityCount, i), cityCount) &&
         length[i] == TourLength(distance, cityCount, Row(candidate[..], cityCount, i)))
      modifies pathBest, distanceBest, this`rounds, this`history
      ensures Valid() && rounds == old(rounds) + 1 && history == old(history) + [length[..]]
      ensures var k, i := nowIter, FirstMinIndex(length[..]);
        (RowsApart(i, antCount, cityCount);
         if k > 0 && length[i] > old(distanceBest[k - 1]) then
           distanceBest[k] == old(distanceBest[k - 1]) && pathBest[k] == old(pathBest[k - 1])
         else
           distanceBest[k] == length[i] && pathBest[k] == Row(candidate[..], cityCount, i))
      ensures pathBest[..] == old(pathBest[..])[nowIter := pathBest[nowIter]]
      ensures distanceBest[..] == old(distanceBest[..])[nowIter := distanceBest[nowIter]]
      ensures BestOfRound(cityCount, antCount, candidate[..], length[..], pathBest[..], distanceBest[..], nowIter)
    {
      var n := cityCount;
      var k := nowIter;
      var i := FirstMinIndex(length[..]);
      RowsApart(i, antCount, n);
      var shortest := length[i];
      var path: seq<nat>, best: real;
      if k > 0 && shortest > distanceBest[k - 1] {
        path, best := pathBest[k - 1], distanceBest[k - 1];
        assert pathBest[..k][k - 1] == path && distanceBest[..k][k - 1] == best;
      } else {
        path, best := candidate[Slot(i, n) .. Slot(i, n) + n], shortest;
        assert path == Row(candidate[..], n, i);
      }
      RecordBest(k, path, best, length[..]);
    }

    /** The writes of lines 98-106: row `nowIter` of the series becomes
        `path` with length `best`, which must be a tour no longer than the
        previous best nor than any tour of the round. */
    method RecordBest(nowIter: nat, path: seq<nat>, best: real, ghost lens: seq<real>)
      requires Valid() && nowIter == rounds < maxIter
      requires IsPermutation(path, cityCount) && best == TourLength(distance, cityCount, path)
      requires forall a :: 0 <= a < |lens| ==> best <= lens[a]
      requires nowIter > 0 ==> best <= distanceBest[nowIter - 1]
      modifies pathBest, distanceBest, this`rounds, this`history
      ensures Valid() && rounds == old(rounds) + 1 && history == old(history) + [lens]
      ensures pathBest[nowIter] == path && distanceBest[nowIter] == best
      ensures pathBest[..] == old(pathBest[..])[nowIter := pathBest[nowIter]]
      ensures distanceBest[..] == old(distanceBest[..])[nowIter := distanceBest[nowIter]]
    {
      var k := nowIter;
      ghost var paths, bests := pathBest[..k], distanceBest[..k];
      SeriesExtend(distance, cityCount, paths, bests, history, lens, path, best);
      distanceBest[k] := best;
      pathBest[k] := path;
      assert pathBest[..k + 1] == paths + [path];
      assert distanceBest[..k + 1] == bests + [best];
      rounds := k + 1;
      history := history + [lens];
    }

    /** Complete tours make a well-formed round for the update rules: every
        city index is in range and every tour length is positive. */
    lemma {:induction false} TouredRound(cand: seq<nat>, lens: seq<real>)
      requires Ready() && Toured(distance, cityCount, cand, lens)
      ensures RoundTours(cityCount, antCount, cand, lens).Valid()
    {
      forall a | 0 <= a < antCount
        ensures (RowsApart(a, antCount, cityCount); InRange(Row(cand, cityCount, a), cityCount)) && lens[a] > 0.0
      {
        RowsApart(a, antCount, cityCount);
        TourLengthPositive(distance, cityCount, Row(cand, cityCount, a));
      }
    }

    /** Lines 108-133 for one rule: every ant adds `Amount` to each of its
        `n-1` path edges and then to its closing edge, into a zeroed
        `incre_pheromone`. */
    method ComputeIncrement(rule: Rule, candidate: array<nat>, length: array<real>) returns (delta: seq<seq<real>>)
      requires PositiveMatrix(distance, cityCount)
      requires RoundTours(cityCount, antCount, candidate[..], length[..]).Valid()
      ensures delta == Increment(rule, q, distance, RoundTours(cityCount, antCount, candidate[..], length[..]))
    {
      var n := cityCount;
      ghost var rt := RoundTours(n, antCount, candidate[..], length[..]);
      var incre := new real[n, n]((_, _) => 0.0);
      for i := 0 to antCount
        invariant forall u, v :: 0 <= u < n && 0 <= v < n ==> incre[u, v] == Deposit(rule, q, distance, rt, i, u, v)
      {
        AddTour(rule, candidate, length, i, incre, rt);
      }
      delta := Entries(incre);
      forall u | 0 <= u < n ensures delta[u] == Increment(rule, q, distance, rt)[u] {
        assert forall v :: 0 <= v < n ==> delta[u][v] == Increment(rule, q, distance, rt)[u][v];
      }
    }

    /** The contents of a square matrix buffer, row by row. */
    function Entries(m: array2<real>): (r: seq<seq<real>>)
      reads m
      ensures |r| == m.Length0 && forall u :: 0 <= u < m.Length0 ==> |r[u]| == m.Length1
      ensures forall u, v :: 0 <= u < m.Length0 && 0 <= v < m.Length1 ==> r[u][v] == m[u, v]
    {
      seq(m.Length0, u requires 0 <= u < m.Length0 reads m =>
        seq(m.Length1, v requires 0 <= v < m.Length1 reads m => m[u, v]))
    }

    /** `incre[u][v] += x` */
    static method AddAmount(incre: array2<real>, u: nat, v: nat, x: real)
      requires u < incre.Length0 && v < incre.Length1
      modifies incre
      ensures incre[u, v] == old(incre[u, v]) + x
      ensures forall u', v' :: 0 <= u' < incre.Length0 && 0 <= v' < incre.Length1 && (u', v') != (u, v) ==>
                incre[u', v'] == old(incre[u', v'])
    {
      incre[u, v] := incre[u, v] + x;
    }

    /** The body of the ant loop of lines 109-133: ant `i` adds `Amount` to
        its `n-1` path edges (`candidate[i, j] -> candidate[i, j+1]`) and then
        to its closing edge (`candidate[i, n-1] -> candidate[i, 0]`). */
    method AddTour(rule: Rule, candidate: array<nat>, length: array<real>, i: nat,
                   incre: array2<real>, ghost rt: RoundTours)
      requires PositiveMatrix(distance, cityCount)
      requires rt == RoundTours(cityCount, antCount, candidate[..], length[..]) && rt.Valid() && i < antCount
      requires incre.Length0 == cityCount && incre.Length1 == cityCount
      modifies incre
      ensures forall u, v :: 0 <= u < cityCount && 0 <= v < cityCount ==>
                incre[u, v] == old(incre[u, v]) + AntDeposit(rule, q, distance, rt, i, cityCount, u, v)
    {
      var n := cityCount;
      var j := 0;
      while j < n
        invariant j <= n
        invariant forall u, v :: 0 <= u < n && 0 <= v < n ==>
          incre[u, v] == old(incre[u, v]) + AntDeposit(rule, q, distance, rt, i, j, u, v)
      {
        AddEdge(rule, candidate, length, i, j, incre, rt);
        j := j + 1;
      }
    }

    /** One pass of the inner loop of lines 111-133: edge `j` of ant `i`,
        from `candidate[i, j]` to `candidate[i, j+1]`, or back to
        `candidate[i, 0]` for the closing edge `j = n-1`, receives `Amount`. */
    method AddEdge(rule: Rule, candidate: array<nat>, length: array<real>, i: nat, j: nat,
                   incre: array2<real>, ghost rt: RoundTours)
      requires PositiveMatrix(distance, cityCount)
      requires rt == RoundTours(cityCount, antCount, candidate[..], length[..]) && rt.Valid() && i < antCount && j < cityCount
      requires incre.Length0 == cityCount && incre.Length1 == cityCount
      modifies incre
      ensures forall x, y :: 0 <= x < cityCount && 0 <= y < cityCount ==>
                incre[x, y] == old(incre[x, y]) + (AntDeposit(rule, q, distance, rt, i, j + 1, x, y) -
                                                   AntDeposit(rule, q, distance, rt, i, j, x, y))
    {
      var n := cityCount;
      assert rt.n == n && PositiveMatrix(distance, rt.n);
      RowsApart(i, antCount, n);
      var base := Slot(i, n);
      var u, v := candidate[base + j], if j < n - 1 then candidate[base + j + 1] else candidate[base];
      assert u == rt.From(i, j) && v == rt.To(i, j);
      AddAmount(incre, u, v, Amount(rule, q, distance, n, length[i], u, v));
      forall x, y | 0 <= x < n && 0 <= y < n
        ensures incre[x, y] == old(incre[x, y]) + (AntDeposit(rule, q, distance, rt, i, j + 1, x, y) -
                                                   AntDeposit(rule, q, distance, rt, i, j, x, y))
      {
        AntDepositEdge(rule, q, distance, rt, i, j, x, y);
      }
    }

    /** One pass of the loop body of lines 59-136, round `nowIter`: tours,
        best-so-far, then the pheromone update `(1 - rho) P + incre`. A
        failing ant stops the round before the best is recorded; an unknown
        rule name stops it after the best is recorded and before the
        pheromone changes. `tours` is the round's buffer and lengths. */
    method Round(nowIter: nat, name: string, perms: seq<seq<nat>>, draws: seq<seq<real>>, candidate: array<nat>)
      returns (outcome: Outcome, ghost tours: RoundTours)
      requires Valid() && nowIter == rounds < maxIter
      requires candidate.Length == Slot(antCount, cityCount)
      requires ValidPerms(perms, antCount, cityCount) && ValidDraws(draws, antCount, cityCount)
      modifies this`pheromone, this`rounds, this`history, pathBest, distanceBest, candidate
      ensures Valid()
      ensures tours.n == cityCount && tours.ants == antCount && tours.cand == candidate[..]
      ensures forall a :: 0 <= a < antCount ==> StartOf(tours.cand, cityCount, a) == StartCity(perms, antCount, cityCount, a)
      ensures outcome == Fail(NoSelectableCity) <==>
                exists a :: 0 <= a < antCount && Tour(old(Environment()), StartCity(perms, antCount, cityCount, a), draws[a]).None?
      ensures outcome.Pass? ==>
                rounds == old(rounds) + 1 && ParseRule(name).Some? && Toured(distance, cityCount, tours.cand, tours.lens) &&
                tours.Valid() &&
                pheromone == Evaporate(old(pheromone), Increment(ParseRule(name).value, q, distance, tours), rho, cityCount)
      ensures rounds == old(rounds) + 1 ==>
                antCount >= 1 && Toured(distance, cityCount, tours.cand, tours.lens) && tours.Valid() && history == old(history) + [tours.lens] &&
                WalkedUpTo(old(Environment()), tours.cand, draws, antCount) &&
                BestOfRound(cityCount, antCount, tours.cand, tours.lens, pathBest[..], distanceBest[..], nowIter)
      ensures rounds == old(rounds) ==>
                history == old(history) && pathBest[..] == old(pathBest[..]) && distanceBest[..] == old(distanceBest[..])
      ensures pathBest[..] == old(pathBest[..])[nowIter := pathBest[nowIter]]
      ensures distanceBest[..] == old(distanceBest[..])[nowIter := distanceBest[nowIter]]
      ensures outcome.Fail? ==> pheromone == old(pheromone) && old(rounds) <= rounds <= old(rounds) + 1
      ensures outcome == Fail(UnsupportedMethod) ==> ParseRule(name).None? && rounds == old(rounds) + 1
      ensures rounds == old(rounds) + 1 && ParseRule(name).Some? ==> outcome.Pass?
      ensures outcome == Fail(NoSelectableCity) || outcome == Fail(EmptyColony) ==> rounds == old(rounds)
      ensures outcome == Fail(EmptyColony) ==> antCount == 0
      ensures antCount == 0 ==> outcome.Fail?
      ensures ParseRule(name).None? ==> outcome.Fail?
      ensures DesirabilityPositive() && PositiveMatrix(old(pheromone), cityCount) && antCount >= 1 ==>
                (outcome.Pass? <==> ParseRule(name).Some?)
      ensures 0.0 <= rho < 1.0 && q > 0.0 && PositiveMatrix(old(pheromone), cityCount) ==>
                PositiveMatrix(pheromone, cityCount)
    {
      ghost var e, pb, db, h := Environment(), pathBest[..], distanceBest[..], history;
      var ok, length := ConstructTours(perms, draws, candidate);
      assert Environment() == e && pathBest[..] == pb && distanceBest[..] == db && history == h;
      tours := RoundTours(cityCount, antCount, candidate[..], length[..]);
      if !ok {
        outcome := Fail(NoSelectableCity);
      } else if antCount == 0 {
        outcome := Fail(EmptyColony);
      } else {
        TouredRound(candidate[..], length[..]);
        outcome := FinishRound(nowIter, name, candidate, length);
        assert candidate[..] == tours.cand && length[..] == tours.lens;
      }
    }

    /** Lines 96-136 after complete tours: record the best, then apply the
        named rule; an unknown name raises after the best is recorded,
        leaving the pheromone as it was. */
    method FinishRound(nowIter: nat, name: string, candidate: array<nat>, length: array<real>)
      returns (outcome: Outcome)
      requires Valid() && nowIter == rounds < maxIter && antCount >= 1
      requires Toured(distance, cityCount, candidate[..], length[..]) && length != distanceBest
      modifies this`pheromone, this`rounds, this`history, pathBest, distanceBest
      ensures Valid() && rounds == old(rounds) + 1 && history == old(history) + [length[..]]
      ensures BestOfRound(cityCount, antCount, candidate[..], length[..], pathBest[..], distanceBest[..], nowIter)
      ensures pathBest[..] == old(pathBest[..])[nowIter := pathBest[nowIter]]
      ensures distanceBest[..] == old(distanceBest[..])[nowIter := distanceBest[nowIter]]
      ensures outcome.Pass? <==> ParseRule(name).Some?
      ensures outcome.Fail? ==> outcome.error == UnsupportedMethod && pheromone == old(pheromone)
      ensures outcome.Pass? ==>
                (TouredRound(candidate[..], length[..]);
                 pheromone == Evaporate(old(pheromone),
                   Increment(ParseRule(name).value, q, distance, RoundTours(cityCount, antCount, candidate[..], length[..])),
                   rho, cityCount))
      ensures 0.0 <= rho < 1.0 && q > 0.0 && PositiveMatrix(old(pheromone), cityCount) ==>
                PositiveMatrix(pheromone, cityCount)
    {
      ToursUpToAt(candidate[..], length[..], antCount, FirstMinIndex(length[..]));
      UpdateBest(nowIter, candidate, length);
      outcome := ApplyRule(name, candidate, length);
    }

    /** Lines 108-136: the rule named `name` updates the pheromone; an
        unknown name raises and leaves it unchanged. */
    method ApplyRule(name: string, candidate: array<nat>, length: array<real>) returns (outcome: Outcome)
      requires Valid() && Toured(distance, cityCount, candidate[..], length[..])
      modifies this`pheromone
      ensures Valid()
      ensures outcome.Pass? <==> ParseRule(name).Some?
      ensures outcome.Fail? ==> outcome.error == UnsupportedMethod && pheromone == old(pheromone)
      ensures outcome.Pass? ==>
                (TouredRound(candidate[..], length[..]);
                 pheromone == Evaporate(old(pheromone),
                   Increment(ParseRule(name).value, q, distance, RoundTours(cityCount, antCount, candidate[..], length[..])),
                   rho, cityCount))
      ensures 0.0 <= rho < 1.0 && q > 0.0 && PositiveMatrix(old(pheromone), cityCount) ==>
                PositiveMatrix(pheromone, cityCount)
    {
      var rule := ParseRule(name);
      if rule.None? {
        return Fail(UnsupportedMethod);
      }
      UpdatePheromone(rule.value, candidate, length);
      outcome := Pass;
    }

    /** Lines 108-136 once the rule is known: build `incre_pheromone` and
        set the pheromone to `(1 - rho) P + incre`. With 0 <= rho < 1 and
        Q > 0 every entry stays positive. */
    method UpdatePheromone(rule: Rule, candidate: array<nat>, length: array<real>)
      requires Valid() && Toured(distance, cityCount, candidate[..], length[..])
      modifies this`pheromone
      ensures Valid()
      ensures (TouredRound(candidate[..], length[..]);
               pheromone == Evaporate(old(pheromone),
                 Increment(rule, q, distance, RoundTours(cityCount, antCount, candidate[..], length[..])), rho, cityCount))
      ensures 0.0 <= rho < 1.0 && q > 0.0 && PositiveMatrix(old(pheromone), cityCount) ==> PositiveMatrix(pheromone, cityCount)
    {
      var n := cityCount;
      TouredRound(candidate[..], length[..]);
      ghost var tours := RoundTours(n, antCount, candidate[..], length[..]);
      var delta := ComputeIncrement(rule, candidate, length);
      assert 0.0 <= rho < 1.0 && q > 0.0 && PositiveMatrix(pheromone, n) ==>
               PositiveMatrix(Evaporate(pheromone, delta, rho, n), n) by {
        if 0.0 <= rho < 1.0 && q > 0.0 && PositiveMatrix(pheromone, n) {
          IncrementNonNegative(rule, q, distance, tours);
          EvaporatePositive(pheromone, delta, rho, n);
        }
      }
      pheromone := Evaporate(pheromone, delta, rho, n);
    }

    /** The state of a run whose recorded rounds are `runs`: the colony is
        valid, `rounds` counts them, the series and the history record
        them, and the pheromone ends their thread from `p0` under `rule`. */
    ghost predicate Progress(rule: Option<Rule>, perms: seq<seq<seq<nat>>>, draws: seq<seq<seq<real>>>,
                             p0: seq<seq<real>>, runs: seq<RoundRun>)
      reads this`cityPos, this`cityCount, this`distance, this`reciprocal, this`pheromone
      reads this`pathBest, this`distanceBest, this`rounds, this`history, pathBest, distanceBest
    {
      Valid() && |runs| == rounds &&
      Recorded(Data(), runs, perms, draws, pathBest[..], distanceBest[..], history) &&
      Chained(Data(), p0, rule, runs, pheromone)
    }

    /** A round fails for want of a selectable city under `e` exactly when
        some ant is stuck. */
    lemma {:induction false} StuckExactly(e: Env, perms: seq<seq<nat>>, draws: seq<seq<real>>)
      requires Ok(e) && ValidPerms(perms, antCount, e.n) && ValidDraws(draws, antCount, e.n)
      ensures (exists a :: 0 <= a < antCount && Tour(e, StartCity(perms, antCount, e.n, a), draws[a]).None?) <==>
              (exists a :: 0 <= a < antCount && Stuck(e, perms, draws, a))
    {
      if a :| 0 <= a < antCount && Tour(e, StartCity(perms, antCount, e.n, a), draws[a]).None? {
        assert Stuck(e, perms, draws, a);
      }
    }

    /** Round `k` of a run (one pass of lines 59-136), with the rounds so
        far recorded in `runs` and the run's pheromone thread from `p0`: a
        round that records its best extends them by the pheromone it
        started from and its tours, and every recorded round keeps its row
        of the series. It stops for want of a selectable city exactly when
        some ant is stuck under the pheromone it started from, and then
        records nothing. */
    method RunRound(k: nat, name: string, perms: seq<seq<seq<nat>>>, draws: seq<seq<seq<real>>>, candidate: array<nat>,
                    ghost p0: seq<seq<real>>, ghost runs: seq<RoundRun>)
      returns (outcome: Outcome, ghost runs': seq<RoundRun>)
      requires Progress(ParseRule(name), perms, draws, p0, runs)
      requires k == rounds < maxIter && candidate.Length == Slot(antCount, cityCount)
      requires k < |perms| && k < |draws|
      requires ValidPerms(perms[k], antCount, cityCount) && ValidDraws(draws[k], antCount, cityCount)
      modifies this`pheromone, this`rounds, this`history, pathBest, distanceBest, candidate
      ensures Progress(ParseRule(name), perms, draws, p0, runs')
      ensures runs' == if rounds == k + 1 then runs + [RoundRun(old(pheromone), runs'[k].tours)] else runs
      ensures outcome == Fail(NoSelectableCity) <==>
                exists a :: 0 <= a < antCount && Stuck(old(Environment()), perms[k], draws[k], a)
      ensures outcome.Pass? ==> rounds == k + 1
      ensures outcome.Fail? ==> pheromone == old(pheromone) && rounds <= k + 1
      ensures outcome == Fail(NoSelectableCity) ==> rounds == k
      ensures ParseRule(name).None? ==> outcome.Fail?
      ensures DesirabilityPositive() && PositiveMatrix(old(pheromone), cityCount) && antCount >= 1 ==>
                (ParseRule(name).Some? ==> outcome.Pass?)
      ensures 0.0 <= rho < 1.0 && q > 0.0 && PositiveMatrix(old(pheromone), cityCount) ==>
                PositiveMatrix(pheromone, cityCount)
    {
      ghost var paths, bests, hist, p, e, d := pathBest[..], distanceBest[..], history, pheromone, Environment(), Data();
      ghost var tours;
      outcome, tours := Round(k, name, perms[k], draws[k], candidate);
      assert Data() == d;
      runs' := RoundBookkept(d, k, ParseRule(name), perms, draws, p0, runs, e, p, paths, bests, hist,
                             tours, rounds == k + 1, pheromone, pathBest[..], distanceBest[..], history);
      StuckExactly(e, perms[k], draws[k]);
    }

    /** A run starts with no round recorded and the pheromone it was given. */
    ghost method BeginRun(rule: Option<Rule>, perms: seq<seq<seq<nat>>>, draws: seq<seq<seq<real>>>)
      requires Valid()
      modifies this`rounds, this`history
      ensures rounds == 0 && Progress(rule, perms, draws, pheromone, [])
    {
      rounds := 0;
      history := [];
      assert SeriesValid(distance, cityCount, [], [], []);
      assert pathBest[..0] == [] && distanceBest[..0] == [];
    }

    /** `serial_iteration(method)`, lines 40-138: `maxIter` rounds over one
        candidate buffer, `perms[k]` and `draws[k]` being round k's random
        input. The run stops at the first failing round; when that is for
        want of a selectable city, some ant of round `rounds` is stuck
        under the pheromone the run ends with. */
    method SerialIteration(name: string, perms: seq<seq<seq<nat>>>, draws: seq<seq<seq<real>>>)
      returns (outcome: Outcome, ghost runs: seq<RoundRun>)
      requires Valid()
      requires |perms| >= maxIter && |draws| >= maxIter
      requires forall k :: 0 <= k < maxIter ==>
                 ValidPerms(perms[k], antCount, cityCount) && ValidDraws(draws[k], antCount, cityCount)
      modifies this`pheromone, this`rounds, this`history, pathBest, distanceBest
      ensures Progress(ParseRule(name), perms, draws, old(pheromone), runs)
      ensures outcome.Pass? ==> rounds == maxIter
      ensures outcome == Fail(NoSelectableCity) ==>
                rounds < maxIter &&
                exists a :: 0 <= a < antCount && Stuck(Environment(), perms[rounds], draws[rounds], a)
      ensures ParseRule(name).None? ==> pheromone == old(pheromone) && rounds <= 1
      ensures ParseRule(name).None? && maxIter > 0 ==> outcome.Fail?
      ensures DesirabilityPositive() && 0.0 <= rho < 1.0 && q > 0.0 && antCount >= 1 &&
              PositiveMatrix(old(pheromone), cityCount) && ParseRule(name).Some?
              ==> outcome.Pass?
      ensures 0.0 <= rho < 1.0 && q > 0.0 && PositiveMatrix(old(pheromone), cityCount) ==>
                PositiveMatrix(pheromone, cityCount)
    {
      ghost var p0 := pheromone;
      var candidate := new nat[Slot(antCount, cityCount)];
      BeginRun(ParseRule(name), perms, draws);
      outcome := Pass;
      runs := [];
      var k := 0;
      while k < maxIter
        invariant k <= maxIter && rounds == k && outcome.Pass?
        invariant Progress(ParseRule(name), perms, draws, p0, runs) && p0 == old(pheromone)
        invariant candidate.Length == Slot(antCount, cityCount)
        invariant ParseRule(name).None? ==> pheromone == p0 && k == 0
        invariant 0.0 <= rho < 1.0 && q > 0.0 && PositiveMatrix(p0, cityCount) ==>
                    PositiveMatrix(pheromone, cityCount)
      {
        ghost var e := Environment();
        outcome, runs := RunRound(k, name, perms, draws, candidate, p0, runs);
        if outcome.Fail? {
          assert Environment() == e;
          return;
        }
        k := k + 1;
      }
    }
  }
}
