/** The tour one ant builds in `select_path` (lines 76-94), as a value: the
    roulette's choice at each step, the walk over the unvisited cities, and
    the bookkeeping of a walk part way through. */
module Walks {
  import opened Wrappers
  import opened Tours
  import opened Roulette

  /** What a walk reads from the colony: the number of cities, the
      distances, their reciprocals, the pheromone matrix, and the
      desirability with its two exponents. */
  datatype Env = Env(n: nat, distance: seq<seq<real>>, reciprocal: seq<seq<real>>, pheromone: seq<seq<real>>,
                     alpha: real, beta: real, desirability: (real, real, real, real) -> real)

  /** At least two cities, positive distances and reciprocals, a square
      pheromone matrix. */
  predicate Ok(e: Env) {
    e.n >= 2 && PositiveMatrix(e.distance, e.n) && PositiveMatrix(e.reciprocal, e.n) &&
    |e.pheromone| == e.n && forall u :: 0 <= u < e.n ==> |e.pheromone[u]| == e.n
  }

  /** `probability_trans` as a value: the desirability of moving from
      `visit` to each city of `unvisit`, in the order of `unvisit`. */
  function Weights(e: Env, visit: nat, unvisit: seq<nat>): (ws: seq<real>)
    requires Ok(e) && visit < e.n && InRange(unvisit, e.n)
    ensures |ws| == |unvisit|
  {
    var p, b := e.pheromone[visit], e.reciprocal[visit];
    seq(|unvisit|, k requires 0 <= k < |unvisit| => e.desirability(p[unvisit[k]], e.alpha, b[unvisit[k]], e.beta))
  }

  /** Line 88: the city of `unvisit` the roulette picks with draw `r`, or
      None where `.index(True)` raises. */
  function Choice(e: Env, visit: nat, unvisit: seq<nat>, r: real): (next: Option<nat>)
    requires Ok(e) && visit < e.n && InRange(unvisit, e.n)
    ensures next.Some? ==> next.value in unvisit
  {
    var s := Select(Weights(e, visit, unvisit), r);
    if s.Some? then Some(unvisit[s.value]) else None
  }

  /** Lines 79-93 as a value: the cities a walk from `visit` appends, one
      draw of `draws` per step, until `unvisit` is empty; None when some
      step has no choice. */
  function Walk(e: Env, visit: nat, unvisit: seq<nat>, draws: seq<real>): (w: Option<seq<nat>>)
    requires Ok(e) && visit < e.n && InRange(unvisit, e.n) && |draws| >= |unvisit|
    ensures w.Some? ==> |w.value| == |unvisit|
    decreases |unvisit|
  {
    if |unvisit| == 0 then Some([])
    else
      match Choice(e, visit, unvisit, draws[0])
      case None => None
      case Some(k) =>
        match Walk(e, k, Remove(unvisit, k), draws[1..])
        case None => None
        case Some(rest) => Some([k] + rest)
  }

  /** A walk that completes visits each city of `unvisit`, and each once
      when `unvisit` has no repeats. */
  lemma {:induction false} WalkVisitsUnvisited(e: Env, visit: nat, unvisit: seq<nat>, draws: seq<real>)
    requires Ok(e) && visit < e.n && InRange(unvisit, e.n) && |draws| >= |unvisit|
    requires Walk(e, visit, unvisit, draws).Some?
    ensures forall c :: c in Walk(e, visit, unvisit, draws).value ==> c in unvisit
    ensures Distinct(unvisit) ==> Distinct(Walk(e, visit, unvisit, draws).value)
    decreases |unvisit|
  {
    if |unvisit| > 0 {
      var k := Choice(e, visit, unvisit, draws[0]).value;
      if Distinct(unvisit) {
        RemoveDistinct(unvisit, k);
      }
      WalkVisitsUnvisited(e, k, Remove(unvisit, k), draws[1..]);
      var rest := Walk(e, k, Remove(unvisit, k), draws[1..]).value;
      assert Walk(e, visit, unvisit, draws).value == [k] + rest;
      assert Distinct(unvisit) ==> k !in rest;
    }
  }

  /** The tour of an ant that starts at `start` and draws `draws`: the
      start city, then its walk over all other cities. */
  function Tour(e: Env, start: nat, draws: seq<real>): (t: Option<seq<nat>>)
    requires Ok(e) && start < e.n && |draws| >= e.n - 1
    ensures t.Some? ==> |t.value| == e.n && t.value[0] == start
  {
    RestOfRange(e.n, start);
    match Walk(e, start, Remove(Range(e.n), start), draws)
    case None => None
    case Some(rest) => Some([start] + rest)
  }

  /** A tour that completes holds every city exactly once. */
  lemma {:induction false} TourIsPermutation(e: Env, start: nat, draws: seq<real>)
    requires Ok(e) && start < e.n && |draws| >= e.n - 1
    requires Tour(e, start, draws).Some?
    ensures IsPermutation(Tour(e, start, draws).value, e.n)
  {
    UnvisitedStart(e.n, start);
    var unvisit := Remove(Range(e.n), start);
    WalkVisitsUnvisited(e, start, unvisit, draws);
    var rest := Walk(e, start, unvisit, draws).value;
    assert Tour(e, start, draws).value == [start] + rest;
    assert start !in rest;
    assert forall j :: 0 <= j < |rest| ==> rest[j] in unvisit;
  }

  /** Part way through a walk that makes `tour`: `path` is walked, ending
      at `visit`, and the rest of the tour is the walk from `visit` over
      `unvisit` with the draws not yet used. */
  predicate WalkSoFar(e: Env, tour: Option<seq<nat>>, draws: seq<real>, path: seq<nat>, visit: nat, unvisit: seq<nat>)
    requires Ok(e) && |draws| >= e.n - 1
    requires visit < e.n && InRange(unvisit, e.n) && 1 <= |path| && |path| + |unvisit| == e.n
  {
    var w := Walk(e, visit, unvisit, draws[|path| - 1..]);
    tour == if w.Some? then Some(path + w.value) else None
  }

  lemma {:induction false} WalkBegins(e: Env, start: nat, draws: seq<real>)
    requires Ok(e) && start < e.n && |draws| >= e.n - 1
    ensures start in Range(e.n) && WalkSoFar(e, Tour(e, start, draws), draws, [start], start, Remove(Range(e.n), start))
  {
    RestOfRange(e.n, start);
    assert draws[0..] == draws;
  }

  /** One step of a walk: picking `k` puts it in front of the walk from `k`. */
  lemma {:induction false} WalkUnfolds(e: Env, visit: nat, unvisit: seq<nat>, draws: seq<real>, k: nat)
    requires Ok(e) && visit < e.n && InRange(unvisit, e.n) && |draws| >= |unvisit| > 0
    requires Choice(e, visit, unvisit, draws[0]) == Some(k)
    ensures k < e.n && InRange(Remove(unvisit, k), e.n)
    ensures var w' := Walk(e, k, Remove(unvisit, k), draws[1..]);
            Walk(e, visit, unvisit, draws) == if w'.Some? then Some([k] + w'.value) else None
  {
  }

  /** A roulette step that picks `k` moves `k` from the rest of the walk
      onto the path. */
  lemma {:induction false} WalkAdvances(e: Env, tour: Option<seq<nat>>, draws: seq<real>, path: seq<nat>, visit: nat,
                                        unvisit: seq<nat>, k: nat)
    requires Ok(e) && |draws| >= e.n - 1
    requires visit < e.n && InRange(unvisit, e.n) && 1 <= |path| && |path| + |unvisit| == e.n
    requires WalkSoFar(e, tour, draws, path, visit, unvisit) && |unvisit| > 0
    requires Choice(e, visit, unvisit, draws[|path| - 1]) == Some(k)
    ensures k < e.n && InRange(Remove(unvisit, k), e.n)
    ensures WalkSoFar(e, tour, draws, path + [k], k, Remove(unvisit, k))
  {
    var ds := draws[|path| - 1..];
    assert ds[0] == draws[|path| - 1];
    WalkUnfolds(e, visit, unvisit, ds, k);
    assert draws[|path + [k]| - 1..] == ds[1..];
    SoFarShift(tour, path, k, Walk(e, visit, unvisit, ds), Walk(e, k, Remove(unvisit, k), ds[1..]));
  }

  /** The bookkeeping of one step, on values: a walk `w` that starts with
      `k` and goes on as `w'` completes `path` exactly as `w'` completes
      `path + [k]`. */
  lemma SoFarShift(tour: Option<seq<nat>>, path: seq<nat>, k: nat, w: Option<seq<nat>>, w': Option<seq<nat>>)
    requires tour == (if w.Some? then Some(path + w.value) else None)
    requires w == (if w'.Some? then Some([k] + w'.value) else None)
    ensures tour == (if w'.Some? then Some((path + [k]) + w'.value) else None)
  {
    if w'.Some? {
      assert path + ([k] + w'.value) == (path + [k]) + w'.value;
    }
  }

  /** A step with no choice ends the walk without a tour. */
  lemma {:induction false} WalkStops(e: Env, tour: Option<seq<nat>>, draws: seq<real>, path: seq<nat>, visit: nat, unvisit: seq<nat>)
    requires Ok(e) && |draws| >= e.n - 1
    requires visit < e.n && InRange(unvisit, e.n) && 1 <= |path| && |path| + |unvisit| == e.n
    requires WalkSoFar(e, tour, draws, path, visit, unvisit) && |unvisit| > 0
    requires Choice(e, visit, unvisit, draws[|path| - 1]) == None
    ensures tour == None
  {
    assert draws[|path| - 1..][0] == draws[|path| - 1];
  }

  /** With nothing left to visit, the path is the tour. */
  lemma {:induction false} WalkEnds(e: Env, tour: Option<seq<nat>>, draws: seq<real>, path: seq<nat>, visit: nat)
    requires Ok(e) && |draws| >= e.n - 1
    requires visit < e.n && |path| == e.n && WalkSoFar(e, tour, draws, path, visit, [])
    ensures tour == Some(path)
  {
    assert path + [] == path;
  }

  /** The state of a walk from `start` after the cities of `path`: it is
      at `visit`, `unvisit` holds exactly the cities not yet on the path,
      `len` is the open length of the path so far (line 92), and the rest
      of the tour is the walk from `visit` with the draws not yet used. */
  predicate Progress(e: Env, start: nat, draws: seq<real>, path: seq<nat>, visit: nat, unvisit: seq<nat>, len: real)
    requires Ok(e)
  {
    start < e.n && |draws| >= e.n - 1 && 1 <= |path| && path[0] == start &&
    visit == path[|path| - 1] && visit < e.n && Unvisited(unvisit, path, e.n) &&
    len == PathSum(e.distance, e.n, path) && WalkSoFar(e, Tour(e, start, draws), draws, path, visit, unvisit)
  }

  /** Lines 76-78: the walk starts at `start` with every other city unvisited. */
  lemma {:induction false} ProgressBegins(e: Env, start: nat, draws: seq<real>)
    requires Ok(e) && start < e.n && |draws| >= e.n - 1
    ensures start in Range(e.n) && Progress(e, start, draws, [start], start, Remove(Range(e.n), start), 0.0)
  {
    UnvisitedStart(e.n, start);
    WalkBegins(e, start, draws);
  }

  /** Lines 88-93: choosing `k` moves it from `unvisit` to the path and
      adds the edge into it to the length. */
  lemma {:induction false} ProgressAdvances(e: Env, start: nat, draws: seq<real>, path: seq<nat>, visit: nat, unvisit: seq<nat>,
                         len: real, k: nat)
    requires Ok(e) && Progress(e, start, draws, path, visit, unvisit, len) && |unvisit| > 0
    requires Choice(e, visit, unvisit, draws[|path| - 1]) == Some(k)
    ensures k in unvisit && k < e.n
    ensures Progress(e, start, draws, path + [k], k, Remove(unvisit, k), len + e.distance[visit][k])
  {
    UnvisitedStep(unvisit, path, e.n, k);
    PathSumAppend(e.distance, e.n, path, k);
    WalkAdvances(e, Tour(e, start, draws), draws, path, visit, unvisit, k);
  }

  /** A step with no choice: the ant has no tour. */
  lemma {:induction false} ProgressStops(e: Env, start: nat, draws: seq<real>, path: seq<nat>, visit: nat, unvisit: seq<nat>, len: real)
    requires Ok(e) && Progress(e, start, draws, path, visit, unvisit, len) && |unvisit| > 0
    requires Choice(e, visit, unvisit, draws[|path| - 1]) == None
    ensures Tour(e, start, draws) == None
  {
    WalkStops(e, Tour(e, start, draws), draws, path, visit, unvisit);
  }

  /** Lines 93-94: with every city visited the path is the tour, a
      permutation, and closing it back to the start gives its length. */
  lemma {:induction false} ProgressEnds(e: Env, start: nat, draws: seq<real>, path: seq<nat>, visit: nat, len: real)
    requires Ok(e) && Progress(e, start, draws, path, visit, [], len)
    ensures Tour(e, start, draws) == Some(path) && IsPermutation(path, e.n)
    ensures TourLength(e.distance, e.n, path) == len + e.distance[visit][start]
  {
    UnvisitedDone(path, e.n);
    WalkEnds(e, Tour(e, start, draws), draws, path, visit);
  }

  /** The row of `cand` from `base` holds `path`, the walk's progress so
      far, and the rest of `cand` is as in `orig`. */
  predicate RowSoFar(e: Env, cand: seq<nat>, orig: seq<nat>, base: nat, start: nat, draws: seq<real>,
                     path: seq<nat>, visit: nat, unvisit: seq<nat>, len: real)
    requires Ok(e)
  {
    RowPrefix(cand, base, path) && SameOutside(cand, orig, base, |path|) &&
    Progress(e, start, draws, path, visit, unvisit, len)
  }

  /** One roulette draw of the walk: with no choice the walk has no tour;
      with choice `k`, written into the row, the walk extends by `k`. */
  lemma {:induction false} RowStep(e: Env, cand: seq<nat>, orig: seq<nat>, base: nat, start: nat, draws: seq<real>,
                path: seq<nat>, visit: nat, unvisit: seq<nat>, len: real, next: Option<nat>)
    requires Ok(e) && RowSoFar(e, cand, orig, base, start, draws, path, visit, unvisit, len)
    requires |unvisit| > 0 && base + |path| < |cand|
    requires Choice(e, visit, unvisit, draws[|path| - 1]) == next
    ensures next.None? ==> Tour(e, start, draws) == None
    ensures next.Some? ==> next.value in unvisit && next.value < e.n
    ensures next.Some? ==> RowSoFar(e, cand[base + |path| := next.value], orig, base, start, draws, path + [next.value],
                                    next.value, Remove(unvisit, next.value), len + e.distance[visit][next.value])
  {
    if next.None? {
      ProgressStops(e, start, draws, path, visit, unvisit, len);
    } else {
      var k := next.value;
      ProgressAdvances(e, start, draws, path, visit, unvisit, len, k);
      RowPrefixExtend(cand, base, path, k);
      SameOutsideExtend(cand, orig, base, |path|, k);
    }
  }
}
