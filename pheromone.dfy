/** The four pheromone reinforcement rules and evaporation, as the
    specification of one round's pheromone update. */
module Pheromone {
  import opened Wrappers
  import opened Tours

  /** The update rule chosen by name for a run. */
  datatype Rule = Quantity | Density | Cycle | Constant

  /** The `method` string dispatch of the update step; any other name is the
      `ValueError` branch. */
  function ParseRule(name: string): (r: Option<Rule>)
    ensures r == Some(Quantity) <==> name == "quantity"
    ensures r == Some(Density) <==> name == "density"
    ensures r == Some(Cycle) <==> name == "cycle"
    ensures r == Some(Constant) <==> name == "constant"
  {
    if name == "quantity" then Some(Quantity)
    else if name == "density" then Some(Density)
    else if name == "cycle" then Some(Cycle)
    else if name == "constant" then Some(Constant)
    else None
  }

  /** The pheromone one traversal of edge u->v by an ant whose tour has
      length `len` adds to that edge. */
  function Amount(rule: Rule, q: real, d: seq<seq<real>>, n: nat, len: real, u: nat, v: nat): (x: real)
    requires PositiveMatrix(d, n) && u < n && v < n && len > 0.0
    ensures q > 0.0 ==> x > 0.0
  {
    match rule
    case Quantity => q / d[u][v]
    case Density => q
    case Cycle => q / len
    case Constant => d[u][v] * q / len
  }

  /** One round's tours and lengths: the flat candidate buffer holds ant
      `a`'s tour at `a*n .. a*n+n`, and `lens[a]` is its length. */
  datatype RoundTours = RoundTours(n: nat, ants: nat, cand: seq<nat>, lens: seq<real>)
  {
    predicate Valid() {
      n >= 2 && |cand| == Slot(ants, n) && |lens| == ants &&
      forall a :: 0 <= a < ants ==>
        (RowsApart(a, ants, n); InRange(Row(cand, n, a), n)) && lens[a] > 0.0
    }

    /** Source city of ant `a`'s edge `e`: `candidate[a, e]`. */
    function From(a: nat, e: nat): (c: nat)
      requires Valid() && a < ants && e < n
      ensures c < n
    {
      RowsApart(a, ants, n);
      Row(cand, n, a)[e]
    }

    /** Target city of ant `a`'s edge `e`: `candidate[a, e+1]` for the
        `n-1` path edges, and `candidate[a, 0]` for the closing edge `e = n-1`. */
    function To(a: nat, e: nat): (c: nat)
      requires Valid() && a < ants && e < n
      ensures c < n
    {
      if e + 1 < n then From(a, e + 1) else From(a, 0)
    }

    /** Ant `a` traverses u->v as its edge `e`. */
    predicate Traverses(a: nat, e: nat, u: nat, v: nat)
      requires Valid() && a < ants && e < n
    {
      From(a, e) == u && To(a, e) == v
    }
  }

  /** What ant `a`'s first `e` edges deposit on u->v. */
  function AntDeposit(rule: Rule, q: real, d: seq<seq<real>>, rt: RoundTours, a: nat, e: nat, u: nat, v: nat): real
    requires rt.Valid() && PositiveMatrix(d, rt.n) && a < rt.ants && e <= rt.n && u < rt.n && v < rt.n
  {
    if e == 0 then 0.0
    else
      AntDeposit(rule, q, d, rt, a, e - 1, u, v) +
      (if rt.Traverses(a, e - 1, u, v) then Amount(rule, q, d, rt.n, rt.lens[a], u, v) else 0.0)
  }

  /** What the first `a` ants deposit on u->v: entry [u][v] of
      `incre_pheromone` once the loop has handled ants 0 .. a-1. */
  function Deposit(rule: Rule, q: real, d: seq<seq<real>>, rt: RoundTours, a: nat, u: nat, v: nat): real
    requires rt.Valid() && PositiveMatrix(d, rt.n) && a <= rt.ants && u < rt.n && v < rt.n
  {
    if a == 0 then 0.0
    else Deposit(rule, q, d, rt, a - 1, u, v) + AntDeposit(rule, q, d, rt, a - 1, rt.n, u, v)
  }

  /** The whole increment matrix of a round. */
  function Increment(rule: Rule, q: real, d: seq<seq<real>>, rt: RoundTours): (m: seq<seq<real>>)
    requires rt.Valid() && PositiveMatrix(d, rt.n)
    ensures |m| == rt.n && forall u :: 0 <= u < rt.n ==> |m[u]| == rt.n
  {
    seq(rt.n, u requires 0 <= u < rt.n =>
      seq(rt.n, v requires 0 <= v < rt.n => Deposit(rule, q, d, rt, rt.ants, u, v)))
  }

  /** `(1 - rho) * P + incre`, elementwise. */
  function Evaporate(p: seq<seq<real>>, delta: seq<seq<real>>, rho: real, n: nat): (r: seq<seq<real>>)
    requires |p| == n && |delta| == n
    requires forall u :: 0 <= u < n ==> |p[u]| == n && |delta[u]| == n
    ensures |r| == n && forall u :: 0 <= u < n ==> |r[u]| == n
  {
    seq(n, u requires 0 <= u < n => seq(n, v requires 0 <= v < n => (1.0 - rho) * p[u][v] + delta[u][v]))
  }

  /** An n-by-n matrix. */
  predicate Square(m: seq<seq<real>>, n: nat) {
    |m| == n && forall u :: 0 <= u < n ==> |m[u]| == n
  }

  /** The n-by-n matrix whose every entry is `x`. */
  function Uniform(n: nat, x: real): (m: seq<seq<real>>)
    ensures |m| == n && forall u :: 0 <= u < n ==> |m[u]| == n && forall v :: 0 <= v < n ==> m[u][v] == x
  {
    seq(n, _ => seq(n, _ => x))
  }

  /** Every entry of an n-by-n matrix is non-negative. */
  predicate AllNonNegative(m: seq<seq<real>>, n: nat) {
    |m| == n && forall u :: 0 <= u < n ==> |m[u]| == n && forall v :: 0 <= v < n ==> m[u][v] >= 0.0
  }

  /** Edge `e` of ant `a` adds `Amount` to the entry it traverses and nothing elsewhere. */
  lemma {:induction false} AntDepositEdge(rule: Rule, q: real, d: seq<seq<real>>, rt: RoundTours, a: nat, e: nat, x: nat, y: nat)
    requires rt.Valid() && PositiveMatrix(d, rt.n) && a < rt.ants && e < rt.n && x < rt.n && y < rt.n
    ensures AntDeposit(rule, q, d, rt, a, e + 1, x, y) == AntDeposit(rule, q, d, rt, a, e, x, y) +
              (if x == rt.From(a, e) && y == rt.To(a, e) then Amount(rule, q, d, rt.n, rt.lens[a], x, y) else 0.0)
  {
  }

  lemma {:induction false} AntDepositNonNegative(rule: Rule, q: real, d: seq<seq<real>>, rt: RoundTours, a: nat, e: nat, u: nat, v: nat)
    requires rt.Valid() && PositiveMatrix(d, rt.n) && a < rt.ants && e <= rt.n && u < rt.n && v < rt.n
    requires q > 0.0
    ensures AntDeposit(rule, q, d, rt, a, e, u, v) >= 0.0
  {
    if e > 0 {
      AntDepositNonNegative(rule, q, d, rt, a, e - 1, u, v);
    }
  }

  /** With Q > 0, positive distances and positive tour lengths, no entry of
      the increment is negative, whatever the rule. */
  lemma {:induction false} DepositNonNegative(rule: Rule, q: real, d: seq<seq<real>>, rt: RoundTours, a: nat, u: nat, v: nat)
    requires rt.Valid() && PositiveMatrix(d, rt.n) && a <= rt.ants && u < rt.n && v < rt.n
    requires q > 0.0
    ensures Deposit(rule, q, d, rt, a, u, v) >= 0.0
  {
    if a > 0 {
      DepositNonNegative(rule, q, d, rt, a - 1, u, v);
      AntDepositNonNegative(rule, q, d, rt, a - 1, rt.n, u, v);
    }
  }

  lemma {:induction false} IncrementNonNegative(rule: Rule, q: real, d: seq<seq<real>>, rt: RoundTours)
    requires rt.Valid() && PositiveMatrix(d, rt.n) && q > 0.0
    ensures AllNonNegative(Increment(rule, q, d, rt), rt.n)
  {
    var m := Increment(rule, q, d, rt);
    forall u, v | 0 <= u < rt.n && 0 <= v < rt.n ensures m[u][v] >= 0.0 {
      DepositNonNegative(rule, q, d, rt, rt.ants, u, v);
    }
  }

  lemma {:induction false} AntDepositZeroOffTour(rule: Rule, q: real, d: seq<seq<real>>, rt: RoundTours, a: nat, e: nat, u: nat, v: nat)
    requires rt.Valid() && PositiveMatrix(d, rt.n) && a < rt.ants && e <= rt.n && u < rt.n && v < rt.n
    requires forall f :: 0 <= f < e ==> !rt.Traverses(a, f, u, v)
    ensures AntDeposit(rule, q, d, rt, a, e, u, v) == 0.0
  {
    if e > 0 {
      AntDepositZeroOffTour(rule, q, d, rt, a, e - 1, u, v);
    }
  }

  /** An edge that no ant traversed (in that direction) receives nothing. */
  lemma {:induction false} DepositZeroOffTour(rule: Rule, q: real, d: seq<seq<real>>, rt: RoundTours, a: nat, u: nat, v: nat)
    requires rt.Valid() && PositiveMatrix(d, rt.n) && a <= rt.ants && u < rt.n && v < rt.n
    requires forall b, f :: 0 <= b < a && 0 <= f < rt.n ==> !rt.Traverses(b, f, u, v)
    ensures Deposit(rule, q, d, rt, a, u, v) == 0.0
  {
    if a > 0 {
      DepositZeroOffTour(rule, q, d, rt, a - 1, u, v);
      AntDepositZeroOffTour(rule, q, d, rt, a - 1, rt.n, u, v);
    }
  }

  lemma {:induction false} AntDepositPositiveOnTour(rule: Rule, q: real, d: seq<seq<real>>, rt: RoundTours, a: nat, e: nat, f: nat, u: nat, v: nat)
    requires rt.Valid() && PositiveMatrix(d, rt.n) && a < rt.ants && e <= rt.n && u < rt.n && v < rt.n
    requires q > 0.0 && f < e && rt.Traverses(a, f, u, v)
    ensures AntDeposit(rule, q, d, rt, a, e, u, v) > 0.0
  {
    if f == e - 1 {
      AntDepositNonNegative(rule, q, d, rt, a, e - 1, u, v);
    } else {
      AntDepositPositiveOnTour(rule, q, d, rt, a, e - 1, f, u, v);
    }
  }

  /** An edge that some ant traversed receives a strictly positive amount
      when Q > 0. */
  lemma {:induction false} DepositPositiveOnTour(rule: Rule, q: real, d: seq<seq<real>>, rt: RoundTours, a: nat, b: nat, f: nat, u: nat, v: nat)
    requires rt.Valid() && PositiveMatrix(d, rt.n) && a <= rt.ants && u < rt.n && v < rt.n
    requires q > 0.0 && b < a && f < rt.n && rt.Traverses(b, f, u, v)
    ensures Deposit(rule, q, d, rt, a, u, v) > 0.0
  {
    if b == a - 1 {
      DepositNonNegative(rule, q, d, rt, a - 1, u, v);
      AntDepositPositiveOnTour(rule, q, d, rt, a - 1, rt.n, f, u, v);
    } else {
      DepositPositiveOnTour(rule, q, d, rt, a - 1, b, f, u, v);
      AntDepositNonNegative(rule, q, d, rt, a - 1, rt.n, u, v);
    }
  }

  /** Reinforcement lands exactly on the directed edges the ants walked,
      closing edges included, and nowhere else. */
  lemma {:induction false} IncrementPositiveIffTraversed(rule: Rule, q: real, d: seq<seq<real>>, rt: RoundTours, u: nat, v: nat)
    requires rt.Valid() && PositiveMatrix(d, rt.n) && u < rt.n && v < rt.n && q > 0.0
    ensures Increment(rule, q, d, rt)[u][v] > 0.0 <==>
            exists b, f :: 0 <= b < rt.ants && 0 <= f < rt.n && rt.Traverses(b, f, u, v)
    ensures Increment(rule, q, d, rt)[u][v] == 0.0 <==>
            forall b, f :: 0 <= b < rt.ants && 0 <= f < rt.n ==> !rt.Traverses(b, f, u, v)
  {
    if exists b, f :: 0 <= b < rt.ants && 0 <= f < rt.n && rt.Traverses(b, f, u, v) {
      var b, f :| 0 <= b < rt.ants && 0 <= f < rt.n && rt.Traverses(b, f, u, v);
      DepositPositiveOnTour(rule, q, d, rt, rt.ants, b, f, u, v);
    } else {
      DepositZeroOffTour(rule, q, d, rt, rt.ants, u, v);
    }
  }

  /** Evaporation with 0 <= rho < 1 followed by a non-negative increment keeps
      every pheromone entry strictly positive. */
  lemma {:induction false} EvaporatePositive(p: seq<seq<real>>, delta: seq<seq<real>>, rho: real, n: nat)
    requires PositiveMatrix(p, n) && AllNonNegative(delta, n) && 0.0 <= rho < 1.0
    ensures PositiveMatrix(Evaporate(p, delta, rho, n), n)
  {
    var r := Evaporate(p, delta, rho, n);
    forall u, v | 0 <= u < n && 0 <= v < n ensures r[u][v] > 0.0 {
      assert r[u][v] == (1.0 - rho) * p[u][v] + delta[u][v];
      assert (1.0 - rho) * p[u][v] > 0.0;
    }
  }
}
