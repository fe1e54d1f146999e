/** Tours over the cities 0 .. n-1, the `unvisit` list, and tour lengths. */
module Tours {

  /** No city occurs twice in `t`. */
  predicate Distinct(t: seq<nat>) {
    forall i, j :: 0 <= i < j < |t| ==> t[i] != t[j]
  }

  /** Every entry of `t` is a city index below `n`. */
  predicate InRange(t: seq<nat>, n: nat) {
    forall i :: 0 <= i < |t| ==> t[i] < n
  }

  /** `t` is an ordering of all cities 0 .. n-1, each exactly once. */
  predicate IsPermutation(t: seq<nat>, n: nat) {
    |t| == n && InRange(t, n) && Distinct(t)
  }

  /** A square matrix of size n whose every entry is strictly positive:
      the distances (including the large diagonal sentinel), their
      reciprocals, and the pheromone. */
  predicate PositiveMatrix(m: seq<seq<real>>, n: nat) {
    |m| == n && forall u :: 0 <= u < n ==> |m[u]| == n && forall v :: 0 <= v < n ==> m[u][v] > 0.0
  }

  /** `list(range(n))`. */
  function Range(n: nat): (r: seq<nat>)
    ensures |r| == n && forall c :: 0 <= c < n ==> r[c] == c
  {
    seq(n, c requires 0 <= c => c as nat)
  }

  /** `list(range(n))` holds every city once. */
  lemma {:induction false} RangeIsPermutation(n: nat)
    ensures IsPermutation(Range(n), n)
  {
    var r := Range(n);
    assert forall i, j :: 0 <= i < j < n ==> r[i] == i && r[j] == j;
  }

  /** All cities but `start`, in range: what the walk of lines 79-93 starts from. */
  lemma {:induction false} RestOfRange(n: nat, start: nat)
    requires start < n
    ensures start in Range(n) && InRange(Remove(Range(n), start), n)
  {
    assert Range(n)[start] == start;
  }

  /** Python's `list.remove(x)`: drop the first occurrence of `x`; the list
      must contain `x` (otherwise Python raises). */
  function Remove(s: seq<nat>, x: nat): (r: seq<nat>)
    requires x in s
    ensures |r| == |s| - 1
    ensures forall y :: y in r ==> y in s
    ensures forall y :: y in s && y != x ==> y in r
    ensures forall m :: InRange(s, m) ==> InRange(r, m)
  {
    if s[0] == x then s[1..]
    else
      var rest := Remove(s[1..], x);
      assert forall y :: y in rest ==> y in s[1..];
      assert forall m :: InRange(s, m) ==> InRange(s[1..], m);
      [s[0]] + rest
  }

  /** Removing `x` from a duplicate-free list leaves a duplicate-free list
      without `x`. */
  lemma {:induction false} RemoveDistinct(s: seq<nat>, x: nat)
    requires x in s && Distinct(s)
    ensures Distinct(Remove(s, x)) && x !in Remove(s, x)
  {
    if s[0] != x {
      RemoveDistinct(s[1..], x);
      assert s[0] !in s[1..];
    }
  }

  /** Sum of the distances along consecutive cities of `t` (the open path). */
  function PathSum(d: seq<seq<real>>, n: nat, t: seq<nat>): real
    requires PositiveMatrix(d, n) && InRange(t, n)
  {
    if |t| <= 1 then 0.0
    else PathSum(d, n, t[..|t| - 1]) + d[t[|t| - 2]][t[|t| - 1]]
  }

  /** Length of the closed cycle through `t`: the open path plus the edge
      from the last city back to the first. */
  function TourLength(d: seq<seq<real>>, n: nat, t: seq<nat>): real
    requires PositiveMatrix(d, n) && InRange(t, n) && |t| >= 1
  {
    PathSum(d, n, t) + d[t[|t| - 1]][t[0]]
  }

  /** A path of cities in range stays in range when a city in range is appended. */
  lemma {:induction false} InRangeAppend(t: seq<nat>, n: nat, x: nat)
    requires InRange(t, n) && x < n
    ensures InRange(t + [x], n)
  {
    assert forall i :: 0 <= i < |t| ==> (t + [x])[i] == t[i];
  }

  /** Appending one city to a path adds exactly the edge into it. */
  lemma {:induction false} PathSumAppend(d: seq<seq<real>>, n: nat, t: seq<nat>, x: nat)
    requires PositiveMatrix(d, n) && InRange(t, n) && x < n && |t| >= 1
    ensures InRange(t + [x], n)
    ensures PathSum(d, n, t + [x]) == PathSum(d, n, t) + d[t[|t| - 1]][x]
  {
    InRangeAppend(t, n, x);
    var t' := t + [x];
    assert t'[..|t'| - 1] == t;
    assert t'[|t'| - 2] == t[|t| - 1] && t'[|t'| - 1] == x;
  }

  /** The closed length of a tour is the open length of the path that
      returns to its first city. */
  lemma {:induction false} TourLengthClosesPath(d: seq<seq<real>>, n: nat, t: seq<nat>)
    requires PositiveMatrix(d, n) && InRange(t, n) && |t| >= 1
    ensures InRange(t + [t[0]], n) && TourLength(d, n, t) == PathSum(d, n, t + [t[0]])
  {
    PathSumAppend(d, n, t, t[0]);
  }

  /** An open path over positive distances has a non-negative length. */
  lemma {:induction false} PathSumNonNegative(d: seq<seq<real>>, n: nat, t: seq<nat>)
    requires PositiveMatrix(d, n) && InRange(t, n)
    ensures PathSum(d, n, t) >= 0.0
  {
    if |t| > 1 {
      PathSumNonNegative(d, n, t[..|t| - 1]);
    }
  }

  /** Every closed tour over positive distances is strictly positive, so the
      `cycle` and `constant` rules never divide by zero. */
  lemma {:induction false} TourLengthPositive(d: seq<seq<real>>, n: nat, t: seq<nat>)
    requires PositiveMatrix(d, n) && InRange(t, n) && |t| >= 1
    ensures TourLength(d, n, t) > 0.0
  {
    PathSumNonNegative(d, n, t);
  }

  /** The set of the entries of a duplicate-free sequence has as many
      elements as the sequence. */
  lemma {:induction false} DistinctCard(t: seq<nat>)
    requires Distinct(t)
    ensures |set i | 0 <= i < |t| :: t[i]| == |t|
  {
    if |t| > 0 {
      var init := t[..|t| - 1];
      DistinctCard(init);
      var s := set i | 0 <= i < |init| :: init[i];
      var s' := set i | 0 <= i < |t| :: t[i];
      assert s' == s + {t[|t| - 1]};
      assert t[|t| - 1] !in s;
    }
  }

  /** Pigeonhole: a permutation of 0 .. n-1 contains every city, so each
      city occurs exactly once. */
  lemma {:induction false} PermutationCoversAll(t: seq<nat>, n: nat)
    requires IsPermutation(t, n)
    ensures forall c: nat :: c < n ==> c in t
  {
    var s := set i | 0 <= i < |t| :: t[i];
    var cities := Range(n);
    var all := set i | 0 <= i < |cities| :: cities[i];
    RangeIsPermutation(n);
    DistinctCard(t);
    DistinctCard(cities);
    forall x | x in s ensures x in all {
      assert x < n && cities[x] == x;
    }
    assert |all - s| == |all| - |s| == 0;
    assert all - s == {};
    forall c: nat | c < n ensures c in t {
      assert cities[c] == c;
      assert c in all;
      assert c in s;
    }
  }

  /** The offset `a * n` of ant `a`'s row in the flat candidate buffer
      (row-major order of an ants-by-cities table). It is written as a
      recursion so that offsets stay linear facts; SlotIsProduct states
      the product. */
  function Slot(a: nat, n: nat): nat {
    if a == 0 then 0 else Slot(a - 1, n) + n
  }

  lemma {:induction false} SlotIsProduct(a: nat, n: nat)
    ensures Slot(a, n) == a * n
  {
    if a > 0 {
      SlotIsProduct(a - 1, n);
    }
  }

  /** Rows of distinct ants do not overlap: row `a` ends before row `b`
      starts. */
  lemma {:induction false} RowsApart(a: nat, b: nat, n: nat)
    requires a < b
    ensures Slot(a, n) + n <= Slot(b, n)
  {
    if a < b - 1 {
      RowsApart(a, b - 1, n);
    }
  }

  /** Ant `a`'s tour: `candidate[a, :]`. */
  function Row(cand: seq<nat>, n: nat, a: nat): (t: seq<nat>)
    requires Slot(a, n) + n <= |cand|
    ensures |t| == n && forall j :: 0 <= j < n ==> t[j] == cand[Slot(a, n) + j]
  {
    cand[Slot(a, n) .. Slot(a, n) + n]
  }

  /** Rewriting the inside of row `i` of a buffer of `count` rows (every
      slot but its first) leaves every other row and every row's first slot
      as it was. */
  lemma {:induction false} RowsOutsideUnchanged(s: seq<nat>, t: seq<nat>, n: nat, count: nat, i: nat)
    requires n >= 1 && |s| == |t| == Slot(count, n) && i < count
    requires forall x :: 0 <= x < |s| && !(Slot(i, n) < x < Slot(i, n) + n) ==> t[x] == s[x]
    ensures forall a :: 0 <= a < count && a != i ==>
              (RowsApart(a, count, n); Row(t, n, a) == Row(s, n, a))
    ensures forall a :: 0 <= a < count ==>
              (RowsApart(a, count, n); t[Slot(a, n)] == s[Slot(a, n)])
  {
    forall a | 0 <= a < count
      ensures (RowsApart(a, count, n); t[Slot(a, n)] == s[Slot(a, n)])
      ensures a != i ==> (RowsApart(a, count, n); Row(t, n, a) == Row(s, n, a))
    {
      RowsApart(a, count, n);
      if a < i {
        RowsApart(a, i, n);
      } else if i < a {
        RowsApart(i, a, n);
      }
      if a != i {
        assert forall j :: 0 <= j < n ==> Row(t, n, a)[j] == Row(s, n, a)[j];
      }
    }
  }

  /** Every row of `t` agrees with the same row of `s` past its first slot:
      only the first column of the buffer may differ. */
  predicate TailsKept(s: seq<nat>, t: seq<nat>, n: nat, count: nat)
    requires n >= 1 && |s| == |t| == Slot(count, n)
  {
    forall a :: 0 <= a < count ==>
      (RowsApart(a, count, n); Row(t, n, a)[1..] == Row(s, n, a)[1..])
  }

  /** Writing the first slot of row `i` keeps every row's tail. */
  lemma {:induction false} StartWriteKeepsTails(s: seq<nat>, n: nat, count: nat, i: nat, c: nat)
    requires n >= 1 && |s| == Slot(count, n) && i < count
    ensures (RowsApart(i, count, n); TailsKept(s, s[Slot(i, n) := c], n, count))
  {
    RowsApart(i, count, n);
    var t := s[Slot(i, n) := c];
    forall a | 0 <= a < count
      ensures (RowsApart(a, count, n); Row(t, n, a)[1..] == Row(s, n, a)[1..])
    {
      RowsApart(a, count, n);
      if a < i {
        RowsApart(a, i, n);
      } else if i < a {
        RowsApart(i, a, n);
      }
      assert forall j :: 0 <= j < n - 1 ==> Row(t, n, a)[1..][j] == Row(s, n, a)[1..][j];
    }
  }

  /** The slots from `base` on hold the cities of `t`, in order. */
  predicate RowPrefix(s: seq<nat>, base: nat, t: seq<nat>) {
    base + |t| <= |s| && forall x :: 0 <= x < |t| ==> s[base + x] == t[x]
  }

  /** Writing `k` just past a row prefix extends it by `k`. */
  lemma {:induction false} RowPrefixExtend(s: seq<nat>, base: nat, t: seq<nat>, k: nat)
    requires RowPrefix(s, base, t) && base + |t| < |s|
    ensures RowPrefix(s[base + |t| := k], base, t + [k])
  {
  }

  /** `s` agrees with `s0` outside the slots `base + 1 .. base + j - 1`. */
  predicate SameOutside(s: seq<nat>, s0: seq<nat>, base: nat, j: nat) {
    |s| == |s0| && forall x :: 0 <= x < |s| && !(base < x < base + j) ==> s[x] == s0[x]
  }

  /** Agreement outside a gap holds outside any wider gap. */
  lemma {:induction false} SameOutsideWiden(s: seq<nat>, s0: seq<nat>, base: nat, j: nat, m: nat)
    requires SameOutside(s, s0, base, j) && j <= m
    ensures SameOutside(s, s0, base, m)
  {
  }

  /** Writing slot `base + j` keeps the agreement outside one more slot. */
  lemma {:induction false} SameOutsideExtend(s: seq<nat>, s0: seq<nat>, base: nat, j: nat, k: nat)
    requires SameOutside(s, s0, base, j) && 1 <= j && base + j < |s|
    ensures SameOutside(s[base + j := k], s0, base, j + 1)
  {
  }

  /** A row prefix is the slice it covers. */
  lemma {:induction false} RowPrefixSlice(s: seq<nat>, base: nat, t: seq<nat>)
    requires RowPrefix(s, base, t)
    ensures s[base..base + |t|] == t
  {
  }

  /** `1.0 / distance_table`, elementwise: each entry is the multiplicative
      inverse of the distance, so it is positive as well. */
  function Reciprocal(d: seq<seq<real>>, n: nat): (r: seq<seq<real>>)
    requires PositiveMatrix(d, n)
    ensures PositiveMatrix(r, n)
    ensures forall u, v :: 0 <= u < n && 0 <= v < n ==> r[u][v] * d[u][v] == 1.0
  {
    seq(n, u requires 0 <= u < n => seq(n, v requires 0 <= v < n => 1.0 / d[u][v]))
  }

  /** The bookkeeping of tour construction: the cities still to visit are
      exactly those not yet on the partial tour. */
  predicate Unvisited(unvisit: seq<nat>, prefix: seq<nat>, n: nat) {
    |unvisit| + |prefix| == n &&
    Distinct(unvisit) && InRange(unvisit, n) && Distinct(prefix) && InRange(prefix, n) &&
    forall c: nat :: c < n ==> (c in unvisit <==> c !in prefix)
  }

  /** Lines 76-78: all cities but the start are still to visit. */
  lemma {:induction false} UnvisitedStart(n: nat, start: nat)
    requires start < n
    ensures start in Range(n)
    ensures Unvisited(Remove(Range(n), start), [start], n)
  {
    assert Range(n)[start] == start;
    RangeIsPermutation(n);
    RemoveDistinct(Range(n), start);
    var u := Remove(Range(n), start);
    forall c: nat | c < n ensures c in u <==> c !in [start] {
      assert Range(n)[c] == c;
    }
  }

  /** Lines 88-91: moving a chosen unvisited city onto the tour keeps the
      bookkeeping. */
  lemma {:induction false} UnvisitedStep(unvisit: seq<nat>, prefix: seq<nat>, n: nat, k: nat)
    requires Unvisited(unvisit, prefix, n) && k in unvisit
    ensures Unvisited(Remove(unvisit, k), prefix + [k], n)
  {
    RemoveDistinct(unvisit, k);
    var u := Remove(unvisit, k);
    var p := prefix + [k];
    forall c: nat | c < n ensures c in u <==> c !in p {
      assert c in p <==> c in prefix || c == k;
    }
    assert Distinct(p) by {
      assert k !in prefix;
    }
  }

  /** When no city is left to visit, the tour holds every city once. */
  lemma {:induction false} UnvisitedDone(prefix: seq<nat>, n: nat)
    requires Unvisited([], prefix, n)
    ensures IsPermutation(prefix, n)
  {
  }
}
