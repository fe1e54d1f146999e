/** Start cities of one round: the ants are cut into consecutive blocks of
    `n` (the city count); block `b` takes its start cities, in order, from the
    random permutation `perms[b]`. */
module Starts {
  import opened Wrappers
  import opened Tours

  /** Number of blocks of `n` ants needed for `antCount` ants; one
      permutation is drawn per block. */
  function NumBlocks(antCount: nat, n: nat): (k: nat)
    requires n > 0
    ensures k * n >= antCount && (k == 0 || (k - 1) * n < antCount)
  {
    (antCount + n - 1) / n
  }

  /** Every block has a permutation of the cities at its disposal. */
  predicate ValidPerms(perms: seq<seq<nat>>, antCount: nat, n: nat)
    requires n > 0
  {
    |perms| >= NumBlocks(antCount, n) &&
    forall b :: 0 <= b < |perms| ==> IsPermutation(perms[b], n)
  }

  /** The start city of ant `a`: entry `a % n` of its block's permutation. */
  function StartCity(perms: seq<seq<nat>>, antCount: nat, n: nat, a: nat): (c: nat)
    requires n > 0 && ValidPerms(perms, antCount, n) && a < antCount
    ensures c < n
  {
    assert a / n < NumBlocks(antCount, n) by { BlockBound(antCount, n, a); }
    perms[a / n][a % n]
  }

  lemma {:induction false} BlockBound(antCount: nat, n: nat, a: nat)
    requires n > 0 && a < antCount
    ensures a / n < NumBlocks(antCount, n)
  {
  }

  /** Ant `b*n + t` is ant `t` of block `b`. */
  lemma {:induction false} BlockOffset(b: nat, t: nat, n: nat)
    requires t < n
    ensures (Slot(b, n) + t) / n == b && (Slot(b, n) + t) % n == t
  {
    SlotIsProduct(b, n);
    var a := b * n + t;
    var q, r := a / n, a % n;
    assert (q - b) * n == t - r;
    MultipleInsideBand(q - b, n);
  }

  lemma {:induction false} MultipleInsideBand(x: int, n: nat)
    requires n > 0 && 0 - n < x * n < n
    ensures x == 0
  {
  }

  /** Within one block no two ants share a start city. When `antCount <= n`
      there is only block 0, so all start cities of the round differ; for the
      last, possibly partial, block of `m` ants the `m` start cities differ. */
  lemma {:induction false} StartsDistinctInBlock(perms: seq<seq<nat>>, antCount: nat, n: nat, b: nat, t1: nat, t2: nat)
    requires n > 0 && ValidPerms(perms, antCount, n)
    requires t1 < t2 < n && Slot(b, n) + t2 < antCount
    ensures StartCity(perms, antCount, n, Slot(b, n) + t1) != StartCity(perms, antCount, n, Slot(b, n) + t2)
  {
    BlockOffset(b, t1, n);
    BlockOffset(b, t2, n);
    BlockBound(antCount, n, Slot(b, n) + t2);
  }

  /** With no more ants than cities, every ant starts from a different city. */
  lemma {:induction false} FewAntsDistinctStarts(perms: seq<seq<nat>>, antCount: nat, n: nat, a1: nat, a2: nat)
    requires n > 0 && ValidPerms(perms, antCount, n) && antCount <= n
    requires a1 < a2 < antCount
    ensures StartCity(perms, antCount, n, a1) != StartCity(perms, antCount, n, a2)
  {
    assert Slot(0, n) == 0;
    StartsDistinctInBlock(perms, antCount, n, 0, a1, a2);
  }

  /** A full block of `n` ants uses every city exactly once as a start. */
  lemma {:induction false} FullBlockCoversAll(perms: seq<seq<nat>>, antCount: nat, n: nat, b: nat, c: nat)
    requires n > 0 && ValidPerms(perms, antCount, n)
    requires Slot(b, n) + n <= antCount && c < n
    ensures exists a :: Slot(b, n) <= a < Slot(b, n) + n && StartCity(perms, antCount, n, a) == c
  {
    BlockBound(antCount, n, Slot(b, n));
    BlockOffset(b, 0, n);
    PermutationCoversAll(perms[b], n);
    assert c in perms[b];
    var t :| 0 <= t < n && perms[b][t] == c;
    BlockOffset(b, t, n);
    assert StartCity(perms, antCount, n, Slot(b, n) + t) == c;
  }

  /** Lines 61-71 as written: the zeroed `length` array of the round is
      bound only in the `else` branch (line 71), so with `antCount <= n` the
      first `length[i] += ...` of line 92 reads a local name that was never
      bound. `None` stands for that unbound name. */
  function LengthsAsWritten(antCount: nat, n: nat): (r: Option<seq<real>>)
    ensures r.Some? <==> antCount > n
    ensures r.Some? ==> |r.value| == antCount && forall a :: 0 <= a < antCount ==> r.value[a] == 0.0
  {
    if antCount <= n then None else Some(seq(antCount, _ => 0.0))
  }

  /** One ant on two cities: the round as written has no `length` to add to. */
  lemma {:induction false} OneAntTwoCitiesLeavesLengthUnbound()
    ensures LengthsAsWritten(1, 2).None?
  {
  }
}
