/** The k-point index mapping of the reshape engine and the stripes its
    workers walk.

    `kloc_index_to_pool_index` lives in a pool-file module that is not part
    of this model. Its rule is taken to be round-robin: the global k-point
    index `i` goes to pool `i % P` at local position `i / P`. The reshape
    worker's own assert (the target pool of every index in `range(p, N, P)`
    is `p`) and its per-file counter (0, 1, 2, ... along the stripe) both
    agree with this rule, and `KlocToPool`'s contract is exactly what pins
    it down. All indices here are 0-based; the storage layer adds 1. */
module Mapper {

  /** A (pool, local) pair, both 0-based. */
  datatype PoolIndex = PoolIndex(pool: nat, local: nat)

  /** `kloc_index_to_pool_index(i, num_pools)`: the pool is in range and the
      pair spells `i` in base `numPools` (local is the quotient, pool the
      remainder). */
  function KlocToPool(i: nat, numPools: nat): (r: PoolIndex)
    requires numPools >= 1
    ensures r.pool < numPools
    ensures r.local * numPools + r.pool == i
  {
    PoolIndex(i % numPools, i / numPools)
  }

  /** The global index a (pool, local) pair stands for. */
  function GlobalIndex(pi: PoolIndex, numPools: nat): nat {
    pi.local * numPools + pi.pool
  }

  lemma {:induction false} MulAtLeast(m: nat, d: nat)
    requires m >= 1
    ensures m * d >= d
    decreases m
  {
    if m > 1 {
      MulAtLeast(m - 1, d);
      assert m * d == (m - 1) * d + d;
    }
  }

  /** Quotient and remainder are unique. */
  lemma DivModUnique(x: nat, d: nat, q: nat, r: nat)
    requires d >= 1 && r < d && x == q * d + r
    ensures x / d == q && x % d == r
  {
    var q', r' := x / d, x % d;
    assert x == q' * d + r';
    if q' < q {
      var m := q - q';
      assert q * d == q' * d + m * d;
      MulAtLeast(m, d);
    } else if q' > q {
      var m := q' - q;
      assert q' * d == q * d + m * d;
      MulAtLeast(m, d);
    }
  }

  /** The mapping is a bijection between global indices and the (pool,
      local) pairs whose pool is below `numPools`: it hits `pi` from
      exactly one index, `GlobalIndex(pi)`. */
  lemma MapperBijection(i: nat, pi: PoolIndex, numPools: nat)
    requires numPools >= 1
    ensures KlocToPool(i, numPools) == pi <==> (pi.pool < numPools && GlobalIndex(pi, numPools) == i)
  {
    if pi.pool < numPools && GlobalIndex(pi, numPools) == i {
      DivModUnique(i, numPools, pi.local, pi.pool);
    }
  }

  /** Two indices that land on the same slot are the same index. */
  lemma KlocToPoolInjective(i: nat, j: nat, numPools: nat)
    requires numPools >= 1
    ensures KlocToPool(i, numPools) == KlocToPool(j, numPools) ==> i == j
  {
    var pi := KlocToPool(i, numPools);
    if KlocToPool(j, numPools) == pi {
      MapperBijection(i, pi, numPools);
      MapperBijection(j, pi, numPools);
    }
  }

  /** Python's `range(start, n, step)` for a positive step: the indices one
      reshape worker visits when `start` is its pool and `step` the number
      of target pools. */
  function Stripe(start: nat, n: nat, step: nat): (r: seq<nat>)
    requires step >= 1
    ensures forall k | 0 <= k < |r| :: r[k] == start + k * step && r[k] < n
    decreases n - start
  {
    if start >= n then []
    else
      var rest := Stripe(start + step, n, step);
      assert forall k | 1 <= k < |rest| + 1 :: (k - 1) * step + step == k * step;
      [start] + rest
  }

  /** The stripe stops at the first position that would reach `n`. */
  lemma {:induction false} StripeBound(start: nat, l: nat, n: nat, step: nat)
    requires step >= 1
    ensures start + l * step < n <==> l < |Stripe(start, n, step)|
    decreases l
  {
    if start < n && l > 0 {
      assert start + l * step == (start + step) + (l - 1) * step;
      StripeBound(start + step, l - 1, n, step);
    }
  }

  /** The position of an index in its worker's stripe is its local index:
      the stripe of pool `p` is exactly the set of indices below `n` that
      map to pool `p`, and the `k`-th of them maps to local `k`. */
  lemma StripeMapsToPool(p: nat, k: nat, n: nat, numPools: nat)
    requires p < numPools
    requires k < |Stripe(p, n, numPools)|
    ensures KlocToPool(Stripe(p, n, numPools)[k], numPools) == PoolIndex(p, k)
  {
    MapperBijection(Stripe(p, n, numPools)[k], PoolIndex(p, k), numPools);
  }

  /** Membership in the stripe of worker `p` holds iff the index is below
      `n` and maps to target pool `p`. */
  lemma StripeMembership(p: nat, i: nat, n: nat, numPools: nat)
    requires p < numPools
    ensures i in Stripe(p, n, numPools) <==> i < n && KlocToPool(i, numPools).pool == p
  {
    var s := Stripe(p, n, numPools);
    if i in s {
      var k :| 0 <= k < |s| && s[k] == i;
      StripeMapsToPool(p, k, n, numPools);
    }
    if i < n && KlocToPool(i, numPools).pool == p {
      var l := KlocToPool(i, numPools).local;
      StripeBound(p, l, n, numPools);
      assert s[l] == i;
    }
  }

  /** Every index below `n` lies in the stripe of exactly one worker: the
      one whose pool it maps to. So the stripes of pools `0 .. numPools-1`
      are pairwise disjoint and together cover `[0, n)`. */
  lemma StripesPartition(i: nat, n: nat, numPools: nat)
    requires numPools >= 1 && i < n
    ensures forall p | 0 <= p < numPools :: i in Stripe(p, n, numPools) <==> p == KlocToPool(i, numPools).pool
  {
    forall p | 0 <= p < numPools
      ensures i in Stripe(p, n, numPools) <==> p == KlocToPool(i, numPools).pool
    {
      StripeMembership(p, i, n, numPools);
    }
  }

  /** Sum of the stripe lengths of the `count` consecutive starts from `a`. */
  function SumStripeLengths(a: nat, count: nat, n: nat, step: nat): nat
    requires step >= 1
    decreases count
  {
    if count == 0 then 0 else |Stripe(a, n, step)| + SumStripeLengths(a + 1, count - 1, n, step)
  }

  lemma {:induction false} SumStripeLengthsSnoc(a: nat, count: nat, n: nat, step: nat)
    requires step >= 1
    ensures SumStripeLengths(a, count + 1, n, step) == SumStripeLengths(a, count, n, step) + |Stripe(a + count, n, step)|
    decreases count
  {
    if count > 0 {
      SumStripeLengthsSnoc(a + 1, count - 1, n, step);
    }
  }

  lemma {:induction false} SumStripeLengthsPast(a: nat, count: nat, n: nat, step: nat)
    requires step >= 1 && a >= n
    ensures SumStripeLengths(a, count, n, step) == 0
    decreases count
  {
    if count > 0 {
      SumStripeLengthsPast(a + 1, count - 1, n, step);
    }
  }

  lemma {:induction false} SumStripeLengthsFrom(a: nat, n: nat, step: nat)
    requires step >= 1
    ensures SumStripeLengths(a, step, n, step) == if a < n then n - a else 0
    decreases if a < n then n - a else 0
  {
    if a >= n {
      SumStripeLengthsPast(a, step, n, step);
    } else {
      SumStripeLengthsSnoc(a + 1, step - 1, n, step);
      SumStripeLengthsFrom(a + 1, n, step);
    }
  }

  /** The stripes of all target pools hold `n` indices in total: the local
      counts produced by the mapping sum to the number of k-points. */
  lemma StripeLengthsSum(n: nat, numPools: nat)
    requires numPools >= 1
    ensures SumStripeLengths(0, numPools, n, numPools) == n
  {
    SumStripeLengthsFrom(0, n, numPools);
  }

  /** Round-robin load balance: a later pool never holds more records than
      an earlier one, and never more than one fewer. */
  lemma {:induction false} StripeBalance(p: nat, q: nat, n: nat, numPools: nat)
    requires numPools >= 1 && p <= q < p + numPools
    ensures |Stripe(q, n, numPools)| <= |Stripe(p, n, numPools)| <= |Stripe(q, n, numPools)| + 1
    decreases if p < n then n - p else 0
  {
    if q < n {
      StripeBalance(p + numPools, q + numPools, n, numPools);
    } else if p < n {
      assert Stripe(p + numPools, n, numPools) == [];
    }
  }
}
