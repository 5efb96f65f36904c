/** The coordinator side of the parallel reshape engine: the progress loop
    of `mp_write_new_target_files`.

    The shared queue is modelled by the sequence `q` of messages in the
    order the coordinator receives them. Workers run without any ordering
    between them, so `q` may be any interleaving of their message lists:
    all that is fixed is that the messages of pool `p`, picked out of `q`
    in order, are that worker's list. */
module Aggregator {
  import opened Mapper
  import opened Storage
  import opened Worker

  /** The messages of `q` sent by pool `p`, in queue order. */
  function Project(q: seq<Message>, p: nat): (r: seq<Message>)
    ensures forall j | 0 <= j < |r| :: r[j].pool == p
  {
    if |q| == 0 then []
    else
      var last := q[|q| - 1];
      Project(q[..|q| - 1], p) + (if last.pool == p then [last] else [])
  }

  lemma {:induction false} ProjectAppend(a: seq<Message>, b: seq<Message>, p: nat)
    ensures Project(a + b, p) == Project(a, p) + Project(b, p)
    decreases |b|
  {
    if |b| == 0 {
      assert a + b == a;
    } else {
      assert (a + b)[..|a + b| - 1] == a + b[..|b| - 1];
      ProjectAppend(a, b[..|b| - 1], p);
    }
  }

  lemma {:induction false} ProjectKeeps(q: seq<Message>, k: nat)
    requires k < |q|
    ensures q[k] in Project(q, q[k].pool)
    decreases |q|
  {
    if k < |q| - 1 {
      assert q[..|q| - 1][k] == q[k];
      ProjectKeeps(q[..|q| - 1], k);
    }
  }

  lemma {:induction false} ProjectOnlyFrom(q: seq<Message>, p: nat, m: Message)
    requires m in Project(q, p)
    ensures m in q
    decreases |q|
  {
    if m !in Project(q[..|q| - 1], p) {
      assert m == q[|q| - 1];
    } else {
      ProjectOnlyFrom(q[..|q| - 1], p, m);
    }
  }

  /** The queue is an interleaving of complete worker message lists, one per
      pool `0 .. numPools-1`: every message comes from one of those pools,
      and each pool's messages, in order, are counts closed by exactly one
      sentinel. */
  ghost predicate WorkerQueue(q: seq<Message>, numPools: nat) {
    && (forall j | 0 <= j < |q| :: q[j].pool < numPools)
    && (forall p | 0 <= p < numPools :: WorkerStream(Project(q, p), p))
  }

  lemma SentinelIsLast(msgs: seq<Message>, pool: nat, i: nat)
    requires WorkerStream(msgs, pool) && i < |msgs| && msgs[i].Sentinel?
    ensures i == |msgs| - 1
  {
  }

  lemma ProjectEmpty(q: seq<Message>, p: nat)
    requires Project(q, p) == []
    ensures forall k | 0 <= k < |q| :: q[k].pool != p
  {
    forall k | 0 <= k < |q| ensures q[k].pool != p {
      ProjectKeeps(q, k);
    }
  }

  /** Once pool `p` has sent its sentinel at position `j`, no later message
      of pool `p` is on the queue. */
  lemma NothingAfterSentinel(q: seq<Message>, numPools: nat, j: nat, k: nat)
    requires WorkerQueue(q, numPools)
    requires j < k < |q| && q[j].Sentinel?
    ensures q[k].pool != q[j].pool
  {
    var p := q[j].pool;
    assert q == q[..j + 1] + q[j + 1..];
    ProjectAppend(q[..j + 1], q[j + 1..], p);
    var a := Project(q[..j + 1], p);
    var b := Project(q[j + 1..], p);
    assert q[..j + 1] == q[..j] + [q[j]];
    ProjectAppend(q[..j], [q[j]], p);
    assert [q[j]][..0] == [];
    assert a[|a| - 1] == q[j];
    var all := Project(q, p);
    assert all[|a| - 1] == q[j];
    SentinelIsLast(all, p, |a| - 1);
    assert b == [];
    ProjectEmpty(q[j + 1..], p);
    assert q[j + 1..][k - j - 1] == q[k];
  }

  /** Every pool below `numPools` has sent its sentinel among the first `j`
      messages. */
  predicate AllFinished(q: seq<Message>, j: nat, numPools: nat)
    requires j <= |q|
  {
    forall p | 0 <= p < numPools :: Sentinel(p) in q[..j]
  }

  /** The pools still running after the first `j` messages. */
  function Running(q: seq<Message>, j: nat, numPools: nat): (r: set<nat>)
    requires j <= |q|
    ensures r == {} <==> AllFinished(q, j, numPools)
  {
    var r := set p: nat | p < numPools && Sentinel(p) !in q[..j];
    assert AllFinished(q, j, numPools) ==> r == {};
    assert r == {} ==> AllFinished(q, j, numPools) by {
      if r == {} {
        forall p | 0 <= p < numPools ensures Sentinel(p) in q[..j] {
          assert p !in r;
        }
      }
    }
    r
  }

  /** The pools `0 .. k-1`: the keys of the coordinator's initial task
      table. */
  function PoolsBelow(k: nat): (r: set<nat>)
    ensures forall p: nat :: p in r <==> p < k
  {
    if k == 0 then {} else PoolsBelow(k - 1) + {k - 1}
  }

  /** The monitoring loop of `mp_write_new_target_files`: start with every
      target pool running, take messages off the queue one by one, add each
      count to the total, and drop a pool when its sentinel arrives; stop
      when no pool is running. The loop reads the whole queue and nothing
      beyond it, stops at the first moment every pool has sent its
      sentinel, never sees a sentinel for a pool it has already dropped (the
      `del` cannot fail), and its total is the sum of all counts sent. */
  method MonitorWorkers(q: seq<Message>, numPools: nat) returns (count: nat, consumed: nat)
    requires WorkerQueue(q, numPools)
    ensures consumed == |q|
    ensures AllFinished(q, consumed, numPools)
    ensures forall j | 0 <= j < consumed :: !AllFinished(q, j, numPools)
    ensures count == SumCounts(q)
  {
    var tasks: set<nat> := PoolsBelow(numPools);
    count := 0;
    consumed := 0;
    assert q[..0] == [];
    assert tasks == Running(q, 0, numPools);
    while |tasks| > 0
      invariant consumed <= |q|
      invariant tasks == Running(q, consumed, numPools)
      invariant count == SumCounts(q[..consumed])
      invariant forall j | 0 <= j < consumed :: !AllFinished(q, j, numPools)
      decreases |q| - consumed
    {
      MonitorStep(q, numPools, consumed);
      var msg := q[consumed];
      match msg {
        case Sentinel(p) =>
          assert p in tasks;
          tasks := tasks - {p};
        case Count(_, delta) =>
          count := count + delta;
      }
      consumed := consumed + 1;
    }
    assert AllFinished(q, consumed, numPools);
    if consumed < |q| {
      var p := q[consumed].pool;
      assert Sentinel(p) in q[..consumed];
      var j :| 0 <= j < consumed && q[..consumed][j] == Sentinel(p);
      NothingAfterSentinel(q, numPools, j, consumed);
    }
    assert q[..consumed] == q;
  }

  /** One pass of the monitoring loop while some pool is still running:
      there is a message left, the pools are not all finished yet, a
      sentinel comes from a running pool, and taking the message drops its
      pool if it is a sentinel and adds its count otherwise. */
  lemma MonitorStep(q: seq<Message>, numPools: nat, consumed: nat)
    requires WorkerQueue(q, numPools) && consumed <= |q|
    requires Running(q, consumed, numPools) != {}
    ensures consumed < |q| && !AllFinished(q, consumed, numPools)
    ensures q[consumed].Sentinel? ==> q[consumed].pool in Running(q, consumed, numPools)
    ensures Running(q, consumed + 1, numPools) ==
      if q[consumed].Sentinel? then Running(q, consumed, numPools) - {q[consumed].pool}
      else Running(q, consumed, numPools)
    ensures SumCounts(q[..consumed + 1]) == SumCounts(q[..consumed]) + (if q[consumed].Count? then q[consumed].delta else 0)
  {
    var p0 :| p0 in Running(q, consumed, numPools);
    assert Sentinel(p0) in q by {
      var s := Project(q, p0);
      assert s[|s| - 1] == Sentinel(p0);
      ProjectOnlyFrom(q, p0, Sentinel(p0));
    }
    assert consumed < |q|;
    var msg := q[consumed];
    assert q[..consumed + 1] == q[..consumed] + [msg];
    assert q[..consumed + 1][..consumed] == q[..consumed];
    if msg.Sentinel? {
      var p := msg.pool;
      if Sentinel(p) in q[..consumed] {
        var j :| 0 <= j < consumed && q[..consumed][j] == Sentinel(p);
        NothingAfterSentinel(q, numPools, j, consumed);
      }
    }
  }

  /** Sum of the counts that pools `0 .. k-1` put on the queue. */
  function SumByPool(q: seq<Message>, k: nat): nat {
    SumBelow(PoolSums(q), k)
  }

  /** The sum `t(0) + ... + t(k-1)` of per-pool totals. */
  function SumBelow(t: nat -> nat, k: nat): nat {
    if k == 0 then 0 else SumBelow(t, k - 1) + t(k - 1)
  }

  /** Raising one pool's total by `d` raises the sum over pools
      `0 .. k-1` by `d` when that pool is among them, and leaves it
      otherwise. */
  lemma {:induction false} SumBelowShift(f: nat -> nat, g: nat -> nat, i: nat, d: nat, k: nat)
    requires forall p: nat | p < k :: g(p) == f(p) + (if p == i then d else 0)
    ensures SumBelow(g, k) == SumBelow(f, k) + (if i < k then d else 0)
    decreases k
  {
    if k > 0 {
      SumBelowShift(f, g, i, d, k - 1);
    }
  }

  /** Each pool's total on a queue. */
  function PoolSums(q: seq<Message>): nat -> nat {
    p => SumCounts(Project(q, p))
  }

  /** A message appended to the queue adds its count to its own pool's
      sum only. */
  lemma ProjectSnocSum(q: seq<Message>, m: Message, p: nat)
    ensures SumCounts(Project(q + [m], p)) == SumCounts(Project(q, p)) + (if m.pool == p && m.Count? then m.delta else 0)
  {
    assert (q + [m])[..|q|] == q;
    var s := Project(q, p);
    if m.pool == p {
      assert Project(q + [m], p) == s + [m];
      assert (s + [m])[..|s|] == s;
    } else {
      assert Project(q + [m], p) == s + [];
      assert s + [] == s;
    }
  }

  /** No message is counted twice or lost: the sum over the whole queue is
      the sum, over the pools, of what each pool sent. */
  lemma {:induction false} SumCountsByPool(q: seq<Message>, numPools: nat)
    requires forall j | 0 <= j < |q| :: q[j].pool < numPools
    ensures SumCounts(q) == SumByPool(q, numPools)
    decreases |q|
  {
    if |q| == 0 {
      SumByPoolEmpty(numPools);
    } else {
      var init := q[..|q| - 1];
      SumCountsByPool(init, numPools);
      var last := q[|q| - 1];
      assert init + [last] == q;
      var d := if last.Count? then last.delta else 0;
      forall p: nat | p < numPools
        ensures PoolSums(q)(p) == PoolSums(init)(p) + (if p == last.pool then d else 0)
      {
        ProjectSnocSum(init, last, p);
      }
      SumBelowShift(PoolSums(init), PoolSums(q), last.pool, d, numPools);
    }
  }

  lemma {:induction false} SumByPoolEmpty(k: nat)
    ensures SumByPool([], k) == 0
    decreases k
  {
    if k > 0 {
      SumByPoolEmpty(k - 1);
    }
  }

  /** Progress accounting: when pool `p`'s messages on the queue are those
      of the worker for pool `p`, for every target pool, the counts on the
      whole queue add up to the number of k-points, whatever the
      interleaving and whatever the flush choices. */
  lemma ProgressTotal(q: seq<Message>, src: Store, n: nat, pSrc: nat, numPools: nat, flush: nat -> bool)
    requires pSrc >= 1 && numPools >= 1 && Complete(src, n, pSrc)
    requires forall j | 0 <= j < |q| :: q[j].pool < numPools
    requires forall p | 0 <= p < numPools :: Project(q, p) == GenerateFile(src, n, pSrc, p, numPools, flush).messages
    ensures WorkerQueue(q, numPools)
    ensures SumCounts(q) == n
  {
    forall p | 0 <= p < numPools
      ensures WorkerStream(Project(q, p), p)
      ensures SumCounts(Project(q, p)) == |Stripe(p, n, numPools)|
    {
      var out := GenerateFile(src, n, pSrc, p, numPools, flush);
      assert Project(q, p) == out.messages;
    }
    SumCountsByPool(q, numPools);
    SumByPoolIsStripeTotal(q, n, numPools, numPools);
    StripeLengthsSum(n, numPools);
  }

  lemma {:induction false} SumByPoolIsStripeTotal(q: seq<Message>, n: nat, numPools: nat, k: nat)
    requires numPools >= 1 && k <= numPools
    requires forall p | 0 <= p < numPools :: SumCounts(Project(q, p)) == |Stripe(p, n, numPools)|
    ensures SumByPool(q, k) == SumStripeLengths(0, k, n, numPools)
    decreases k
  {
    if k > 0 {
      SumByPoolIsStripeTotal(q, n, numPools, k - 1);
      var p := k - 1;
      assert SumCounts(Project(q, p)) == |Stripe(p, n, numPools)|;
      SumByPoolStep(q, n, numPools, k);
    }
  }

  lemma SumByPoolStep(q: seq<Message>, n: nat, numPools: nat, k: nat)
    requires numPools >= 1 && k >= 1
    requires SumByPool(q, k - 1) == SumStripeLengths(0, k - 1, n, numPools)
    requires SumCounts(Project(q, k - 1)) == |Stripe(k - 1, n, numPools)|
    ensures SumByPool(q, k) == SumStripeLengths(0, k, n, numPools)
  {
    SumStripeLengthsSnoc(0, k - 1, n, numPools);
  }
}
