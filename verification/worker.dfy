/** One worker of the parallel reshape engine:
    `mp_generate_perturbo_hdf5_file`.

    Worker `pool` creates the single target file `pool + 1`, walks its
    stripe `range(pool, N, P)` of global k-points, copies each record from
    its source slot into the next local position of its file, and reports
    progress on the shared queue. The wall-clock test that decides when to
    report is replaced by an arbitrary oracle `flush`, consulted after the
    record for global index `i` has been copied. */
module Worker {
  import opened Mapper
  import opened Storage

  /** A progress-queue message: `(pool, count)` or the sentinel
      `(pool, None)`. */
  datatype Message = Count(pool: nat, delta: nat) | Sentinel(pool: nat)

  /** The sum of the counts carried by the non-sentinel messages. */
  function SumCounts(msgs: seq<Message>): nat {
    if |msgs| == 0 then 0
    else
      var last := msgs[|msgs| - 1];
      SumCounts(msgs[..|msgs| - 1]) + (if last.Count? then last.delta else 0)
  }

  lemma {:induction false} SumCountsAppend(a: seq<Message>, b: seq<Message>)
    ensures SumCounts(a + b) == SumCounts(a) + SumCounts(b)
    decreases |b|
  {
    if |b| == 0 {
      assert a + b == a;
    } else {
      assert (a + b)[..|a + b| - 1] == a + b[..|b| - 1];
      SumCountsAppend(a, b[..|b| - 1]);
    }
  }

  /** The shape of every worker's message list: counts from this pool,
      closed by exactly one sentinel of this pool. */
  predicate WorkerStream(msgs: seq<Message>, pool: nat) {
    && |msgs| >= 1
    && msgs[|msgs| - 1] == Sentinel(pool)
    && forall j | 0 <= j < |msgs| - 1 :: msgs[j].Count? && msgs[j].pool == pool
  }

  /** The worker's local variables between two records: its target file,
      the file's `nk_loc`, the unreported `count`, and what it has put on
      the queue. */
  datatype WorkerState = WorkerState(file: Store, nkLoc: nat, count: nat, sent: seq<Message>)

  /** What a finished worker leaves behind. */
  datatype WorkerResult = WorkerResult(file: Store, nkLoc: nat, messages: seq<Message>)

  /** Local index `l + 1` of file `pool + 1` holds both fields of the
      `l`-th k-point of the stripe, as read from its source slot. */
  ghost predicate RecordAt(st: Store, src: Store, n: nat, pSrc: nat, pool: nat, numPools: nat, l: nat)
    requires pSrc >= 1 && pool < numPools && Complete(src, n, pSrc)
    requires l < |Stripe(pool, n, numPools)|
  {
    var from := SlotOf(Stripe(pool, n, numPools)[l], pSrc);
    var at := Slot(pool + 1, l + 1);
    && at in st.eph && st.eph[at] == src.eph[from]
    && at in st.bands && st.bands[at] == src.bands[from]
  }

  /** Slot `s` is one of the first `k` local indices of file `pool + 1`. */
  predicate InFile(s: Slot, pool: nat, k: nat) {
    s.pool == pool + 1 && 1 <= s.local <= k
  }

  /** The first `k` records of file `pool + 1` hold the source records of
      the first `k` k-points of the stripe, and nothing else is written. */
  ghost predicate FilledUpTo(st: Store, src: Store, n: nat, pSrc: nat, pool: nat, numPools: nat, k: nat)
    requires pSrc >= 1 && pool < numPools && Complete(src, n, pSrc)
    requires k <= |Stripe(pool, n, numPools)|
  {
    && (forall s :: s in st.eph <==> InFile(s, pool, k))
    && (forall s :: s in st.bands <==> InFile(s, pool, k))
    && (forall l: nat | l < k :: RecordAt(st, src, n, pSrc, pool, numPools, l))
  }

  /** One pass of the loop body: copy both fields of the `k`-th k-point of
      the stripe from its source slot to the slot its target pair names.
      The source's own assert holds: the target pool of the k-point is this
      worker's pool. Its target local index is `k`, the value `nk_loc` has
      reached, so the record lands right after the ones already written. */
  function CopyRecord(file: Store, src: Store, n: nat, pSrc: nat, pool: nat, numPools: nat, k: nat): (r: Store)
    requires pSrc >= 1 && pool < numPools && Complete(src, n, pSrc)
    requires k < |Stripe(pool, n, numPools)|
    ensures KlocToPool(Stripe(pool, n, numPools)[k], numPools) == PoolIndex(pool, k)
    ensures r.eph == file.eph[Slot(pool + 1, k + 1) := src.eph[SlotOf(Stripe(pool, n, numPools)[k], pSrc)]]
    ensures r.bands == file.bands[Slot(pool + 1, k + 1) := src.bands[SlotOf(Stripe(pool, n, numPools)[k], pSrc)]]
  {
    var i := Stripe(pool, n, numPools)[k];
    var s := KlocToPool(i, pSrc);
    var t := KlocToPool(i, numPools);
    StripeMapsToPool(pool, k, n, numPools);
    assert SlotOf(i, pSrc) in src.eph && SlotOf(i, pSrc) in src.bands;
    var srcSlot := Slot(s.pool + 1, s.local + 1);
    var tgtSlot := Slot(t.pool + 1, t.local + 1);
    file.SetEph(tgtSlot, src.eph[srcSlot]).SetBands(tgtSlot, src.bands[srcSlot])
  }

  /** Target file `pool + 1` after the records of the first `k` k-points of
      the stripe have been copied into the newly created file. */
  function Filled(src: Store, n: nat, pSrc: nat, pool: nat, numPools: nat, k: nat): (r: Store)
    requires pSrc >= 1 && pool < numPools && Complete(src, n, pSrc)
    requires k <= |Stripe(pool, n, numPools)|
  {
    if k == 0 then EmptyStore
    else CopyRecord(Filled(src, n, pSrc, pool, numPools, k - 1), src, n, pSrc, pool, numPools, k - 1)
  }

  /** The file after `k` copies holds exactly the first `k` records of
      the stripe, each at its local index. */
  lemma FilledContents(src: Store, n: nat, pSrc: nat, pool: nat, numPools: nat, k: nat)
    requires pSrc >= 1 && pool < numPools && Complete(src, n, pSrc)
    requires k <= |Stripe(pool, n, numPools)|
    ensures FilledUpTo(Filled(src, n, pSrc, pool, numPools, k), src, n, pSrc, pool, numPools, k)
  {
    FilledKeys(src, n, pSrc, pool, numPools, k);
    FilledValues(src, n, pSrc, pool, numPools, k);
  }

  lemma {:induction false} FilledKeys(src: Store, n: nat, pSrc: nat, pool: nat, numPools: nat, k: nat)
    requires pSrc >= 1 && pool < numPools && Complete(src, n, pSrc)
    requires k <= |Stripe(pool, n, numPools)|
    ensures forall s :: s in Filled(src, n, pSrc, pool, numPools, k).eph <==> InFile(s, pool, k)
    ensures forall s :: s in Filled(src, n, pSrc, pool, numPools, k).bands <==> InFile(s, pool, k)
  {
    if k > 0 {
      FilledKeys(src, n, pSrc, pool, numPools, k - 1);
      var prev := Filled(src, n, pSrc, pool, numPools, k - 1);
      var cur := Filled(src, n, pSrc, pool, numPools, k);
      assert cur == CopyRecord(prev, src, n, pSrc, pool, numPools, k - 1);
      var slot := Slot(pool + 1, k);
      forall s ensures (s in cur.eph <==> InFile(s, pool, k)) && (s in cur.bands <==> InFile(s, pool, k)) {
        assert InFile(s, pool, k) <==> InFile(s, pool, k - 1) || s == slot;
        assert s in cur.eph <==> s in prev.eph || s == slot;
        assert s in cur.bands <==> s in prev.bands || s == slot;
      }
    }
  }

  lemma {:induction false} FilledValues(src: Store, n: nat, pSrc: nat, pool: nat, numPools: nat, k: nat)
    requires pSrc >= 1 && pool < numPools && Complete(src, n, pSrc)
    requires k <= |Stripe(pool, n, numPools)|
    ensures forall l: nat | l < k :: RecordAt(Filled(src, n, pSrc, pool, numPools, k), src, n, pSrc, pool, numPools, l)
  {
    if k > 0 {
      FilledValues(src, n, pSrc, pool, numPools, k - 1);
      var prev := Filled(src, n, pSrc, pool, numPools, k - 1);
      var cur := Filled(src, n, pSrc, pool, numPools, k);
      assert cur == CopyRecord(prev, src, n, pSrc, pool, numPools, k - 1);
      forall l: nat | l < k ensures RecordAt(cur, src, n, pSrc, pool, numPools, l) {
        if l < k - 1 {
          assert RecordAt(prev, src, n, pSrc, pool, numPools, l);
          assert Slot(pool + 1, l + 1) != Slot(pool + 1, k);
        }
      }
    }
  }

  /** The loop over the stripe from its `k`-th k-point on, started with
      `nk_loc = k`, the file holding the first `k` records and the
      unreported `count` in `st`. Each step copies one record, bumps
      `nk_loc` and `count`, and on a flush sends `(pool, count)` and resets
      `count` to 0. The result's `sent` lists the messages this part of the
      loop sends: progress reports of this pool, none of them empty, that
      together with the final unreported `count` account for the starting
      `count` plus every record copied. */
  function RunStripe(src: Store, n: nat, pSrc: nat, pool: nat, numPools: nat, flush: nat -> bool,
                     k: nat, st: WorkerState): (r: WorkerState)
    requires pSrc >= 1 && pool < numPools && Complete(src, n, pSrc)
    requires k <= |Stripe(pool, n, numPools)|
    requires st.nkLoc == k && st.file == Filled(src, n, pSrc, pool, numPools, k)
    ensures r.nkLoc == |Stripe(pool, n, numPools)|
    ensures r.file == Filled(src, n, pSrc, pool, numPools, |Stripe(pool, n, numPools)|)
    ensures forall j | 0 <= j < |r.sent| :: r.sent[j].Count? && r.sent[j].pool == pool && r.sent[j].delta >= 1
    ensures SumCounts(r.sent) + r.count == st.count + (|Stripe(pool, n, numPools)| - k)
    decreases |Stripe(pool, n, numPools)| - k
  {
    var stripe := Stripe(pool, n, numPools);
    if k == |stripe| then WorkerState(st.file, st.nkLoc, st.count, [])
    else
      var file := CopyRecord(st.file, src, n, pSrc, pool, numPools, k);
      var count := st.count + 1;
      if flush(stripe[k]) then
        var r := RunStripe(src, n, pSrc, pool, numPools, flush, k + 1, WorkerState(file, k + 1, 0, []));
        ReportPrepended(pool, count, r.sent);
        r.(sent := [Count(pool, count)] + r.sent)
      else
        RunStripe(src, n, pSrc, pool, numPools, flush, k + 1, WorkerState(file, k + 1, count, []))
  }

  /** A progress report sent before other messages adds its count. */
  lemma ReportPrepended(pool: nat, count: nat, sent: seq<Message>)
    ensures SumCounts([Count(pool, count)] + sent) == count + SumCounts(sent)
  {
    SumCountsAppend([Count(pool, count)], sent);
    assert [Count(pool, count)][..0] == [];
  }

  /** `mp_generate_perturbo_hdf5_file`: run the whole stripe from an empty
      file with `nk_loc = 0` and `count = 0`, then send the remainder
      `(pool, count)` and the sentinel `(pool, None)`. */
  function GenerateFile(src: Store, n: nat, pSrc: nat, pool: nat, numPools: nat, flush: nat -> bool): (out: WorkerResult)
    requires pSrc >= 1 && pool < numPools && Complete(src, n, pSrc)
    ensures out.nkLoc == |Stripe(pool, n, numPools)|
    ensures out.file == Filled(src, n, pSrc, pool, numPools, |Stripe(pool, n, numPools)|)
    ensures WorkerStream(out.messages, pool)
    ensures SumCounts(out.messages) == |Stripe(pool, n, numPools)|
    ensures |out.messages| >= 2 && out.messages[|out.messages| - 2].Count?
    ensures forall j | 0 <= j < |out.messages| - 2 :: out.messages[j].delta >= 1
  {
    var init := WorkerState(EmptyStore, 0, 0, []);
    var st := RunStripe(src, n, pSrc, pool, numPools, flush, 0, init);
    WorkerResult(st.file, st.nkLoc, CloseStream(st.sent, pool, st.count))
  }

  /** The end of the worker: after the progress reports sent along the
      way, the remainder `(pool, count)` and then the sentinel. The
      remainder may be 0; no other report is. */
  function CloseStream(sent: seq<Message>, pool: nat, count: nat): (msgs: seq<Message>)
    requires forall j | 0 <= j < |sent| :: sent[j].Count? && sent[j].pool == pool && sent[j].delta >= 1
    ensures WorkerStream(msgs, pool)
    ensures SumCounts(msgs) == SumCounts(sent) + count
    ensures |msgs| >= 2 && msgs[|msgs| - 2] == Count(pool, count)
    ensures forall j | 0 <= j < |msgs| - 2 :: msgs[j].delta >= 1
  {
    var withCount := sent + [Count(pool, count)];
    var msgs := withCount + [Sentinel(pool)];
    assert msgs[..|msgs| - 1] == withCount;
    assert withCount[..|withCount| - 1] == sent;
    msgs
  }

  /** Slot `s` of target file `pool + 1` is a slot of the reshaped set iff
      its local index is within the worker's stripe length. */
  lemma PoolFileSlot(s: Slot, n: nat, pool: nat, numPools: nat)
    requires pool < numPools && s.pool == pool + 1
    ensures s in SlotsOf(n, numPools) <==> 1 <= s.local <= |Stripe(pool, n, numPools)|
  {
    InSlotsOf(s, n, numPools);
    if s.local >= 1 {
      StripeBound(pool, s.local - 1, n, numPools);
      assert IndexOfSlot(s, numPools) == pool + (s.local - 1) * numPools;
    }
  }

  /** The slots of pool file `pool + 1` of the reshaped set are the
      first stripe-length local indices of that file. */
  lemma PoolFileKeys(src: Store, n: nat, pSrc: nat, pool: nat, numPools: nat)
    requires pSrc >= 1 && pool < numPools && Complete(src, n, pSrc)
    ensures forall s :: s in PoolFile(Reshaped(src, n, pSrc, numPools), pool + 1).eph <==> InFile(s, pool, |Stripe(pool, n, numPools)|)
    ensures forall s :: s in PoolFile(Reshaped(src, n, pSrc, numPools), pool + 1).bands <==> InFile(s, pool, |Stripe(pool, n, numPools)|)
  {
    var r := Reshaped(src, n, pSrc, numPools);
    var want := PoolFile(r, pool + 1);
    forall s ensures (s in want.eph <==> InFile(s, pool, |Stripe(pool, n, numPools)|))
      && (s in want.bands <==> InFile(s, pool, |Stripe(pool, n, numPools)|))
    {
      assert s in want.eph <==> s in r.eph && s.pool == pool + 1;
      assert s in want.bands <==> s in r.bands && s.pool == pool + 1;
      if s.pool == pool + 1 {
        PoolFileSlot(s, n, pool, numPools);
      }
    }
  }

  /** Local index `l + 1` of pool file `pool + 1` of the reshaped set holds
      the record of the `l`-th k-point of the stripe. */
  lemma PoolFileRecord(src: Store, n: nat, pSrc: nat, pool: nat, numPools: nat, l: nat)
    requires pSrc >= 1 && pool < numPools && Complete(src, n, pSrc)
    requires l < |Stripe(pool, n, numPools)|
    ensures RecordAt(PoolFile(Reshaped(src, n, pSrc, numPools), pool + 1), src, n, pSrc, pool, numPools, l)
  {
    var r := Reshaped(src, n, pSrc, numPools);
    var want := PoolFile(r, pool + 1);
    var i := Stripe(pool, n, numPools)[l];
    StripeMapsToPool(pool, l, n, numPools);
    var at := SlotOf(i, numPools);
    assert at == Slot(pool + 1, l + 1);
    assert at in r.eph && at in r.bands;
    assert r.eph[at] == src.eph[SlotOf(i, pSrc)] && r.bands[at] == src.bands[SlotOf(i, pSrc)];
    assert at in want.eph && want.eph[at] == r.eph[at];
    assert at in want.bands && want.bands[at] == r.bands[at];
  }

  /** Two files that both hold exactly the first `k` records of the stripe
      are the same file. */
  lemma FilledUnique(a: Store, b: Store, src: Store, n: nat, pSrc: nat, pool: nat, numPools: nat, k: nat)
    requires pSrc >= 1 && pool < numPools && Complete(src, n, pSrc)
    requires k <= |Stripe(pool, n, numPools)|
    requires FilledUpTo(a, src, n, pSrc, pool, numPools, k) && FilledUpTo(b, src, n, pSrc, pool, numPools, k)
    ensures a == b
  {
    assert a.eph.Keys == b.eph.Keys && a.bands.Keys == b.bands.Keys;
    forall s | s in b.eph ensures a.eph[s] == b.eph[s] && a.bands[s] == b.bands[s] {
      var l: nat := s.local - 1;
      assert s == Slot(pool + 1, l + 1);
      assert RecordAt(a, src, n, pSrc, pool, numPools, l) && RecordAt(b, src, n, pSrc, pool, numPools, l);
    }
    MapExtensionality(a.eph, b.eph);
    MapExtensionality(a.bands, b.bands);
  }

  /** A file filled along the whole stripe is pool file `pool + 1` of the
      reshaped set. */
  lemma FilledIsPoolFile(f: Store, src: Store, n: nat, pSrc: nat, pool: nat, numPools: nat)
    requires pSrc >= 1 && pool < numPools && Complete(src, n, pSrc)
    requires FilledUpTo(f, src, n, pSrc, pool, numPools, |Stripe(pool, n, numPools)|)
    ensures f == PoolFile(Reshaped(src, n, pSrc, numPools), pool + 1)
  {
    var want := PoolFile(Reshaped(src, n, pSrc, numPools), pool + 1);
    PoolFileKeys(src, n, pSrc, pool, numPools);
    forall l: nat | l < |Stripe(pool, n, numPools)| ensures RecordAt(want, src, n, pSrc, pool, numPools, l) {
      PoolFileRecord(src, n, pSrc, pool, numPools, l);
    }
    FilledUnique(f, want, src, n, pSrc, pool, numPools, |Stripe(pool, n, numPools)|);
  }

  /** The file a worker fills is exactly pool file `pool + 1` of the
      reshaped set: every target slot of that file is written by this
      worker, with the record the serial engine puts there, and the worker
      writes nowhere else. */
  lemma WorkerFileIsPoolFile(src: Store, n: nat, pSrc: nat, pool: nat, numPools: nat, flush: nat -> bool)
    requires pSrc >= 1 && pool < numPools && Complete(src, n, pSrc)
    ensures GenerateFile(src, n, pSrc, pool, numPools, flush).file == PoolFile(Reshaped(src, n, pSrc, numPools), pool + 1)
  {
    FilledContents(src, n, pSrc, pool, numPools, |Stripe(pool, n, numPools)|);
    FilledIsPoolFile(GenerateFile(src, n, pSrc, pool, numPools, flush).file, src, n, pSrc, pool, numPools);
  }

  /** Parallel/serial equivalence: whatever the flush choices, the files of
      workers `0 .. numPools-1` together form the reshaped set that the
      serial engine writes. */
  lemma ParallelMatchesReshaped(src: Store, n: nat, pSrc: nat, numPools: nat, flush: nat -> bool, files: seq<Store>)
    requires pSrc >= 1 && numPools >= 1 && Complete(src, n, pSrc)
    requires |files| == numPools
    requires forall p | 0 <= p < numPools :: files[p] == GenerateFile(src, n, pSrc, p, numPools, flush).file
    ensures Merge(files) == Reshaped(src, n, pSrc, numPools)
  {
    forall p | 0 <= p < numPools
      ensures files[p] == PoolFile(Reshaped(src, n, pSrc, numPools), p + 1)
    {
      WorkerFileIsPoolFile(src, n, pSrc, p, numPools, flush);
    }
    ReshapedIsMergeOfFiles(src, n, pSrc, numPools, files);
  }
}
