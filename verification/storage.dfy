/** The pool-file storage the reshape engine reads and writes, seen as two
    maps keyed by (pool number, local index), both 1-based as in the pool
    files themselves.

    Each record has two fields, the `eph_g2` payload and its `bands_index`
    array, set and read separately. Their contents are opaque to the engine;
    they are modelled as flat sequences and only ever compared for
    equality. */
module Storage {
  import opened Mapper

  type EphG2 = seq<real>
  type BandsIndex = seq<int>

  /** A storage key: `pool` selects the file (`pool_files[pool]`), `local`
      the record inside it; both start at 1. */
  datatype Slot = Slot(pool: nat, local: nat)

  /** A set of pool files, as the contents of their two record fields. */
  datatype Store = Store(eph: map<Slot, EphG2>, bands: map<Slot, BandsIndex>) {

    /** `set_eph_g2(local, value)` on file `s.pool`. */
    function SetEph(s: Slot, v: EphG2): Store {
      this.(eph := eph[s := v])
    }

    /** `set_bands_index(local, value)` on file `s.pool`. */
    function SetBands(s: Slot, v: BandsIndex): Store {
      this.(bands := bands[s := v])
    }

    /** Both fields are present at every slot of `slots`. */
    predicate HoldsAll(slots: set<Slot>) {
      slots <= eph.Keys && slots <= bands.Keys
    }
  }

  /** A freshly created, still empty set of target pool files. */
  const EmptyStore := Store(map[], map[])

  /** Where global k-point `i` is stored in a set of `numPools` pool files:
      the mapper's 0-based pair shifted to the files' 1-based keys. */
  function SlotOf(i: nat, numPools: nat): (s: Slot)
    requires numPools >= 1
    ensures 1 <= s.pool <= numPools && s.local >= 1
  {
    var pi := KlocToPool(i, numPools);
    Slot(pi.pool + 1, pi.local + 1)
  }

  /** The global k-point a 1-based slot stands for under `numPools` pools. */
  function IndexOfSlot(s: Slot, numPools: nat): nat
    requires s.pool >= 1 && s.local >= 1
  {
    GlobalIndex(PoolIndex(s.pool - 1, s.local - 1), numPools)
  }

  /** `IndexOfSlot` undoes `SlotOf`, and the other way round on the slots
      of files `1 .. numPools`. */
  lemma SlotRoundTrip(i: nat, s: Slot, numPools: nat)
    requires numPools >= 1
    ensures IndexOfSlot(SlotOf(i, numPools), numPools) == i
    ensures 1 <= s.pool <= numPools && s.local >= 1 ==> SlotOf(IndexOfSlot(s, numPools), numPools) == s
  {
    var pi := KlocToPool(i, numPools);
    assert IndexOfSlot(SlotOf(i, numPools), numPools) == pi.local * numPools + pi.pool;
    if 1 <= s.pool <= numPools && s.local >= 1 {
      MapperBijection(IndexOfSlot(s, numPools), PoolIndex(s.pool - 1, s.local - 1), numPools);
    }
  }

  /** The slots that k-points `0 .. n-1` occupy in `numPools` files. */
  function SlotsOf(n: nat, numPools: nat): set<Slot>
    requires numPools >= 1
  {
    set i: nat | i < n :: SlotOf(i, numPools)
  }

  /** A slot lies in `SlotsOf(n, P)` iff it is in files `1 .. P` and the
      k-point it stands for is below `n`. */
  lemma InSlotsOf(s: Slot, n: nat, numPools: nat)
    requires numPools >= 1
    ensures s in SlotsOf(n, numPools) <==> 1 <= s.pool <= numPools && s.local >= 1 && IndexOfSlot(s, numPools) < n
  {
    if s in SlotsOf(n, numPools) {
      var i: nat :| i < n && SlotOf(i, numPools) == s;
      SlotRoundTrip(i, s, numPools);
    }
    if 1 <= s.pool <= numPools && s.local >= 1 && IndexOfSlot(s, numPools) < n {
      SlotRoundTrip(IndexOfSlot(s, numPools), s, numPools);
    }
  }

  /** Growing the range of k-points by one adds exactly the next slot,
      which was not yet among them. */
  lemma SlotsOfSnoc(i: nat, numPools: nat)
    requires numPools >= 1
    ensures SlotsOf(i + 1, numPools) == SlotsOf(i, numPools) + {SlotOf(i, numPools)}
    ensures SlotOf(i, numPools) !in SlotsOf(i, numPools)
  {
    SlotOfInjectiveAt(i, numPools);
  }

  lemma SlotOfInjectiveAt(i: nat, numPools: nat)
    requires numPools >= 1
    ensures forall j: nat :: SlotOf(j, numPools) == SlotOf(i, numPools) ==> j == i
  {
    forall j: nat ensures SlotOf(j, numPools) == SlotOf(i, numPools) ==> j == i {
      SlotRoundTrip(i, Slot(0, 0), numPools);
      SlotRoundTrip(j, Slot(0, 0), numPools);
    }
  }

  /** Every k-point below `n` has an entry in `m` under `numPools` pools. */
  predicate Covers<V>(m: map<Slot, V>, n: nat, numPools: nat)
    requires numPools >= 1
  {
    forall i: nat | i < n :: SlotOf(i, numPools) in m
  }

  /** Both fields of every k-point below `n` are present in `st`. */
  predicate Complete(st: Store, n: nat, numPools: nat)
    requires numPools >= 1
  {
    Covers(st.eph, n, numPools) && Covers(st.bands, n, numPools)
  }

  /** One record field of every k-point moved from its slot under `pSrc`
      pools to its slot under `pTgt` pools. */
  function Moved<V>(m: map<Slot, V>, n: nat, pSrc: nat, pTgt: nat): (r: map<Slot, V>)
    requires pSrc >= 1 && pTgt >= 1 && Covers(m, n, pSrc)
    ensures r.Keys == SlotsOf(n, pTgt)
    ensures forall i: nat | i < n :: r[SlotOf(i, pTgt)] == m[SlotOf(i, pSrc)]
  {
    var slots := SlotsOf(n, pTgt);
    assert forall s | s in slots :: IndexOfSlot(s, pTgt) < n by {
      forall s | s in slots ensures IndexOfSlot(s, pTgt) < n {
        InSlotsOf(s, n, pTgt);
      }
    }
    var r := map s | s in slots :: m[SlotOf(IndexOfSlot(s, pTgt), pSrc)];
    assert forall i: nat | i < n :: SlotOf(i, pTgt) in slots && IndexOfSlot(SlotOf(i, pTgt), pTgt) == i by {
      forall i: nat | i < n ensures SlotOf(i, pTgt) in slots && IndexOfSlot(SlotOf(i, pTgt), pTgt) == i {
        SlotRoundTrip(i, Slot(0, 0), pTgt);
      }
    }
    r
  }

  lemma KeysCover<V>(m: map<Slot, V>, n: nat, numPools: nat)
    requires numPools >= 1 && m.Keys == SlotsOf(n, numPools)
    ensures Covers(m, n, numPools)
  {
    forall i: nat | i < n ensures SlotOf(i, numPools) in m {
      assert SlotOf(i, numPools) in SlotsOf(n, numPools);
    }
  }

  lemma MovedRoundTrip<V>(m: map<Slot, V>, n: nat, pSrc: nat, pTgt: nat)
    requires pSrc >= 1 && pTgt >= 1 && m.Keys == SlotsOf(n, pSrc)
    ensures Covers(m, n, pSrc) && Covers(Moved(m, n, pSrc, pTgt), n, pTgt)
    ensures Moved(Moved(m, n, pSrc, pTgt), n, pTgt, pSrc) == m
  {
    KeysCover(m, n, pSrc);
    var mid := Moved(m, n, pSrc, pTgt);
    KeysCover(mid, n, pTgt);
    var back := Moved(mid, n, pTgt, pSrc);
    assert forall s | s in m :: back[s] == m[s] by {
      forall s | s in m ensures back[s] == m[s] {
        MovedBack(m, mid, back, s, n, pSrc, pTgt);
      }
    }
    MapExtensionality(back, m);
  }

  lemma MapExtensionality<K, V>(a: map<K, V>, b: map<K, V>)
    requires a.Keys == b.Keys
    requires forall k | k in b :: a[k] == b[k]
    ensures a == b
  {
  }

  lemma MovedBack<V>(m: map<Slot, V>, mid: map<Slot, V>, back: map<Slot, V>, s: Slot, n: nat, pSrc: nat, pTgt: nat)
    requires pSrc >= 1 && pTgt >= 1 && m.Keys == SlotsOf(n, pSrc) && s in m
    requires Covers(m, n, pSrc) && mid == Moved(m, n, pSrc, pTgt)
    requires Covers(mid, n, pTgt) && back == Moved(mid, n, pTgt, pSrc)
    ensures back[s] == m[s]
  {
    InSlotsOf(s, n, pSrc);
    var i := IndexOfSlot(s, pSrc);
    SlotRoundTrip(i, s, pSrc);
    assert back[SlotOf(i, pSrc)] == mid[SlotOf(i, pTgt)];
  }

  /** The pool-file set that a reshape to `pTgt` pools must produce: each
      k-point's record moved from its source slot to its target slot. This
      is the reference both copy engines are proved against. */
  function Reshaped(src: Store, n: nat, pSrc: nat, pTgt: nat): (r: Store)
    requires pSrc >= 1 && pTgt >= 1 && Complete(src, n, pSrc)
    ensures r.eph.Keys == SlotsOf(n, pTgt) && r.bands.Keys == SlotsOf(n, pTgt)
    ensures forall i: nat | i < n :: r.eph[SlotOf(i, pTgt)] == src.eph[SlotOf(i, pSrc)]
    ensures forall i: nat | i < n :: r.bands[SlotOf(i, pTgt)] == src.bands[SlotOf(i, pSrc)]
  {
    Store(Moved(src.eph, n, pSrc, pTgt), Moved(src.bands, n, pSrc, pTgt))
  }

  /** Reshaping back to the original pool count restores every record at
      its original slot: P_src -> P_tgt -> P_src is the identity on a
      source set that holds exactly the k-points below `n`. */
  lemma ReshapeRoundTrip(src: Store, n: nat, pSrc: nat, pTgt: nat)
    requires pSrc >= 1 && pTgt >= 1
    requires src.eph.Keys == SlotsOf(n, pSrc) && src.bands.Keys == SlotsOf(n, pSrc)
    ensures Complete(src, n, pSrc)
    ensures Complete(Reshaped(src, n, pSrc, pTgt), n, pTgt)
    ensures Reshaped(Reshaped(src, n, pSrc, pTgt), n, pTgt, pSrc) == src
  {
    MovedRoundTrip(src.eph, n, pSrc, pTgt);
    MovedRoundTrip(src.bands, n, pSrc, pTgt);
  }

  /** The entries of `m` kept in the files numbered `lo .. hi`. */
  function RestrictPools<V>(m: map<Slot, V>, lo: nat, hi: nat): (r: map<Slot, V>)
    ensures r.Keys == set s | s in m && lo <= s.pool <= hi
    ensures forall s | s in r :: r[s] == m[s]
  {
    map s | s in m && lo <= s.pool <= hi :: m[s]
  }

  /** The records of `st` kept in the files numbered `lo .. hi`. */
  function PoolRange(st: Store, lo: nat, hi: nat): Store {
    Store(RestrictPools(st.eph, lo, hi), RestrictPools(st.bands, lo, hi))
  }

  /** The records of one pool file. */
  function PoolFile(st: Store, pool: nat): Store {
    PoolRange(st, pool, pool)
  }

  /** The pool files of several writers put together, later ones winning. */
  function Merge(parts: seq<Store>): Store {
    if |parts| == 0 then EmptyStore
    else
      var init := Merge(parts[..|parts| - 1]);
      var last := parts[|parts| - 1];
      Store(init.eph + last.eph, init.bands + last.bands)
  }

  lemma RestrictPoolsExtend<V>(m: map<Slot, V>, k: nat)
    requires k >= 1
    ensures RestrictPools(m, 1, k - 1) + RestrictPools(m, k, k) == RestrictPools(m, 1, k)
  {
    var u := RestrictPools(m, 1, k - 1) + RestrictPools(m, k, k);
    assert u.Keys == RestrictPools(m, 1, k).Keys;
  }

  /** Putting the files `1 .. k` of `st` back together, one file per writer,
      gives exactly the records of `st` in those files. */
  lemma {:induction false} MergePoolFiles(st: Store, parts: seq<Store>)
    requires forall p | 0 <= p < |parts| :: parts[p] == PoolFile(st, p + 1)
    ensures Merge(parts) == PoolRange(st, 1, |parts|)
    decreases |parts|
  {
    var k := |parts|;
    if k > 0 {
      MergePoolFiles(st, parts[..k - 1]);
      RestrictPoolsExtend(st.eph, k);
      RestrictPoolsExtend(st.bands, k);
    } else {
      assert RestrictPools(st.eph, 1, 0) == map[];
      assert RestrictPools(st.bands, 1, 0) == map[];
    }
  }

  /** A reshaped set is the merge of its `pTgt` pool files. */
  lemma ReshapedIsMergeOfFiles(src: Store, n: nat, pSrc: nat, pTgt: nat, parts: seq<Store>)
    requires pSrc >= 1 && pTgt >= 1 && Complete(src, n, pSrc)
    requires |parts| == pTgt
    requires forall p | 0 <= p < pTgt :: parts[p] == PoolFile(Reshaped(src, n, pSrc, pTgt), p + 1)
    ensures Merge(parts) == Reshaped(src, n, pSrc, pTgt)
  {
    var r := Reshaped(src, n, pSrc, pTgt);
    MergePoolFiles(r, parts);
    forall s | s in SlotsOf(n, pTgt) ensures 1 <= s.pool <= pTgt {
      InSlotsOf(s, n, pTgt);
    }
    RestrictNothing(r.eph, 1, pTgt);
    RestrictNothing(r.bands, 1, pTgt);
  }

  /** Restricting to a range of files that holds every entry keeps them
      all. */
  lemma RestrictNothing<V>(m: map<Slot, V>, lo: nat, hi: nat)
    requires forall s | s in m :: lo <= s.pool <= hi
    ensures RestrictPools(m, lo, hi) == m
  {
    MapExtensionality(RestrictPools(m, lo, hi), m);
  }
}
