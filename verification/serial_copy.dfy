/** The serial reshape engine: `write_new_target_files`. */
module SerialCopy {
  import opened Mapper
  import opened Storage

  /** Copies every k-point, in increasing global order, from its slot in the
      `pSrc` source pool files to its slot in `pTgt` freshly created target
      files, setting the `eph_g2` field and then the `bands_index` field.
      The source set is a value and is never written. The result holds
      exactly the slots of k-points `0 .. n-1` under `pTgt` pools, each with
      both fields of the same k-point in the source: the reshaped set. */
  method WriteNewTargetFiles(src: Store, n: nat, pSrc: nat, pTgt: nat) returns (tgt: Store)
    requires pSrc >= 1 && pTgt >= 1 && Complete(src, n, pSrc)
    ensures tgt.eph.Keys == SlotsOf(n, pTgt) && tgt.bands.Keys == SlotsOf(n, pTgt)
    ensures forall i: nat | i < n :: tgt.eph[SlotOf(i, pTgt)] == src.eph[SlotOf(i, pSrc)]
    ensures forall i: nat | i < n :: tgt.bands[SlotOf(i, pTgt)] == src.bands[SlotOf(i, pSrc)]
    ensures tgt == Reshaped(src, n, pSrc, pTgt)
  {
    tgt := EmptyStore;
    var i: nat := 0;
    ReshapedNothing(src, pSrc, pTgt);
    while i < n
      invariant i <= n && Complete(src, i, pSrc)
      invariant tgt == Reshaped(src, i, pSrc, pTgt)
    {
      var s := KlocToPool(i, pSrc);
      var t := KlocToPool(i, pTgt);
      var srcSlot := Slot(s.pool + 1, s.local + 1);
      var tgtSlot := Slot(t.pool + 1, t.local + 1);
      assert srcSlot == SlotOf(i, pSrc) && tgtSlot == SlotOf(i, pTgt);
      ReshapedSnoc(src, i, pSrc, pTgt);
      tgt := tgt.SetEph(tgtSlot, src.eph[srcSlot]);
      tgt := tgt.SetBands(tgtSlot, src.bands[srcSlot]);
      i := i + 1;
    }
  }

  /** Before the first copy the target files are empty. */
  lemma ReshapedNothing(src: Store, pSrc: nat, pTgt: nat)
    requires pSrc >= 1 && pTgt >= 1
    ensures Complete(src, 0, pSrc)
    ensures Reshaped(src, 0, pSrc, pTgt) == EmptyStore
  {
    assert SlotsOf(0, pTgt) == {};
    var r := Reshaped(src, 0, pSrc, pTgt);
    assert r.eph == map[] && r.bands == map[];
  }

  /** One more pass of the loop: reshaping the first `i + 1` k-points is
      reshaping the first `i` and then writing both fields of k-point `i`
      at its target slot. */
  lemma ReshapedSnoc(src: Store, i: nat, pSrc: nat, pTgt: nat)
    requires pSrc >= 1 && pTgt >= 1 && Complete(src, i + 1, pSrc)
    ensures Complete(src, i, pSrc)
    ensures Reshaped(src, i + 1, pSrc, pTgt) ==
      Reshaped(src, i, pSrc, pTgt).SetEph(SlotOf(i, pTgt), src.eph[SlotOf(i, pSrc)]).SetBands(SlotOf(i, pTgt), src.bands[SlotOf(i, pSrc)])
  {
    var a := Reshaped(src, i + 1, pSrc, pTgt);
    var b := Reshaped(src, i, pSrc, pTgt);
    var slot := SlotOf(i, pTgt);
    var c := b.SetEph(slot, src.eph[SlotOf(i, pSrc)]).SetBands(slot, src.bands[SlotOf(i, pSrc)]);
    SlotsOfSnoc(i, pTgt);
    assert a.eph.Keys == c.eph.Keys && a.bands.Keys == c.bands.Keys;
    forall s | s in a.eph ensures a.eph[s] == c.eph[s] && a.bands[s] == c.bands[s] {
      InSlotsOf(s, i + 1, pTgt);
      var j := IndexOfSlot(s, pTgt);
      SlotRoundTrip(j, s, pTgt);
      if j < i {
        SlotOfInjectiveAt(i, pTgt);
        assert s != slot;
      }
    }
    MapExtensionality(a.eph, c.eph);
    MapExtensionality(a.bands, c.bands);
  }
}
