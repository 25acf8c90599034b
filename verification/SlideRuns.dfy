/** Runs over the slide store: what many writes leave, and how many begins spread the wear. */
module SlideRuns {
  import opened Base
  import opened SlideFlash

  // ---- Many writes, one slide ----------------------------------------------

  datatype Write = Write(offset: nat, bytes: seq<bv8>)

  /** What a slide holds after its writes, in order. */
  function AllMerged(writes: seq<Write>): map<nat, bv8> {
    if writes == [] then map[]
    else
      var last := writes[|writes| - 1];
      Merged(AllMerged(writes[..|writes| - 1]), last.offset, last.bytes)
  }

  predicate Covers(w: Write, o: nat) {
    InRange(o, w.offset, |w.bytes|)
  }

  /** Wherever two writes overlap they store the same bytes. */
  ghost predicate Agree(a: Write, b: Write) {
    forall o: nat :: Covers(a, o) && Covers(b, o) ==> a.bytes[o - a.offset] == b.bytes[o - b.offset]
  }

  ghost predicate ReadsBack(contents: map<nat, bv8>, w: Write) {
    forall o: nat :: Covers(w, o) ==> o in contents && contents[o] == w.bytes[o - w.offset]
  }

  lemma {:induction false} MergedCovers(writes: seq<Write>, o: nat)
    ensures o in AllMerged(writes) <==> exists i: nat :: i < |writes| && Covers(writes[i], o)
  {
    if writes != [] {
      var n := |writes| - 1;
      MergedCovers(writes[..n], o);
      if i: nat :| i < n && Covers(writes[..n][i], o) {
        assert Covers(writes[i], o);
      }
      if i: nat :| i < n && Covers(writes[i], o) {
        assert Covers(writes[..n][i], o);
      }
    }
  }

  lemma MergedByte(contents: map<nat, bv8>, last: Write, o: nat)
    requires Covers(last, o)
    requires o in contents ==> contents[o] == last.bytes[o - last.offset]
    ensures var merged := Merged(contents, last.offset, last.bytes);
            o in merged && merged[o] == last.bytes[o - last.offset]
  {
  }

  lemma MergedOther(contents: map<nat, bv8>, last: Write, o: nat)
    requires !Covers(last, o) && o in contents
    ensures var merged := Merged(contents, last.offset, last.bytes);
            o in merged && merged[o] == contents[o]
  {
  }

  /** Where the last write falls on what is there, it finds its own bytes. */
  lemma LastFindsItsBytes(before: seq<Write>, last: Write, o: nat)
    requires forall v :: v in before ==> Agree(v, last) && ReadsBack(AllMerged(before), v)
    requires Covers(last, o) && o in AllMerged(before)
    ensures AllMerged(before)[o] == last.bytes[o - last.offset]
  {
    MergedCovers(before, o);
    var j: nat :| j < |before| && Covers(before[j], o);
    assert Agree(before[j], last) && ReadsBack(AllMerged(before), before[j]);
  }

  /** A write that agrees with all before it reads back, and so do they. */
  lemma OneMoreReadsBack(before: seq<Write>, last: Write, w: Write)
    requires forall v :: v in before ==> Agree(v, last) && ReadsBack(AllMerged(before), v)
    requires w in before || w == last
    ensures ReadsBack(Merged(AllMerged(before), last.offset, last.bytes), w)
  {
    var contents := AllMerged(before);
    assert w == last || (Agree(w, last) && ReadsBack(contents, w));
    forall o: nat | Covers(w, o)
      ensures var merged := Merged(contents, last.offset, last.bytes);
              o in merged && merged[o] == w.bytes[o - w.offset]
    {
      if Covers(last, o) {
        if o in contents {
          LastFindsItsBytes(before, last, o);
        }
        MergedByte(contents, last, o);
      } else {
        MergedOther(contents, last, o);
      }
    }
  }

  /** Agreeing writes, in any order and repeated at will, all read back. */
  lemma {:induction false} AgreeingWritesReadBack(writes: seq<Write>)
    requires forall i: nat, j: nat :: i < j < |writes| ==> Agree(writes[i], writes[j])
    ensures forall i: nat :: i < |writes| ==> ReadsBack(AllMerged(writes), writes[i])
  {
    if writes != [] {
      var n := |writes| - 1;
      var before := writes[..n];
      AgreeingWritesReadBack(before);
      forall v | v in before
        ensures Agree(v, writes[n]) && ReadsBack(AllMerged(before), v)
      {
        var i: nat :| i < n && before[i] == v;
        assert Agree(writes[i], writes[n]) && ReadsBack(AllMerged(before), before[i]);
      }
      forall i: nat | i < |writes|
        ensures ReadsBack(AllMerged(writes), writes[i])
      {
        assert i < n ==> before[i] == writes[i];
        OneMoreReadsBack(before, writes[n], writes[i]);
      }
    }
  }

  /** Every write of a slide reads back exactly when no two of its writes disagree. */
  lemma WritesReadBackIffAgree(writes: seq<Write>)
    ensures (forall i: nat :: i < |writes| ==> ReadsBack(AllMerged(writes), writes[i]))
            <==> forall i: nat, j: nat :: i < j < |writes| ==> Agree(writes[i], writes[j])
  {
    if forall i: nat, j: nat :: i < j < |writes| ==> Agree(writes[i], writes[j]) {
      AgreeingWritesReadBack(writes);
    }
  }

  /** What the store promises a client: the slide on show holds its writes, or the one before is kept. */
  ghost predicate Shows(store: FlashSlideStore, info: SlideInfo, writes: seq<Write>)
    reads store, store.flash
  {
    && store.Valid() && store.shown == Some(info)
    && forall i: nat, o: nat :: i < |writes| && Covers(writes[i], o) && o < info.size
         ==> store.ShownBytes()[o] == writes[i].bytes[o - writes[i].offset]
  }

  predicate Fits(w: Write) {
    w.offset + |w.bytes| <= SLOT_SIZE
  }

  predicate AllFit(writes: seq<Write>) {
    forall i: nat :: i < |writes| ==> Fits(writes[i])
  }

  lemma OneMoreWrite(done: seq<Write>, w: Write)
    ensures AllMerged(done + [w]) == Merged(AllMerged(done), w.offset, w.bytes)
    ensures AllFit(done + [w]) <==> AllFit(done) && Fits(w)
  {
    assert (done + [w])[..|done|] == done;
  }

  lemma Fronts(writes: seq<Write>, i: nat)
    requires i <= |writes|
    ensures i < |writes| ==> writes[..i] + [writes[i]] == writes[..i + 1] && (AllFit(writes) ==> Fits(writes[i]))
    ensures i == |writes| ==> writes[..i] == writes
  {
  }

  /** The slide being written holds the writes so far. */
  ghost predicate Stored(store: FlashSlideStore, done: seq<Write>)
    reads store, store.flash
  {
    && store.Valid() && store.writing && store.registered && store.failed == {}
    && store.contents == AllMerged(done) && AllFit(done)
  }

  method StoreWrite(store: FlashSlideStore, w: Write) returns (ok: bool)
    requires store.Valid() && store.writing && store.registered && store.failed == {}
    requires 0 < w.offset + |w.bytes| < 0x1_0000_0000
    modifies store`erased, store`eraseLog, store`contents, store`failed, store`faults, store.flash
    ensures store.Valid() && store.Slot(store.shownSlot) == old(store.Slot(store.shownSlot))
    ensures ok ==> store.failed == {} && store.contents == Merged(old(store.contents), w.offset, w.bytes)
    ensures store.faults >= old(store.faults) && (ok <==> Fits(w) && store.faults == old(store.faults))
  {
    ghost var merged := Merged(store.contents, w.offset, w.bytes);
    ok := store.WriteSlide(w.offset, w.bytes);
    NoneFailed(merged);
  }

  lemma NoneFailed(contents: map<nat, bv8>)
    ensures contents - {} == contents
  {
  }

  /** The writes of one slide, up to the first that fails. */
  method StoreWrites(store: FlashSlideStore, writes: seq<Write>) returns (ok: bool)
    requires store.Valid() && store.writing && store.registered && store.failed == {} && store.contents == map[]
    requires forall i: nat :: i < |writes| ==> 0 < writes[i].offset + |writes[i].bytes| < 0x1_0000_0000
    modifies store`erased, store`eraseLog, store`contents, store`failed, store`faults, store.flash
    ensures store.Valid() && store.Slot(store.shownSlot) == old(store.Slot(store.shownSlot))
    ensures ok ==> store.contents == AllMerged(writes)
    ensures store.writing && store.shown == old(store.shown)
    ensures store.faults >= old(store.faults) && (ok <==> AllFit(writes) && store.faults == old(store.faults))
  {
    var i := 0;
    ghost var done := [];
    while i < |writes|
      invariant i <= |writes| && done == writes[..i] && Stored(store, done)
      invariant store.Slot(store.shownSlot) == old(store.Slot(store.shownSlot))
      invariant store.faults == old(store.faults)
    {
      Fronts(writes, i);
      OneMoreWrite(done, writes[i]);
      ok := StoreWrite(store, writes[i]);
      if !ok {
        return;
      }
      done := done + [writes[i]];
      i := i + 1;
    }
    Fronts(writes, i);
    ok := true;
  }

  /**
   * A slide from begin to commit: with agreeing writes in any order it is on show afterwards and
   * reads back byte for byte. It fails only on a write out of range or a flash fault, and then the
   * slide on show is still the old one, whole.
   */
  method StoreSlide(store: FlashSlideStore, size: nat, writes: seq<Write>, info: SlideInfo) returns (ok: bool)
    requires store.Valid() && info.size <= SLOT_SIZE
    requires forall i: nat :: i < |writes| ==> 0 < writes[i].offset + |writes[i].bytes| < 0x1_0000_0000
    requires forall i: nat, j: nat :: i < j < |writes| ==> Agree(writes[i], writes[j])
    modifies store, store.flash
    ensures store.Valid()
    ensures ok ==> Shows(store, info, writes)
    ensures !ok ==> store.shown == old(store.shown)
                    && (store.shown.Some? ==> store.ShownBytes() == old(store.ShownBytes()))
    ensures ok <==> store.registered && size <= SLOT_SIZE && AllFit(writes) && store.faults == old(store.faults)
  {
    ok := store.BeginSlide(size);
    if ok {
      ok := StoreWrites(store, writes);
    }
    if ok {
      AgreeingWritesReadBack(writes);
      store.CommitSlide(info);
    }
  }

  // ---- Wear -----------------------------------------------------------------

  datatype SlotEvent = Begin | Commit | Clear

  datatype Slots = Slots(shown: nat, writing: nat)

  predicate InStore(s: Slots) {
    s.shown < SLOT_COUNT && s.writing < SLOT_COUNT
  }

  function AfterEvent(s: Slots, e: SlotEvent): (after: Slots)
    requires InStore(s)
    ensures InStore(after)
  {
    match e
    case Begin => s.(writing := NextSlot(s.writing, s.shown))
    case Commit => s.(shown := s.writing)
    case Clear => s
  }

  /** The slots begins choose, in order. */
  function Chosen(s: Slots, events: seq<SlotEvent>): seq<nat>
    requires InStore(s)
    decreases |events|
  {
    if events == [] then []
    else
      var after := AfterEvent(s, events[0]);
      (if events[0] == Begin then [after.writing] else []) + Chosen(after, events[1..])
  }

  /** How far round the ring `slot` lies from `from`. */
  function Offset(from: nat, slot: nat): (d: nat)
    requires from < SLOT_COUNT && slot < SLOT_COUNT
    ensures d < SLOT_COUNT && (d == 0 <==> slot == from)
  {
    if slot >= from then slot - from else slot + SLOT_COUNT - from
  }

  /** `k` begins after choosing `from`: the shown slot has been skipped at most once. */
  predicate Lap(from: nat, s: Slots, k: nat)
    requires from < SLOT_COUNT && InStore(s)
  {
    || Offset(from, s.writing) == k
    || (Offset(from, s.writing) == k + 1 && 1 <= Offset(from, s.shown) <= k + 1)
  }

  lemma {:induction false} NotChosenAgain(from: nat, s: Slots, k: nat, events: seq<SlotEvent>)
    requires from < SLOT_COUNT && InStore(s) && Lap(from, s, k)
    ensures forall j: nat :: j < |Chosen(s, events)| && k + j + 1 < SLOT_COUNT - 1 ==> Chosen(s, events)[j] != from
    decreases |events|
  {
    if events != [] {
      var after := AfterEvent(s, events[0]);
      if events[0] == Begin {
        if k + 1 < SLOT_COUNT - 1 {
          NotChosenAgain(from, after, k + 1, events[1..]);
        }
      } else {
        NotChosenAgain(from, after, k, events[1..]);
      }
    }
  }

  /**
   * Whatever commits and clears come between, a slot is not chosen again by any of the fourteen
   * begins that follow: any fifteen consecutive begins choose fifteen different slots.
   */
  lemma {:induction false} WearSpreads(s: Slots, events: seq<SlotEvent>)
    requires InStore(s)
    ensures forall i: nat, j: nat :: i < j < |Chosen(s, events)| && j < i + SLOT_COUNT - 1
              ==> Chosen(s, events)[i] != Chosen(s, events)[j]
    decreases |events|
  {
    if events != [] {
      var after := AfterEvent(s, events[0]);
      WearSpreads(after, events[1..]);
      if events[0] == Begin {
        NotChosenAgain(after.writing, after, 0, events[1..]);
        assert forall j: nat :: 0 < j < |Chosen(s, events)|
                 ==> Chosen(s, events)[j] == Chosen(after, events[1..])[j - 1];
      }
    }
  }
}
