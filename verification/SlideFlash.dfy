/** The slide store: sixteen NOR-flash slots, one on show while another is written. */
module SlideFlash {
  import opened Base

  const SLOT_SIZE := 0x10000
  const SLOT_COUNT := 16
  const SECTOR_SIZE := 0x1000
  const SECTORS_PER_SLOT := 16

  datatype SlideMime = Jpeg | Png

  datatype SlideInfo = SlideInfo(id: nat, mime: SlideMime, size: nat)

  // ---- The flash chip -------------------------------------------------------

  /** Erasing sets every bit of a range; a failed erase leaves the range in any state. */
  method EraseRange(flash: array<bv8>, at: nat, length: nat) returns (ok: bool)
    requires at + length <= flash.Length
    modifies flash
    ensures forall i: nat :: i < flash.Length && !(at <= i < at + length) ==> flash[i] == old(flash[i])
    ensures ok ==> forall i: nat :: at <= i < at + length ==> flash[i] == 0xFF
  {
    ok := *;
    var k := 0;
    while k < length
      invariant k <= length
      invariant forall i: nat :: i < flash.Length && !(at <= i < at + length) ==> flash[i] == old(flash[i])
      invariant ok ==> forall i: nat :: at <= i < at + k ==> flash[i] == 0xFF
    {
      if ok {
        flash[at + k] := 0xFF;
      } else {
        flash[at + k] := *;
      }
      k := k + 1;
    }
  }

  /** Programming can only clear bits: each byte is ANDed into what is there. */
  method ProgramRange(flash: array<bv8>, at: nat, bytes: seq<bv8>) returns (ok: bool)
    requires at + |bytes| <= flash.Length
    modifies flash
    ensures forall i: nat :: i < flash.Length && !(at <= i < at + |bytes|) ==> flash[i] == old(flash[i])
    ensures ok ==> forall i: nat :: at <= i < at + |bytes| ==> flash[i] == old(flash[i]) & bytes[i - at]
  {
    ok := *;
    var k := 0;
    while k < |bytes|
      invariant k <= |bytes|
      invariant forall i: nat :: i < flash.Length && !(at <= i < at + k) ==> flash[i] == old(flash[i])
      invariant ok ==> forall i: nat :: at <= i < at + k ==> flash[i] == old(flash[i]) & bytes[i - at]
    {
      if ok {
        flash[at + k] := flash[at + k] & bytes[k];
      } else {
        flash[at + k] := *;
      }
      k := k + 1;
    }
  }

  // ---- What the writes of one slide leave -----------------------------------

  predicate InRange(o: nat, offset: nat, length: nat) {
    offset <= o < offset + length
  }

  function Range(offset: nat, length: nat): set<nat> {
    set o: nat | o < offset + length && InRange(o, offset, length)
  }

  /** `bytes` written at `offset` over `contents`: a second write to a byte is ANDed in. */
  function Merged(contents: map<nat, bv8>, offset: nat, bytes: seq<bv8>): map<nat, bv8> {
    map o: nat | o in contents.Keys + Range(offset, |bytes|) ::
      if !InRange(o, offset, |bytes|) then contents[o]
      else if o in contents then contents[o] & bytes[o - offset]
      else bytes[o - offset]
  }

  /** The slot after this one, or the one after that when it is on show. */
  function NextSlot(writing: nat, shown: nat): (slot: nat)
    requires writing < SLOT_COUNT && shown < SLOT_COUNT
    ensures slot < SLOT_COUNT && slot != shown
  {
    var next := (writing + 1) % SLOT_COUNT;
    if next == shown then (next + 1) % SLOT_COUNT else next
  }

  predicate InErased(o: nat, erased: set<nat>) {
    o / SECTOR_SIZE in erased
  }

  /** A slot holds `contents`, and elsewhere its erased sectors are blank, but for failed writes. */
  ghost predicate Holds(slot: seq<bv8>, erased: set<nat>, contents: map<nat, bv8>, failed: set<nat>) {
    && (forall o :: o in contents ==>
          o < |slot| && InErased(o, erased) && o !in failed && slot[o] == contents[o])
    && (forall o: nat :: o < |slot| && InErased(o, erased) && o !in contents && o !in failed ==> slot[o] == 0xFF)
  }

  lemma AndBlank(b: bv8)
    ensures 0xFF & b == b
  {
  }

  lemma AndSame(b: bv8)
    ensures b & b == b
  {
  }

  /** A write that ANDs `bytes` into erased flash stores exactly `Merged`. */
  lemma ProgrammedHolds(before: seq<bv8>, after: seq<bv8>, erased: set<nat>, contents: map<nat, bv8>,
                        failed: set<nat>, offset: nat, bytes: seq<bv8>)
    requires Holds(before, erased, contents, failed)
    requires |before| == |after| && offset + |bytes| <= |after|
    requires forall o: nat :: InRange(o, offset, |bytes|) ==> InErased(o, erased)
    requires forall o: nat :: o < |after| ==>
               after[o] == if InRange(o, offset, |bytes|) then before[o] & bytes[o - offset] else before[o]
    ensures Holds(after, erased, Merged(contents, offset, bytes) - failed, failed)
  {
    forall o | o in Merged(contents, offset, bytes) - failed
      ensures o < |after| && InErased(o, erased)
              && after[o] == (Merged(contents, offset, bytes) - failed)[o]
    {
      if InRange(o, offset, |bytes|) && o !in contents {
        AndBlank(bytes[o - offset]);
      }
    }
  }

  lemma ContentsAvoidFailed(slot: seq<bv8>, erased: set<nat>, contents: map<nat, bv8>, failed: set<nat>)
    requires Holds(slot, erased, contents, failed)
    ensures contents - failed == contents
  {
  }

  lemma SectorBytes(o: nat, s: nat)
    ensures InRange(o, s * SECTOR_SIZE, SECTOR_SIZE) <==> o / SECTOR_SIZE == s
  {
  }

  /** Erasing a sector none of the slide's bytes lie in keeps them, and blanks it when it succeeds. */
  lemma ErasedHolds(before: seq<bv8>, after: seq<bv8>, erased: set<nat>, contents: map<nat, bv8>,
                    failed: set<nat>, s: nat, ok: bool)
    requires Holds(before, erased, contents, failed)
    requires |before| == |after| && s !in erased
    requires forall o: nat :: o < |after| && !InRange(o, s * SECTOR_SIZE, SECTOR_SIZE) ==> after[o] == before[o]
    requires ok ==> forall o: nat :: o < |after| && InRange(o, s * SECTOR_SIZE, SECTOR_SIZE) ==> after[o] == 0xFF
    ensures Holds(after, if ok then erased + {s} else erased, contents, failed)
  {
    forall o: nat
      ensures InRange(o, s * SECTOR_SIZE, SECTOR_SIZE) <==> o / SECTOR_SIZE == s
    {
      SectorBytes(o, s);
    }
  }

  class FlashSlideStore {
    const flash: array<bv8>
    const registered: bool        // there is a flash area
    var shownSlot: nat
    var writingSlot: nat
    var erased: set<nat>          // sectors erased for the slide being written
    var shown: Option<SlideInfo>
    ghost var writing: bool       // between BeginSlide and CommitSlide
    ghost var contents: map<nat, bv8>  // what this slide's writes have stored
    ghost var failed: set<nat>    // offsets a failed write touched
    ghost var eraseLog: seq<nat>  // sectors in the order this slide erased them
    ghost var faults: nat         // flash operations that failed

    ghost predicate Valid()
      reads this, flash
    {
      && flash.Length == SLOT_SIZE * SLOT_COUNT
      && shownSlot < SLOT_COUNT && writingSlot < SLOT_COUNT
      && (writing ==> writingSlot != shownSlot)
      && (shown.Some? ==> shown.value.size <= SLOT_SIZE)
      && (forall s :: s in erased ==> s < SECTORS_PER_SLOT)
      && (forall s :: s in eraseLog <==> s in erased)
      && (forall i: nat, j: nat :: i < j < |eraseLog| ==> eraseLog[i] != eraseLog[j])
      && Holds(Slot(writingSlot), erased, contents, failed)
    }

    /** The bytes of one slot. */
    ghost function Slot(slot: nat): (bytes: seq<bv8>)
      requires flash.Length == SLOT_SIZE * SLOT_COUNT && slot < SLOT_COUNT
      reads flash
      ensures |bytes| == SLOT_SIZE
      ensures forall o: nat :: o < SLOT_SIZE ==> bytes[o] == flash[slot * SLOT_SIZE + o]
    {
      flash[slot * SLOT_SIZE..(slot + 1) * SLOT_SIZE]
    }

    constructor (registered: bool)
      ensures Valid() && fresh(flash) && !writing && shown == None
      ensures this.registered == registered && shownSlot == 0 && writingSlot == 1 && faults == 0
    {
      flash := new bv8[SLOT_SIZE * SLOT_COUNT];
      this.registered := registered;
      shownSlot, writingSlot := 0, 1;
      erased, shown := {}, None;
      writing, contents, failed, eraseLog, faults := false, map[], {}, [], 0;
    }

    method BeginSlide(size: nat) returns (ok: bool)
      requires Valid()
      modifies this
      ensures Valid() && writing
      ensures ok <==> registered && size <= SLOT_SIZE
      ensures writingSlot == NextSlot(old(writingSlot), shownSlot)
      ensures shownSlot == old(shownSlot) && shown == old(shown)
      ensures contents == map[] && failed == {} && eraseLog == [] && faults == old(faults)
    {
      writingSlot := (writingSlot + 1) % SLOT_COUNT;
      if writingSlot == shownSlot {
        writingSlot := (writingSlot + 1) % SLOT_COUNT;
      }
      assert writingSlot == NextSlot(old(writingSlot), shownSlot);
      erased := {};
      writing, contents, failed, eraseLog := true, map[], {}, [];
      ok := registered && size <= SLOT_SIZE;
    }

    /** `esp_partition_erase_range` inside one slot. */
    method EraseInSlot(offset: nat, length: nat) returns (ok: bool)
      requires flash.Length == SLOT_SIZE * SLOT_COUNT && writingSlot < SLOT_COUNT
      requires offset + length <= SLOT_SIZE
      modifies this`faults, flash
      ensures faults == old(faults) + if ok then 0 else 1
      ensures OnlyWritingSlot(old(flash[..]))
      ensures forall o: nat :: o < SLOT_SIZE && !InRange(o, offset, length)
                               ==> Slot(writingSlot)[o] == old(Slot(writingSlot))[o]
      ensures ok ==> forall o: nat :: InRange(o, offset, length) ==> Slot(writingSlot)[o] == 0xFF
    {
      ok := EraseRange(flash, writingSlot * SLOT_SIZE + offset, length);
      if !ok {
        faults := faults + 1;
      }
    }

    /** `esp_partition_write` inside one slot. */
    method ProgramInSlot(offset: nat, bytes: seq<bv8>) returns (ok: bool)
      requires flash.Length == SLOT_SIZE * SLOT_COUNT && writingSlot < SLOT_COUNT
      requires offset + |bytes| <= SLOT_SIZE
      modifies this`faults, flash
      ensures faults == old(faults) + if ok then 0 else 1
      ensures OnlyWritingSlot(old(flash[..]))
      ensures forall o: nat :: o < SLOT_SIZE && !InRange(o, offset, |bytes|)
                               ==> Slot(writingSlot)[o] == old(Slot(writingSlot))[o]
      ensures ok ==> forall o: nat :: InRange(o, offset, |bytes|)
                       ==> Slot(writingSlot)[o] == old(Slot(writingSlot))[o] & bytes[o - offset]
    {
      ok := ProgramRange(flash, writingSlot * SLOT_SIZE + offset, bytes);
      if !ok {
        faults := faults + 1;
      }
    }

    /** Every other slot still holds what it held in `was`. */
    ghost predicate OnlyWritingSlot(was: seq<bv8>)
      reads this, flash
    {
      && flash.Length == |was| == SLOT_SIZE * SLOT_COUNT
      && forall i: nat :: i < |was| && !InRange(i, writingSlot * SLOT_SIZE, SLOT_SIZE) ==> flash[i] == was[i]
    }

    /** Erases the sectors of a range that this slide has not erased yet. */
    method EraseSectors(offset: nat, length: nat) returns (ok: bool)
      requires Valid() && writing && 0 < offset + length <= SLOT_SIZE
      modifies this`erased, this`eraseLog, this`faults, flash
      ensures Valid() && OnlyWritingSlot(old(flash[..]))
      ensures old(eraseLog) <= eraseLog
      ensures forall i: nat :: |old(eraseLog)| <= i < |eraseLog| ==>
                offset / SECTOR_SIZE <= eraseLog[i] <= (offset + length - 1) / SECTOR_SIZE
      ensures faults >= old(faults) && (ok <==> faults == old(faults))
      ensures ok ==> forall t: nat :: offset / SECTOR_SIZE <= t <= (offset + length - 1) / SECTOR_SIZE
                                      ==> t in erased
    {
      var last := (offset + length - 1) / SECTOR_SIZE;
      var s := offset / SECTOR_SIZE;
      while s <= last
        invariant offset / SECTOR_SIZE <= s <= last + 1
        invariant Valid() && OnlyWritingSlot(old(flash[..]))
        invariant old(eraseLog) <= eraseLog && faults == old(faults)
        invariant forall i: nat :: |old(eraseLog)| <= i < |eraseLog| ==>
                    offset / SECTOR_SIZE <= eraseLog[i] <= last
        invariant forall t: nat :: offset / SECTOR_SIZE <= t < s ==> t in erased
      {
        if s !in erased {
          ok := EraseSector(s);
          if !ok {
            return;
          }
        }
        s := s + 1;
      }
      ok := true;
    }

    /** One lazy erase: no byte this slide has written lies in the sector. */
    method EraseSector(s: nat) returns (ok: bool)
      requires Valid() && writing && s < SECTORS_PER_SLOT && s !in erased
      modifies this`erased, this`eraseLog, this`faults, flash
      ensures Valid() && OnlyWritingSlot(old(flash[..]))
      ensures erased == if ok then old(erased) + {s} else old(erased)
      ensures eraseLog == if ok then old(eraseLog) + [s] else old(eraseLog)
      ensures faults == old(faults) + if ok then 0 else 1
    {
      ok := EraseInSlot(s * SECTOR_SIZE, SECTOR_SIZE);
      ErasedHolds(old(Slot(writingSlot)), Slot(writingSlot), erased, contents, failed, s, ok);
      if ok {
        erased := erased + {s};
        eraseLog := eraseLog + [s];
      }
    }

    /**
     * Stores part of the slide. After a success the slide holds what it held, with `bytes` merged
     * in; a failed write only loses the bytes it touched. The slide on show is left alone.
     */
    method WriteSlide(offset: nat, bytes: seq<bv8>) returns (ok: bool)
      requires Valid() && writing && 0 < offset + |bytes| < 0x1_0000_0000
      modifies this`erased, this`eraseLog, this`contents, this`failed, this`faults, flash
      ensures Valid() && OnlyWritingSlot(old(flash[..])) && Slot(shownSlot) == old(Slot(shownSlot))
      ensures old(eraseLog) <= eraseLog
      ensures faults >= old(faults)
      ensures ok <==> registered && offset + |bytes| <= SLOT_SIZE && faults == old(faults)
      ensures ok ==> contents == Merged(old(contents), offset, bytes) - failed && failed == old(failed)
      ensures !ok ==> contents == old(contents) - failed && failed <= old(failed) + Range(offset, |bytes|)
    {
      if !registered || offset + |bytes| > SLOT_SIZE {
        return false;
      }
      ok := EraseSectors(offset, |bytes|);
      OtherSlotsKept(old(flash[..]), shownSlot);
      if !ok {
        ContentsAvoidFailed(Slot(writingSlot), erased, contents, failed);
        return;
      }
      SectorsOfRange(offset, |bytes|);
      ok := ProgramErased(offset, bytes);
      OtherSlotsKept(old(flash[..]), shownSlot);
    }

    /** Programs bytes whose sectors this slide has erased. */
    method ProgramErased(offset: nat, bytes: seq<bv8>) returns (ok: bool)
      requires Valid() && offset + |bytes| <= SLOT_SIZE
      requires forall o: nat :: InRange(o, offset, |bytes|) ==> InErased(o, erased)
      modifies this`contents, this`failed, this`faults, flash
      ensures Valid() && OnlyWritingSlot(old(flash[..]))
      ensures faults >= old(faults) && (ok <==> faults == old(faults))
      ensures ok ==> contents == Merged(old(contents), offset, bytes) - failed && failed == old(failed)
      ensures !ok ==> contents == old(contents) - failed && failed == old(failed) + Range(offset, |bytes|)
    {
      ok := ProgramInSlot(offset, bytes);
      if ok {
        ProgrammedHolds(old(Slot(writingSlot)), Slot(writingSlot), erased, contents, failed, offset, bytes);
        contents := Merged(contents, offset, bytes) - failed;
      } else {
        failed := failed + Range(offset, |bytes|);
        contents := contents - failed;
      }
    }

    lemma OtherSlotsKept(was: seq<bv8>, slot: nat)
      requires writingSlot < SLOT_COUNT && slot < SLOT_COUNT && slot != writingSlot
      requires OnlyWritingSlot(was)
      ensures Slot(slot) == was[slot * SLOT_SIZE..(slot + 1) * SLOT_SIZE]
    {
      forall o: nat | o < SLOT_SIZE
        ensures Slot(slot)[o] == was[slot * SLOT_SIZE + o]
      {
        assert !InRange(slot * SLOT_SIZE + o, writingSlot * SLOT_SIZE, SLOT_SIZE);
      }
    }

    /** The slide on show, as a byte string. */
    ghost function ShownBytes(): seq<bv8>
      requires Valid() && shown.Some?
      reads this, flash
    {
      Slot(shownSlot)[..shown.value.size]
    }

    /** Publishes the slide being written: it reads back what its writes stored. */
    method CommitSlide(info: SlideInfo)
      requires Valid() && writing && info.size <= SLOT_SIZE
      modifies this`shownSlot, this`shown, this`writing
      ensures Valid() && !writing && shown == Some(info) && shownSlot == writingSlot
      ensures forall o: nat :: o < info.size && o in contents ==> ShownBytes()[o] == contents[o]
    {
      shownSlot := writingSlot;
      shown := Some(info);
      writing := false;
    }

    method ClearSlides()
      requires Valid()
      modifies this`shown
      ensures Valid() && shown == None
    {
      shown := None;
    }

    /** Reads part of the slide on show; nothing past its end, without a slide, or when the flash is not `readable`. */
    method Read(offset: nat, room: nat, readable: bool) returns (out: seq<bv8>)
      requires Valid()
      ensures out == if shown.None? || offset >= shown.value.size || !registered || !readable then []
                     else ShownBytes()[offset..offset + Min(room, shown.value.size - offset)]
    {
      if shown.None? || offset >= shown.value.size || !registered {
        return [];
      }
      var count := Min(room, shown.value.size - offset);
      if !readable {
        return [];
      }
      out := flash[shownSlot * SLOT_SIZE + offset..shownSlot * SLOT_SIZE + offset + count];
      assert forall k: nat :: k < count ==> out[k] == Slot(shownSlot)[offset + k];
      assert out == ShownBytes()[offset..offset + count];
    }

    /**
     * The web server's loop over `Read`, with buffers of any sizes: it sends a front of the slide, as
     * long as the buffers add up to before the first read that does not work.
     */
    method Download(rooms: seq<nat>, readable: seq<bool>) returns (sent: seq<bv8>)
      requires Valid() && shown.Some? && |readable| == |rooms|
      requires forall i: nat :: i < |rooms| ==> rooms[i] > 0
      ensures sent <= ShownBytes()
      ensures forall n: nat :: WorksUpTo(readable, n) ==>
                |sent| == if registered then Min(shown.value.size, Total(rooms[..n])) else 0
    {
      sent := [];
      var i := 0;
      assert rooms[..0] == [];
      while i < |rooms| && |sent| < shown.value.size
        invariant i <= |rooms|
        invariant sent <= ShownBytes()
        invariant forall k: nat :: k < i ==> readable[k]
        invariant |sent| == if registered then Min(shown.value.size, Total(rooms[..i])) else 0
      {
        var got := ReadOn(sent, rooms[i], readable[i]);
        if got == [] {
          assert registered ==> forall n: nat :: WorksUpTo(readable, n) ==> n == i;
          return;
        }
        TotalOfOneMore(rooms, i);
        sent := sent + got;
        i := i + 1;
      }
      TotalUpTo(rooms, readable, i);
    }

    /** One round of it. */
    method ReadOn(sent: seq<bv8>, room: nat, readable: bool) returns (got: seq<bv8>)
      requires Valid() && shown.Some? && sent <= ShownBytes() && |sent| < shown.value.size && room > 0
      ensures sent + got <= ShownBytes()
      ensures |got| == if registered && readable then Min(room, shown.value.size - |sent|) else 0
    {
      got := Read(|sent|, room, readable);
      FrontGrows(ShownBytes(), sent, got);
    }
  }

  /** Once `i` reads worked, the reads that work are these and more. */
  lemma TotalUpTo(rooms: seq<nat>, readable: seq<bool>, i: nat)
    requires i <= |rooms| == |readable| && forall k: nat :: k < i ==> readable[k]
    ensures forall n: nat :: WorksUpTo(readable, n) ==> i <= n && Total(rooms[..i]) <= Total(rooms[..n])
  {
    forall n: nat | WorksUpTo(readable, n) ensures i <= n && Total(rooms[..i]) <= Total(rooms[..n]) {
      TotalGrows(rooms[..n], i);
      assert rooms[..n][..i] == rooms[..i];
    }
  }

  /** The first `n` reads work, and no more. */
  predicate WorksUpTo(readable: seq<bool>, n: nat) {
    n <= |readable| && (forall i: nat :: i < n ==> readable[i]) && (n < |readable| ==> !readable[n])
  }

  function Total(rooms: seq<nat>): nat {
    if rooms == [] then 0 else Total(rooms[..|rooms| - 1]) + rooms[|rooms| - 1]
  }

  lemma TotalOfOneMore(rooms: seq<nat>, i: nat)
    requires i < |rooms|
    ensures Total(rooms[..i + 1]) == Total(rooms[..i]) + rooms[i]
  {
    assert rooms[..i + 1][..i] == rooms[..i];
  }

  lemma FrontGrows(whole: seq<bv8>, front: seq<bv8>, more: seq<bv8>)
    requires |front| + |more| <= |whole|
    requires front == whole[..|front|] && more == whole[|front|..|front| + |more|]
    ensures front + more == whole[..|front + more|]
  {
  }

  lemma {:induction false} TotalGrows(rooms: seq<nat>, n: nat)
    requires n <= |rooms|
    ensures Total(rooms[..n]) <= Total(rooms)
    ensures n == |rooms| ==> rooms[..n] == rooms
  {
    if n < |rooms| {
      var before := rooms[..|rooms| - 1];
      TotalGrows(before, n);
      assert before[..n] == rooms[..n];
    } else {
      assert rooms[..n] == rooms;
    }
  }

  lemma SectorsOfRange(offset: nat, length: nat)
    ensures forall o: nat :: InRange(o, offset, length) ==>
              offset / SECTOR_SIZE <= o / SECTOR_SIZE <= (offset + length - 1) / SECTOR_SIZE
  {
  }
}
