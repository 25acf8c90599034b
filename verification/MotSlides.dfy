/** MOT data groups to whole slides, written straight into the flash store. */
module MotSlides {
  import opened Base
  import opened SlideFlash

  const MAX_SEGMENTS := 1024

  /** A parsed data group: the header of an object, or one segment of its body. */
  datatype MotGroup =
    | Header(transportId: nat, bodySize: nat, mime: Option<SlideMime>)  // None: not a JPEG or PNG
    | Body(transportId: nat, segment: Option<nat>, last: bool, payload: seq<bv8>)

  /** An object as broadcast: segments of one size, but for a last one that may be shorter. */
  datatype MotObject = MotObject(body: seq<bv8>, segmentSize: nat, count: nat)

  ghost predicate WellFormed(obj: MotObject) {
    && obj.segmentSize > 0 && obj.count > 0
    && (obj.count - 1) * obj.segmentSize < |obj.body| <= obj.count * obj.segmentSize
  }

  ghost function SegmentStart(obj: MotObject, k: nat): nat {
    k * obj.segmentSize
  }

  ghost function SegmentEnd(obj: MotObject, k: nat): nat {
    if k == obj.count - 1 then |obj.body| else (k + 1) * obj.segmentSize
  }

  lemma SegmentBounds(obj: MotObject, k: nat)
    requires WellFormed(obj) && k < obj.count
    ensures SegmentStart(obj, k) < SegmentEnd(obj, k) <= |obj.body|
    ensures k < obj.count - 1 ==> SegmentEnd(obj, k) == SegmentStart(obj, k) + obj.segmentSize
  {
    NextMultiple(k, obj.segmentSize);
    if k < obj.count - 1 {
      SmallerMultiple(k + 1, obj.count - 1, obj.segmentSize);
    }
  }

  lemma NextMultiple(k: nat, size: nat)
    ensures (k + 1) * size == k * size + size
  {
  }

  lemma SmallerMultiple(a: nat, b: nat, size: nat)
    requires a <= b
    ensures a * size <= b * size
  {
  }

  /** Every byte of the body lies in some segment. */
  lemma SegmentOf(obj: MotObject, o: nat) returns (k: nat)
    requires WellFormed(obj) && o < |obj.body|
    ensures k < obj.count && SegmentStart(obj, k) <= o < SegmentEnd(obj, k)
  {
    k := 0;
    while k < obj.count - 1 && SegmentEnd(obj, k) <= o
      invariant k < obj.count && SegmentStart(obj, k) <= o
      decreases obj.count - k
    {
      assert SegmentStart(obj, k + 1) == SegmentEnd(obj, k);
      k := k + 1;
    }
  }

  /** What is on the air: an object for each service and transport id. */
  type Carousel = map<(nat, nat), MotObject>

  ghost predicate OnAir(carousel: Carousel) {
    forall key :: key in carousel ==> WellFormed(carousel[key])
  }

  /** The group is one of its carousel's: nothing is promised about its order, loss or repetition. */
  ghost predicate FromCarousel(carousel: Carousel, serviceId: nat, group: MotGroup) {
    match group
    case Header(t, size, mime) =>
      mime.Some? ==> (serviceId, t) in carousel && size == |carousel[(serviceId, t)].body|
    case Body(t, segment, last, payload) =>
      segment.Some? ==>
        && (serviceId, t) in carousel
        && var obj := carousel[(serviceId, t)];
           && segment.value < obj.count
           && last == (segment.value == obj.count - 1)
           && WellFormed(obj)
           && (SegmentBounds(obj, segment.value);
               payload == obj.body[SegmentStart(obj, segment.value)..SegmentEnd(obj, segment.value)])
  }

  lemma {:induction false} Pigeonhole(s: set<nat>, n: nat)
    requires forall k :: k in s ==> k < n
    ensures |s| <= n
    ensures |s| == n ==> forall k: nat :: k < n ==> k in s
  {
    if n > 0 {
      var rest := s - {n - 1};
      Pigeonhole(rest, n - 1);
      assert n - 1 in s ==> s == rest + {n - 1};
      assert n - 1 !in s ==> s == rest;
    }
  }

  class MotSlideAssembler {
    const writer: FlashSlideStore
    var serviceId: Option<nat>
    var transportId: Option<nat>
    var shownTransportId: Option<nat>
    var bodySize: nat
    var mime: SlideMime
    var segmentSize: nat
    var lastSegment: Option<nat>
    var received: set<nat>
    var nextId: nat

    constructor (writer: FlashSlideStore)
      requires writer.Valid() && writer.shown == None
      ensures this.writer == writer && serviceId == None && Valid()
      ensures forall carousel :: OnAir(carousel) ==> Coherent(carousel)
    {
      this.writer := writer;
      serviceId, transportId, shownTransportId := None, None, None;
      bodySize, mime, segmentSize, lastSegment, received, nextId := 0, Jpeg, 0, None, {}, 1;
    }

    /** What holds whatever groups arrive. */
    ghost predicate Valid()
      reads this, writer, writer.flash
    {
      && writer.Valid()
      && (serviceId.None? ==> transportId.None? && writer.shown.None?)
      && (transportId.Some? ==> writer.registered && writer.writing && 0 < bodySize <= SLOT_SIZE)
    }

    /** The object in progress: only its own bytes are stored, and not yet all of them. */
    ghost predicate Assembling(obj: MotObject)
      reads this, writer, writer.flash
    {
      && WellFormed(obj)
      && writer.failed == {} && bodySize == |obj.body|
      && (segmentSize == 0 || segmentSize == obj.segmentSize)
      && (forall k :: k in received ==> k < obj.count)
      && |received| < obj.count
      && (lastSegment.Some? ==> lastSegment.value == obj.count - 1 && obj.count - 1 in received)
      && (obj.count - 1 in received ==> lastSegment.Some?)
      && Stored(obj, received, writer.contents)
    }

    /** The slide on show is one whole object of the carousel, byte for byte. */
    ghost predicate ShowsWholeObject(carousel: Carousel)
      reads this, writer, writer.flash
    {
      writer.Valid() && (writer.shown.Some? ==>
        exists key :: key in carousel && Some(key.0) == serviceId && writer.ShownBytes() == carousel[key].body)
    }

    /** What holds as long as every group is one of the carousel's. */
    ghost predicate Coherent(carousel: Carousel)
      reads this, writer, writer.flash
    {
      && Valid() && OnAir(carousel) && ShowsWholeObject(carousel)
      && (transportId.Some? ==>
            && (serviceId.value, transportId.value) in carousel
            && Assembling(carousel[(serviceId.value, transportId.value)]))
    }

    /** The bytes on show, if any. */
    ghost function Shown(): Option<seq<bv8>>
      requires writer.Valid()
      reads this, writer, writer.flash
    {
      if writer.shown.None? then None else Some(writer.ShownBytes())
    }

    method Reset()
      modifies this`transportId, this`shownTransportId, this`segmentSize, this`lastSegment, this`received
      ensures transportId == None && shownTransportId == None
      ensures segmentSize == 0 && lastSegment == None && received == {}
    {
      transportId, shownTransportId, segmentSize, lastSegment, received := None, None, 0, None, {};
    }

    /** What a new service starts from. */
    ghost function Before(service: nat, id: Option<nat>): Option<nat>
      reads this
    {
      if serviceId == Some(service) then id else None
    }

    /** A header begins an object exactly for a new, small enough image, and leaves what is on show. */
    twostate predicate HeaderRead(service: nat, t: nat, size: nat, kind: Option<SlideMime>)
      reads this, writer, writer.flash
    {
      var was, shown := old(Before(service, transportId)), old(Before(service, shownTransportId));
      && shownTransportId == shown && nextId == old(nextId) && writer.faults == old(writer.faults)
      && (transportId == Some(t) <==>
            was == Some(t) || (shown != Some(t) && kind.Some? && 0 < size <= SLOT_SIZE && writer.registered))
      && (transportId != Some(t) ==> transportId == was)
      && (transportId == Some(t) && was != Some(t) ==> received == {} && kind == Some(mime) && bodySize == size)
      && (transportId == was && old(serviceId) == Some(service) ==>
            received == old(received) && mime == old(mime) && bodySize == old(bodySize))
    }

    /**
     * One parsed data group, of any content. A header begins its object; a segment of the object in
     * progress is counted, any other changes nothing. What is on show changes only with a new id, or
     * goes with its service; and as long as the groups are a carousel's, it is always one whole object.
     */
    method Apply(service: nat, group: MotGroup, ghost carousel: Carousel)
      requires Valid()
      modifies this, writer, writer.flash
      ensures Valid() && serviceId == Some(service) && old(nextId) <= nextId <= old(nextId) + 1
      ensures nextId == old(nextId) ==> Shown() == if old(serviceId) == Some(service) then old(Shown()) else None
      ensures nextId == old(nextId) && old(serviceId) == Some(service) ==> writer.shown == old(writer.shown)
      ensures nextId != old(nextId) ==> writer.shown == Some(SlideInfo(old(nextId), mime, bodySize))
      ensures group.Header? ==> HeaderRead(service, group.transportId, group.bodySize, group.mime)
      ensures group.Body? ==> mime == old(mime) && bodySize == old(bodySize) && writer.faults >= old(writer.faults)
      ensures group.Body? && old(serviceId) != Some(service) ==>
                transportId == None && shownTransportId == None && writer.faults == old(writer.faults)
      ensures group.Body? && old(serviceId) == Some(service)
              && !Wanted(old(transportId), old(received), group.transportId, group.segment) ==>
                unchanged(this) && unchanged(writer) && unchanged(writer.flash)
      ensures old(Coherent(carousel)) && FromCarousel(carousel, service, group) ==> Coherent(carousel)
      ensures old(Coherent(carousel)) && FromCarousel(carousel, service, group)
              && group.Body? && old(serviceId) == Some(service)
              && Wanted(old(transportId), old(received), group.transportId, group.segment) ==>
                Counted(carousel[(service, group.transportId)], group.transportId, group.segment.value)
    {
      ghost var coherent := Coherent(carousel) && FromCarousel(carousel, service, group);
      if serviceId != Some(service) {
        if serviceId.Some? {
          writer.ClearSlides();
        }
        Reset();
        serviceId := Some(service);
      }
      match group
      case Header(t, size, kind) =>
        OnHeader(t, size, kind, carousel, coherent);
      case Body(t, segment, last, payload) =>
        OnBody(t, segment, last, payload, carousel, coherent);
    }

    /** `coherent`: the object is the carousel's, and so were all before it. */
    method OnHeader(t: nat, size: nat, kind: Option<SlideMime>, ghost carousel: Carousel, ghost coherent: bool)
      requires Valid() && serviceId.Some?
      requires coherent ==> Coherent(carousel) && FromCarousel(carousel, serviceId.value, Header(t, size, kind))
      modifies this, writer
      ensures Valid() && (coherent ==> Coherent(carousel)) && serviceId == old(serviceId) && nextId == old(nextId)
      ensures Shown() == old(Shown()) && writer.shown == old(writer.shown)
      ensures HeaderRead(serviceId.value, t, size, kind)
    {
      if Some(t) == shownTransportId || Some(t) == transportId {
        return;
      }
      if kind.None? || size == 0 || size > SLOT_SIZE {
        return;
      }
      BeginObject(t, size, kind.value, carousel, coherent);
    }

    /** Starts on an object whose header was just read. */
    method BeginObject(t: nat, size: nat, kind: SlideMime, ghost carousel: Carousel, ghost coherent: bool)
      requires Valid() && serviceId.Some? && 0 < size <= SLOT_SIZE
      requires coherent ==> Coherent(carousel) && (serviceId.value, t) in carousel
                            && size == |carousel[(serviceId.value, t)].body|
      modifies this, writer
      ensures Valid() && (coherent ==> Coherent(carousel)) && serviceId == old(serviceId) && nextId == old(nextId)
      ensures Shown() == old(Shown()) && writer.shown == old(writer.shown)
      ensures shownTransportId == old(shownTransportId) && writer.faults == old(writer.faults)
      ensures transportId == if writer.registered then Some(t) else old(transportId)
      ensures received == if writer.registered then {} else old(received)
      ensures mime == (if writer.registered then kind else old(mime))
              && bodySize == (if writer.registered then size else old(bodySize))
    {
      var begun := writer.BeginSlide(size);
      if !begun {
        return;
      }
      transportId, bodySize, mime := Some(t), size, kind;
      segmentSize, lastSegment, received := 0, None, {};
      assert coherent ==> Assembling(carousel[(serviceId.value, t)]);
    }

    /** The segment is one of `obj`, whose size and whose segments' size are those noted, if any. */
    ghost predicate IsSegmentOf(obj: MotObject, segment: nat, last: bool, length: nat)
      reads this
    {
      && WellFormed(obj) && bodySize == |obj.body| && (segmentSize == 0 || segmentSize == obj.segmentSize)
      && segment < obj.count && last == (segment == obj.count - 1)
      && length == SegmentEnd(obj, segment) - SegmentStart(obj, segment)
    }

    /**
     * Where a segment goes. One of the object in progress goes where the object has it, and shows
     * the object's segment size unless it is the last; any other stays within the body all the same.
     */
    method OffsetOf(segment: nat, last: bool, length: nat, ghost obj: MotObject) returns (r: Option<nat>)
      modifies this`segmentSize
      ensures old(IsSegmentOf(obj, segment, last, length)) ==>
                && r == Some(SegmentStart(obj, segment))
                && segmentSize == if last then old(segmentSize) else obj.segmentSize
      ensures r.Some? ==> r.value + length <= bodySize && (last ==> r.value + length == bodySize)
      ensures r.Some? && !last ==> r.value == segment * length && segmentSize == length
      ensures old(segmentSize) != 0 || last ==> segmentSize == old(segmentSize)
      ensures r.None? ==> length > bodySize || (!last && (segmentSize != length || segment * length + length > bodySize))
    {
      if length > bodySize {
        if old(IsSegmentOf(obj, segment, last, length)) {
          SegmentBounds(obj, segment);
        }
        return None;
      }
      if last {
        return Some(bodySize - length);
      }
      if segmentSize == 0 {
        segmentSize := length;
      }
      var offset := segment * segmentSize;
      if old(IsSegmentOf(obj, segment, last, length)) {
        SegmentBounds(obj, segment);
      }
      if length != segmentSize || offset + length > bodySize {
        return None;
      }
      return Some(offset);
    }

    static predicate Wanted(transportId: Option<nat>, received: set<nat>, t: nat, segment: Option<nat>) {
      Some(t) == transportId && segment.Some? && segment.value < MAX_SEGMENTS && segment.value !in received
    }

    predicate Complete()
      reads this
    {
      lastSegment.Some? && |received| == lastSegment.value + 1
    }

    /** A segment counted, or the object dropped on a flash fault, or completed and put on show. */
    twostate predicate Counted(obj: MotObject, t: nat, k: nat)
      reads this, writer, writer.flash
    {
      var now := old(received) + {k};
      writer.Valid() &&
      if nextId != old(nextId) then  // complete
        && |now| == obj.count && transportId == None && shownTransportId == Some(t)
        && Shown() == Some(obj.body)
      else
        && shownTransportId == old(shownTransportId)
        && ((transportId == None && writer.faults > old(writer.faults))
            || (transportId == Some(t) && received == now && |now| < obj.count))
    }

    /**
     * One body segment. Of a carousel's object, a segment not seen before is stored and counted; the
     * one that completes the object puts it on show, whole, under the next id.
     */
    method OnBody(t: nat, segment: Option<nat>, last: bool, payload: seq<bv8>, ghost carousel: Carousel,
                  ghost coherent: bool)
      requires Valid() && serviceId.Some?
      requires coherent ==> Coherent(carousel) && FromCarousel(carousel, serviceId.value, Body(t, segment, last, payload))
      modifies this, writer, writer.flash
      ensures Valid() && (coherent ==> Coherent(carousel)) && serviceId == old(serviceId)
      ensures writer.faults >= old(writer.faults) && old(nextId) <= nextId <= old(nextId) + 1
      ensures nextId == old(nextId) ==> Shown() == old(Shown()) && writer.shown == old(writer.shown)
      ensures mime == old(mime) && bodySize == old(bodySize)
      ensures nextId != old(nextId) ==> writer.shown == Some(SlideInfo(old(nextId), mime, bodySize))
      ensures !Wanted(old(transportId), old(received), t, segment) ==>
                unchanged(this) && unchanged(writer) && unchanged(writer.flash)
      ensures coherent && Wanted(old(transportId), old(received), t, segment) ==>
                Counted(carousel[(serviceId.value, t)], t, segment.value)
    {
      if Some(t) != transportId || segment.None? || segment.value >= MAX_SEGMENTS || segment.value in received
         || (lastSegment.Some? && segment.value > lastSegment.value) {
        return;
      }
      ghost var obj := if coherent then carousel[(serviceId.value, t)] else MotObject([], 0, 0);
      var k := segment.value;
      if coherent {
        SegmentBounds(obj, k);
      }
      var offset := OffsetOf(k, last, |payload|, obj);
      if payload == [] || offset.None? {
        return;
      }
      StoreSegment(k, offset.value, last, payload, carousel, coherent);
    }

    /** The segment of the object in progress that the carousel has there. */
    ghost predicate IsCarousels(carousel: Carousel, k: nat, offset: nat, last: bool, payload: seq<bv8>)
      reads this, writer, writer.flash
    {
      && Coherent(carousel) && serviceId.Some? && transportId.Some? && k !in received
      && var obj := carousel[(serviceId.value, transportId.value)];
         && k < obj.count && last == (k == obj.count - 1)
         && offset == SegmentStart(obj, k) < SegmentEnd(obj, k) <= |obj.body|
         && payload == obj.body[offset..SegmentEnd(obj, k)]
    }

    method StoreSegment(k: nat, offset: nat, last: bool, payload: seq<bv8>, ghost carousel: Carousel, ghost coherent: bool)
      requires Valid() && serviceId.Some? && transportId.Some?
      requires payload != [] && offset + |payload| <= bodySize
      requires coherent ==> IsCarousels(carousel, k, offset, last, payload)
      modifies this, writer, writer.flash
      ensures Valid() && (coherent ==> Coherent(carousel)) && serviceId == old(serviceId)
      ensures writer.faults >= old(writer.faults) && old(nextId) <= nextId <= old(nextId) + 1
      ensures nextId == old(nextId) ==> Shown() == old(Shown()) && writer.shown == old(writer.shown)
      ensures mime == old(mime) && bodySize == old(bodySize)
      ensures nextId != old(nextId) ==> writer.shown == Some(SlideInfo(old(nextId), mime, bodySize))
      ensures coherent ==> Counted(carousel[(serviceId.value, old(transportId).value)], old(transportId).value, k)
    {
      ghost var obj := if coherent then carousel[(serviceId.value, transportId.value)] else MotObject([], 0, 0);
      var stored := StoreBytes(k, offset, payload, obj, coherent);
      if !stored {
        transportId := None;
        return;
      }
      CountSegment(k, last, carousel, coherent);
    }

    /** Counts a stored segment, and puts the object on show when it was the last one missing. */
    method CountSegment(k: nat, last: bool, ghost carousel: Carousel, ghost coherent: bool)
      requires Valid() && serviceId.Some? && transportId.Some?
      requires coherent ==>
                 && Coherent(carousel) && k !in received
                 && var obj := carousel[(serviceId.value, transportId.value)];
                    k < obj.count && last == (k == obj.count - 1) && Stored(obj, received + {k}, writer.contents)
      modifies this, writer
      ensures Valid() && (coherent ==> Coherent(carousel)) && serviceId == old(serviceId)
      ensures writer.faults == old(writer.faults) && old(nextId) <= nextId <= old(nextId) + 1
      ensures nextId == old(nextId) ==> Shown() == old(Shown()) && writer.shown == old(writer.shown)
      ensures mime == old(mime) && bodySize == old(bodySize)
      ensures nextId != old(nextId) ==> writer.shown == Some(SlideInfo(old(nextId), mime, bodySize))
      ensures coherent ==> Counted(carousel[(serviceId.value, old(transportId).value)], old(transportId).value, k)
    {
      ghost var obj := if coherent then carousel[(serviceId.value, transportId.value)] else MotObject([], 0, 0);
      received := received + {k};
      if last {
        lastSegment := Some(k);
      }
      if coherent {
        Pigeonhole(received, obj.count);
      }
      if Complete() {
        Publish(obj, coherent);
      }
    }

    method StoreBytes(k: nat, offset: nat, payload: seq<bv8>, ghost obj: MotObject, ghost coherent: bool)
      returns (stored: bool)
      requires writer.Valid() && writer.writing && payload != [] && offset + |payload| <= bodySize <= SLOT_SIZE
      requires coherent ==> Assembling(obj) && k < obj.count
                            && offset == SegmentStart(obj, k) < SegmentEnd(obj, k) <= |obj.body|
                            && payload == obj.body[offset..SegmentEnd(obj, k)]
      modifies writer`erased, writer`eraseLog, writer`contents, writer`failed, writer`faults, writer.flash
      ensures writer.Valid() && writer.faults >= old(writer.faults) && Shown() == old(Shown())
      ensures writer.registered && !stored ==> writer.faults > old(writer.faults)
      ensures coherent && stored ==> Assembling(obj) && Stored(obj, received + {k}, writer.contents)
    {
      ghost var before := writer.contents;
      stored := writer.WriteSlide(offset, payload);
      if coherent && stored {
        StoredOneMore(obj, received, before, k);
        assert writer.contents == Merged(before, offset, payload);
      }
    }

    /** Puts the finished object on show. */
    method Publish(ghost obj: MotObject, ghost coherent: bool)
      requires writer.Valid() && writer.writing && transportId.Some? && bodySize <= SLOT_SIZE
      requires coherent ==>
                 && WellFormed(obj) && bodySize == |obj.body| && Stored(obj, received, writer.contents)
                 && |received| == obj.count && forall k :: k in received ==> k < obj.count
      modifies this`nextId, this`shownTransportId, this`transportId, writer
      ensures writer.Valid() && nextId == old(nextId) + 1 && writer.faults == old(writer.faults)
      ensures transportId == None && shownTransportId == old(transportId)
      ensures writer.shown == Some(SlideInfo(old(nextId), mime, bodySize))
      ensures coherent ==> writer.ShownBytes() == obj.body
    {
      writer.CommitSlide(SlideInfo(nextId, mime, bodySize));
      if coherent {
        AllStored(obj, received, writer.contents);
        assert writer.ShownBytes() == obj.body;
      }
      nextId := nextId + 1;
      shownTransportId := transportId;
      transportId := None;
    }
  }

  ghost predicate Stored(obj: MotObject, received: set<nat>, contents: map<nat, bv8>) {
    && (forall o :: o in contents ==> o < |obj.body| && contents[o] == obj.body[o])
    && (forall k, o: nat :: k in received && SegmentStart(obj, k) <= o < SegmentEnd(obj, k) ==> o in contents)
  }

  /** Storing a segment once more adds its bytes and changes none. */
  lemma StoredOneMore(obj: MotObject, received: set<nat>, contents: map<nat, bv8>, k: nat)
    requires WellFormed(obj) && k < obj.count && Stored(obj, received, contents)
    requires SegmentStart(obj, k) <= SegmentEnd(obj, k) <= |obj.body|
    ensures Stored(obj, received + {k},
                   Merged(contents, SegmentStart(obj, k), obj.body[SegmentStart(obj, k)..SegmentEnd(obj, k)]))
  {
    var start := SegmentStart(obj, k);
    var bytes := obj.body[start..SegmentEnd(obj, k)];
    forall o | o in Merged(contents, start, bytes)
      ensures o < |obj.body| && Merged(contents, start, bytes)[o] == obj.body[o]
    {
      if InRange(o, start, |bytes|) {
        AndSame(obj.body[o]);
      }
    }
  }

  /** With as many segments as the object has, every byte of it is stored. */
  lemma AllStored(obj: MotObject, received: set<nat>, contents: map<nat, bv8>)
    requires WellFormed(obj) && Stored(obj, received, contents)
    requires |received| == obj.count && forall k :: k in received ==> k < obj.count
    ensures forall o: nat :: o < |obj.body| ==> o in contents && contents[o] == obj.body[o]
  {
    Pigeonhole(received, obj.count);
    forall o: nat | o < |obj.body|
      ensures o in contents
    {
      var k := SegmentOf(obj, o);
      assert k in received;
    }
  }

  // ---- A whole object -------------------------------------------------------

  /** The segments of object `t` among `groups`. */
  function Delivered(groups: seq<MotGroup>, t: nat): set<nat> {
    if groups == [] then {} else Delivered(groups[..|groups| - 1], t) + DeliveredBy(groups[|groups| - 1], t)
  }

  function DeliveredBy(group: MotGroup, t: nat): set<nat> {
    if group.Body? && group.transportId == t && group.segment.Some? && group.segment.value < MAX_SEGMENTS
    then {group.segment.value} else {}
  }

  /** How far the object has come: short of a flash fault, on show once all of it was delivered, and not before. */
  ghost predicate Progress(a: MotSlideAssembler, obj: MotObject, t: nat, kind: SlideMime, delivered: set<nat>, faults: nat)
    reads a, a.writer, a.writer.flash
    requires a.writer.Valid()
  {
    && (forall k :: k in delivered ==> k < obj.count && k < MAX_SEGMENTS)
    && (a.writer.faults > faults ||
        if a.transportId == Some(t)
        then
          && a.shownTransportId != Some(t) && a.mime == kind && a.bodySize == |obj.body|
          && a.received == delivered && |delivered| < obj.count
        else
          && a.transportId == None && a.shownTransportId == Some(t) && OnShow(a, obj, kind)
          && |delivered| == obj.count)
  }

  /** The object is on show, as what its header said it is. */
  ghost predicate OnShow(a: MotSlideAssembler, obj: MotObject, kind: SlideMime)
    reads a, a.writer, a.writer.flash
    requires a.writer.Valid()
  {
    && a.Shown() == Some(obj.body)
    && a.writer.shown.value.mime == kind && a.writer.shown.value.size == |obj.body|
  }

  lemma AllDelivered(delivered: set<nat>, more: set<nat>, count: nat)
    requires forall k :: k in delivered + more ==> k < count
    requires |delivered| == count
    ensures delivered + more == delivered
  {
    Pigeonhole(delivered, count);
  }

  /** One more group: some body segment of the carousel, or the object's header again. */
  ghost predicate Deliverable(carousel: Carousel, service: nat, t: nat, group: MotGroup) {
    FromCarousel(carousel, service, group) && (group.Body? || group.transportId == t)
  }

  /** A body segment the assembler has no use for: one it has, or one past the last it counts. */
  predicate Ignored(group: MotGroup, t: nat, delivered: set<nat>) {
    group.Body? && group.transportId == t && group.segment.Some?
    && (group.segment.value >= MAX_SEGMENTS || group.segment.value in delivered)
  }

  method Deliver(a: MotSlideAssembler, group: MotGroup, ghost carousel: Carousel, ghost obj: MotObject, service: nat,
                 t: nat, ghost kind: SlideMime, ghost delivered: set<nat>, ghost faults: nat)
    requires a.Valid() && a.serviceId == Some(service) && a.writer.faults >= faults
    requires a.writer.faults == faults ==> a.Coherent(carousel)
    requires Deliverable(carousel, service, t, group) || Ignored(group, t, delivered)
    requires (service, t) in carousel && obj == carousel[(service, t)]
    requires Progress(a, obj, t, kind, delivered, faults)
    modifies a, a.writer, a.writer.flash
    ensures a.Valid() && a.serviceId == Some(service) && a.writer.faults >= faults
    ensures a.writer.faults == faults ==> a.Coherent(carousel)
    ensures old(a.Coherent(carousel)) && Deliverable(carousel, service, t, group) ==> a.Coherent(carousel)
    ensures Progress(a, obj, t, kind, delivered + DeliveredBy(group, t), faults)
  {
    ghost var more := DeliveredBy(group, t);
    if |delivered| == obj.count && a.writer.faults == faults {
      AllDelivered(delivered, more, obj.count);
    }
    ghost var wanted := group.Body?
                        && MotSlideAssembler.Wanted(a.transportId, a.received, group.transportId, group.segment);
    if (a.transportId == Some(t) && !wanted && a.writer.faults <= faults) || group.Header? {
      assert delivered + more == delivered;
    }
    a.Apply(service, group, carousel);
  }

  predicate AllCame(delivered: set<nat>, count: nat) {
    forall k: nat :: k < count ==> k in delivered
  }

  lemma AllCameIff(delivered: set<nat>, count: nat)
    requires forall k :: k in delivered ==> k < count
    ensures |delivered| <= count && (|delivered| == count <==> AllCame(delivered, count))
  {
    Pigeonhole(delivered, count);
    RangeSize(count);
    if AllCame(delivered, count) {
      assert delivered == Range(0, count);
    }
  }

  lemma OnShowIff(a: MotSlideAssembler, obj: MotObject, t: nat, kind: SlideMime, delivered: set<nat>)
    requires a.writer.Valid() && Progress(a, obj, t, kind, delivered, a.writer.faults)
    ensures a.shownTransportId == Some(t) <==> AllCame(delivered, obj.count)
    ensures a.shownTransportId == Some(t) ==> OnShow(a, obj, kind)
  {
    AllCameIff(delivered, obj.count);
  }

  lemma {:induction false} RangeSize(count: nat)
    ensures |Range(0, count)| == count
  {
    if count > 0 {
      RangeSize(count - 1);
      assert Range(0, count) == Range(0, count - 1) + {count - 1};
    }
  }

  ghost predicate AllDeliverable(carousel: Carousel, service: nat, t: nat, groups: seq<MotGroup>) {
    forall i: nat :: i < |groups| ==> Deliverable(carousel, service, t, groups[i])
  }

  ghost predicate DeliverableOrIgnored(carousel: Carousel, service: nat, t: nat, groups: seq<MotGroup>, i: nat)
    requires i < |groups|
  {
    Deliverable(carousel, service, t, groups[i]) || Ignored(groups[i], t, Delivered(groups[..i], t))
  }

  method DeliverAll(a: MotSlideAssembler, t: nat, ghost kind: SlideMime, groups: seq<MotGroup>, ghost carousel: Carousel,
                    ghost obj: MotObject, service: nat, ghost faults: nat)
    requires a.Coherent(carousel) && a.serviceId == Some(service) && faults == a.writer.faults
    requires (service, t) in carousel && obj == carousel[(service, t)]
    requires forall i: nat :: i < |groups| ==> DeliverableOrIgnored(carousel, service, t, groups, i)
    requires Progress(a, obj, t, kind, {}, faults)
    modifies a, a.writer, a.writer.flash
    ensures a.Valid() && a.serviceId == Some(service) && a.writer.faults >= faults
    ensures a.writer.faults == faults || AllDeliverable(carousel, service, t, groups) ==> a.Coherent(carousel)
    ensures Progress(a, obj, t, kind, Delivered(groups, t), faults)
  {
    ghost var delivered := {};
    var i := 0;
    assert groups[..0] == [];
    while i < |groups|
      invariant i <= |groups| && a.Valid() && a.serviceId == Some(service)
      invariant a.writer.faults == faults || AllDeliverable(carousel, service, t, groups) ==> a.Coherent(carousel)
      invariant delivered == Delivered(groups[..i], t) && a.writer.faults >= faults
      invariant Progress(a, obj, t, kind, delivered, faults)
    {
      assert DeliverableOrIgnored(carousel, service, t, groups, i);
      DeliveredMore(groups, i, t);
      Deliver(a, groups[i], carousel, obj, service, t, kind, delivered, faults);
      delivered := delivered + DeliveredBy(groups[i], t);
      i := i + 1;
    }
    assert groups[..i] == groups;
  }

  lemma DeliveredMore(groups: seq<MotGroup>, i: nat, t: nat)
    requires i < |groups|
    ensures Delivered(groups[..i + 1], t) == Delivered(groups[..i], t) + DeliveredBy(groups[i], t)
  {
    assert groups[..i + 1][..i] == groups[..i];
  }

  /**
   * An object from its header on, among segments of any objects of its carousel, in any order and
   * repeated at will, from whatever service was on before: short of a flash fault it is on show,
   * whole and as what its header said, exactly when all of its segments have come, of which there can
   * be no more than `MAX_SEGMENTS`.
   */
  method DeliverObject(a: MotSlideAssembler, t: nat, size: nat, kind: SlideMime, groups: seq<MotGroup>,
                       ghost carousel: Carousel, service: nat, ghost obj: MotObject)
    requires a.Coherent(carousel) && a.writer.registered
    requires a.serviceId == Some(service) ==> a.transportId != Some(t) && a.shownTransportId != Some(t)
    requires (service, t) in carousel && obj == carousel[(service, t)] && size == |obj.body| <= SLOT_SIZE
    requires forall i: nat :: i < |groups| ==> DeliverableOrIgnored(carousel, service, t, groups, i)
    modifies a, a.writer, a.writer.flash
    ensures a.Valid() && a.serviceId == Some(service) && a.writer.faults >= old(a.writer.faults)
    ensures a.writer.faults == old(a.writer.faults) || AllDeliverable(carousel, service, t, groups) ==> a.Coherent(carousel)
    ensures a.writer.faults == old(a.writer.faults) ==>
              && (a.shownTransportId == Some(t) <==> AllCame(Delivered(groups, t), obj.count))
              && (a.shownTransportId == Some(t) ==> OnShow(a, obj, kind))
  {
    SomeBody(obj);
    a.Apply(service, Header(t, size, Some(kind)), carousel);
    DeliverAll(a, t, kind, groups, carousel, obj, service, a.writer.faults);
    if a.writer.faults == old(a.writer.faults) {
      OnShowIff(a, obj, t, kind, Delivered(groups, t));
    }
  }

  lemma SomeBody(obj: MotObject)
    requires WellFormed(obj)
    ensures |obj.body| > 0
  {
    SmallerMultiple(0, obj.count - 1, obj.segmentSize);
  }

  /** A carousel of one object: two bytes, a segment each. */
  function Pair(first: bv8, second: bv8): MotObject {
    MotObject([first, second], 1, 2)
  }

  ghost predicate IsPairSegment(first: bv8, second: bv8, group: MotGroup) {
    FromCarousel(map[(0, 1) := Pair(first, second)], 0, group)
  }

  lemma PairSegments(first: bv8, second: bv8)
    ensures WellFormed(Pair(first, second))
    ensures IsPairSegment(first, second, Body(1, Some(0), false, [first]))
    ensures IsPairSegment(first, second, Body(1, Some(1), true, [second]))
  {
    SegmentBounds(Pair(first, second), 0);
    SegmentBounds(Pair(first, second), 1);
    assert Pair(first, second).body[0..1] == [first] && Pair(first, second).body[1..2] == [second];
  }

  /** An object that changes under its transport id half-way: a segment of each makes up the slide. */
  method ReusedIdMixes() returns (a: MotSlideAssembler)
    ensures fresh(a) && fresh(a.writer) && a.Valid()
    ensures IsPairSegment(0, 0, Body(1, Some(0), false, [0])) && IsPairSegment(1, 1, Body(1, Some(1), true, [1]))
    ensures a.writer.faults == 0 ==> a.Shown() == Some([0, 1])
  {
    PairSegments(0, 0);
    PairSegments(1, 1);
    PairSegments(0, 1);
    var store := new FlashSlideStore(true);
    a := new MotSlideAssembler(store);
    ghost var mixed := map[(0, 1) := Pair(0, 1)];
    assert OnAir(mixed);
    var groups := [Body(1, Some(0), false, [0]), Body(1, Some(1), true, [1])];
    DeliverObject(a, 1, 2, Jpeg, groups, mixed, 0, Pair(0, 1));
    assert groups[..1][..0] == [] && groups[..2] == groups;
    assert 0 in DeliveredBy(groups[0], 1) && 1 in DeliveredBy(groups[1], 1);
  }
}
