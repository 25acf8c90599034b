/** An object that changes under its transport id while it is being received. */
module MotVersions {
  import opened Base
  import opened SlideFlash
  import opened SlideReads
  import opened MotSlides

  /** What the object is in each of its versions, all cut up alike. */
  type Versions = nat -> MotObject

  predicate SameShape(a: MotObject, b: MotObject) {
    |a.body| == |b.body| && a.segmentSize == b.segmentSize && a.count == b.count
  }

  ghost predicate OfShape(versions: Versions, shape: MotObject) {
    forall v: nat :: SameShape(versions(v), shape)
  }

  // ---- Which version a segment is first received from -----------------------

  /** `tags[i]` is the version group `i` was sent with. */
  function FirstOf(groups: seq<MotGroup>, tags: seq<nat>, t: nat, k: nat): nat
    requires |groups| == |tags|
  {
    if groups == [] then 0
    else
      var n := |groups| - 1;
      if k in Delivered(groups[..n], t) then FirstOf(groups[..n], tags[..n], t, k)
      else if k in DeliveredBy(groups[n], t) then tags[n]
      else 0
  }

  lemma {:induction false} FirstIsFirst(groups: seq<MotGroup>, tags: seq<nat>, t: nat, i: nat, k: nat)
    requires |groups| == |tags| && i < |groups|
    requires k in DeliveredBy(groups[i], t) && k !in Delivered(groups[..i], t)
    ensures k in Delivered(groups, t) && FirstOf(groups, tags, t, k) == tags[i]
  {
    var n := |groups| - 1;
    if i < n {
      assert groups[..n][..i] == groups[..i];
      FirstIsFirst(groups[..n], tags[..n], t, i, k);
    }
  }

  function Firsts(groups: seq<MotGroup>, tags: seq<nat>, t: nat, count: nat): (first: seq<nat>)
    requires |groups| == |tags|
    ensures |first| == count && forall k: nat :: k < count ==> first[k] == FirstOf(groups, tags, t, k)
  {
    seq(count, k requires 0 <= k < count => FirstOf(groups, tags, t, k))
  }

  // ---- The mixture ----------------------------------------------------------

  lemma SegmentAt(shape: MotObject, o: nat, k: nat)
    requires WellFormed(shape) && o < |shape.body| && k < shape.count
    ensures o / shape.segmentSize < shape.count
    ensures o / shape.segmentSize == k <==> SegmentStart(shape, k) <= o < SegmentEnd(shape, k)
  {
    var j := o / shape.segmentSize;
    DivideInto(o, shape.segmentSize, j);
    if j >= shape.count {
      SmallerMultiple(shape.count, j, shape.segmentSize);
    }
    NextMultiple(k, shape.segmentSize);
    NextMultiple(shape.count - 1, shape.segmentSize);
    if j < k {
      SmallerMultiple(j + 1, k, shape.segmentSize);
    } else if k < j {
      SmallerMultiple(k + 1, j, shape.segmentSize);
    }
  }

  lemma DivideInto(o: nat, size: nat, j: nat)
    requires size > 0 && j == o / size
    ensures j * size <= o < (j + 1) * size
  {
    assert o == j * size + o % size;
  }

  ghost predicate Mixable(versions: Versions, first: seq<nat>, shape: MotObject) {
    WellFormed(shape) && OfShape(versions, shape) && |first| == shape.count
  }

  /** The byte at `o` as the version of its segment has it. */
  ghost function ByteOf(versions: Versions, first: seq<nat>, shape: MotObject, o: nat): bv8
    requires Mixable(versions, first, shape) && o < |shape.body|
  {
    SegmentAt(shape, o, 0);
    assert SameShape(versions(first[o / shape.segmentSize]), shape);
    versions(first[o / shape.segmentSize]).body[o]
  }

  /** Each segment as its version has it. */
  ghost function Mixture(versions: Versions, first: seq<nat>, shape: MotObject): (mixed: MotObject)
    requires Mixable(versions, first, shape)
    ensures SameShape(mixed, shape) && WellFormed(mixed)
    ensures forall o: nat :: o < |shape.body| ==> mixed.body[o] == ByteOf(versions, first, shape, o)
  {
    MotObject(seq(|shape.body|, o requires 0 <= o < |shape.body| => ByteOf(versions, first, shape, o)),
              shape.segmentSize, shape.count)
  }

  lemma SegmentOfMixture(versions: Versions, first: seq<nat>, shape: MotObject, k: nat)
    requires Mixable(versions, first, shape) && k < shape.count
    ensures SegmentStart(shape, k) < SegmentEnd(shape, k) <= |shape.body| == |versions(first[k]).body|
    ensures Mixture(versions, first, shape).body[SegmentStart(shape, k)..SegmentEnd(shape, k)]
            == versions(first[k]).body[SegmentStart(shape, k)..SegmentEnd(shape, k)]
  {
    SegmentBounds(shape, k);
    assert SameShape(versions(first[k]), shape);
    forall o: nat | SegmentStart(shape, k) <= o < SegmentEnd(shape, k)
      ensures Mixture(versions, first, shape).body[o] == versions(first[k]).body[o]
    {
      SegmentAt(shape, o, k);
    }
  }

  // ---- When the mixture is one of the versions ------------------------------

  ghost predicate IsOneVersion(versions: Versions, first: seq<nat>, shape: MotObject)
    requires Mixable(versions, first, shape)
  {
    exists v: nat :: Mixture(versions, first, shape).body == versions(v).body
  }

  predicate AllFrom(first: seq<nat>, v: nat) {
    forall k: nat :: k < |first| ==> first[k] == v
  }

  lemma OneVersionIsWhole(versions: Versions, first: seq<nat>, shape: MotObject)
    requires Mixable(versions, first, shape) && AllFrom(first, first[0])
    ensures Mixture(versions, first, shape).body == versions(first[0]).body
  {
    var mixed, one := Mixture(versions, first, shape), versions(first[0]);
    assert SameShape(one, shape);
    forall o: nat | o < |shape.body|
      ensures mixed.body[o] == one.body[o]
    {
      SegmentAt(shape, o, 0);
    }
  }

  /** Version `v` all zeros, every other all ones. */
  function TwoVersions(v: nat, shape: MotObject): Versions {
    (w: nat) => MotObject(TwoTone(v, |shape.body|)(w), shape.segmentSize, shape.count)
  }

  lemma TwoVersionsAre(v: nat, shape: MotObject)
    ensures OfShape(TwoVersions(v, shape), shape)
    ensures forall w: nat :: TwoVersions(v, shape)(w).body == Filled(if w == v then 0 else 1, |shape.body|)
  {
    forall w: nat
      ensures TwoVersions(v, shape)(w).body == Filled(if w == v then 0 else 1, |shape.body|)
    {
      TwoToneIs(v, |shape.body|, w);
    }
  }

  lemma TwoFirstsMix(first: seq<nat>, shape: MotObject, k: nat)
    requires WellFormed(shape) && |first| == shape.count && k < shape.count && first[k] != first[0]
    ensures OfShape(TwoVersions(first[0], shape), shape)
    ensures !IsOneVersion(TwoVersions(first[0], shape), first, shape)
  {
    var versions := TwoVersions(first[0], shape);
    TwoVersionsAre(first[0], shape);
    ByteInSegment(versions, first, shape, 0);
    ByteInSegment(versions, first, shape, k);
    var mixed := Mixture(versions, first, shape).body;
    assert mixed[SegmentStart(shape, 0)] == 0 && mixed[SegmentStart(shape, k)] == 1;
    forall w: nat
      ensures mixed != versions(w).body
    {
      assert versions(w).body == Filled(if w == first[0] then 0 else 1, |shape.body|);
    }
  }

  lemma ByteInSegment(versions: Versions, first: seq<nat>, shape: MotObject, k: nat)
    requires Mixable(versions, first, shape) && k < shape.count
    ensures SegmentStart(shape, k) < |shape.body| == |versions(first[k]).body|
    ensures Mixture(versions, first, shape).body[SegmentStart(shape, k)]
            == versions(first[k]).body[SegmentStart(shape, k)]
  {
    SegmentBounds(shape, k);
    SegmentAt(shape, SegmentStart(shape, k), k);
    assert SameShape(versions(first[k]), shape);
  }

  /**
   * Whatever the versions hold, the mixture is one of them exactly when all its segments come from
   * one.
   */
  lemma MixtureIsOneVersionIff(first: seq<nat>, shape: MotObject)
    requires WellFormed(shape) && |first| == shape.count
    ensures (forall versions: Versions :: OfShape(versions, shape) ==> IsOneVersion(versions, first, shape))
            <==> AllFrom(first, first[0])
  {
    if AllFrom(first, first[0]) {
      forall versions: Versions | OfShape(versions, shape)
        ensures IsOneVersion(versions, first, shape)
      {
        OneVersionIsWhole(versions, first, shape);
      }
    } else {
      var k: nat :| k < |first| && first[k] != first[0];
      TwoFirstsMix(first, shape, k);
    }
  }

  // ---- Receiving it ---------------------------------------------------------

  /** The carousel of other objects, with this one in a given form. */
  function With(others: Carousel, service: nat, t: nat, obj: MotObject): Carousel {
    others[(service, t) := obj]
  }

  /** Each group is the carousel's, with the object in the version of its tag. */
  ghost predicate Tagged(others: Carousel, service: nat, t: nat, versions: Versions, groups: seq<MotGroup>, tags: seq<nat>) {
    |groups| == |tags| &&
    forall i: nat :: i < |groups| ==> TaggedAt(others, service, t, versions, groups[i], tags[i])
  }

  ghost predicate TaggedAt(others: Carousel, service: nat, t: nat, versions: Versions, group: MotGroup, tag: nat) {
    Deliverable(With(others, service, t, versions(tag)), service, t, group)
  }

  /** A group of some version is one of the mixture's, unless the assembler has no use for it. */
  lemma TaggedFitsMixture(others: Carousel, service: nat, t: nat, versions: Versions, groups: seq<MotGroup>,
                          tags: seq<nat>, shape: MotObject, i: nat)
    requires Tagged(others, service, t, versions, groups, tags) && i < |groups|
    requires WellFormed(shape) && OfShape(versions, shape)
    ensures DeliverableOrIgnored(With(others, service, t,
                                      Mixture(versions, Firsts(groups, tags, t, shape.count), shape)),
                                 service, t, groups, i)
  {
    var first := Firsts(groups, tags, t, shape.count);
    var mixed := Mixture(versions, first, shape);
    assert TaggedAt(others, service, t, versions, groups[i], tags[i]);
    assert SameShape(versions(tags[i]), shape);
    var g := groups[i];
    if g.Body? && g.transportId == t && g.segment.Some? && !Ignored(g, t, Delivered(groups[..i], t)) {
      var k := g.segment.value;
      FirstIsFirst(groups, tags, t, i, k);
      SegmentOfMixture(versions, first, shape, k);
    }
  }

  lemma CoherentWith(a: MotSlideAssembler, others: Carousel, service: nat, t: nat, obj: MotObject)
    requires a.Coherent(others) && (service, t) !in others && WellFormed(obj)
    ensures a.Coherent(With(others, service, t, obj))
  {
    var carousel := With(others, service, t, obj);
    if a.writer.shown.Some? {
      var key :| key in others && Some(key.0) == a.serviceId && a.writer.ShownBytes() == others[key].body;
      assert key in carousel && carousel[key] == others[key];
    }
  }

  /**
   * An object that changes version while it comes in: short of a flash fault, what is on show once
   * all its segments have come is the mixture of the versions each was first received in.
   */
  method DeliverVersions(a: MotSlideAssembler, t: nat, kind: SlideMime, groups: seq<MotGroup>, ghost tags: seq<nat>,
                         ghost others: Carousel, service: nat, ghost versions: Versions, shape: MotObject)
    requires a.Coherent(others) && a.writer.registered && (service, t) !in others
    requires a.serviceId == Some(service) ==> a.shownTransportId != Some(t)
    requires WellFormed(shape) && |shape.body| <= SLOT_SIZE && OfShape(versions, shape)
    requires Tagged(others, service, t, versions, groups, tags)
    modifies a, a.writer, a.writer.flash
    ensures a.Valid() && a.writer.faults >= old(a.writer.faults)
    ensures a.writer.faults == old(a.writer.faults) ==>
              && (a.shownTransportId == Some(t) <==> AllCame(Delivered(groups, t), shape.count))
              && (a.shownTransportId == Some(t) ==>
                    OnShow(a, Mixture(versions, Firsts(groups, tags, t, shape.count), shape), kind))
  {
    ghost var mixed := Mixture(versions, Firsts(groups, tags, t, shape.count), shape);
    ghost var carousel := With(others, service, t, mixed);
    CoherentWith(a, others, service, t, mixed);
    forall i: nat | i < |groups|
      ensures DeliverableOrIgnored(carousel, service, t, groups, i)
    {
      TaggedFitsMixture(others, service, t, versions, groups, tags, shape, i);
    }
    DeliverObject(a, t, |shape.body|, kind, groups, carousel, service, mixed);
  }
}
