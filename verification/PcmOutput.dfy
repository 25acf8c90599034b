/** 16-bit PCM to the DSP's 32-bit I2S slots: the phone's re-framing loop and both batching loops. */
module PcmOutput {
  import opened Base

  const FRAME_BYTES := 4
  const RECV_BYTES := 4096
  const PHONE_BATCH_FRAMES := 1024
  const RADIO_BATCH_FRAMES := 480

  type Sample16 = x: int | -0x8000 <= x < 0x8000

  // ---- What is played -------------------------------------------------------

  /** A little-endian 16-bit sample. */
  function Sample(lo: Byte, hi: Byte): (s: Sample16)
    ensures (s - lo) % 256 == 0 && (s + 0x1_0000 - lo) / 256 % 256 == hi
  {
    if hi < 128 then lo + 256 * hi else lo + 256 * hi - 0x1_0000
  }

  function SamplesOf(bytes: seq<Byte>): (samples: seq<Sample16>)
    ensures |samples| == |bytes| / 2
    ensures forall i: nat :: i < |samples| ==> samples[i] == Sample(bytes[2 * i], bytes[2 * i + 1])
  {
    seq(|bytes| / 2, i requires 0 <= i < |bytes| / 2 => Sample(bytes[2 * i], bytes[2 * i + 1]))
  }

  /** A sample shifted into the top half of its slot. */
  function Slot(s: Sample16): (slot: int)
    ensures -0x8000_0000 <= slot < 0x8000_0000
  {
    s * 0x1_0000
  }

  function Slots(samples: seq<Sample16>): (slots: seq<int>)
    ensures |slots| == |samples|
    ensures forall i: nat :: i < |samples| ==> slots[i] == Slot(samples[i])
  {
    seq(|samples|, i requires 0 <= i < |samples| => Slot(samples[i]))
  }

  /** Bytes that make up whole frames. */
  function WholeFrames(n: nat): (m: nat)
    ensures m <= n < m + FRAME_BYTES && m % FRAME_BYTES == 0
  {
    n - n % FRAME_BYTES
  }

  /** What a byte stream sounds like: the samples of its longest prefix of whole frames. */
  function Played(bytes: seq<Byte>): seq<int> {
    Slots(SamplesOf(bytes[..WholeFrames(|bytes|)]))
  }

  /** The slots of whole frames, byte by byte: two zero bytes, the low byte, the high byte with the sign. */
  ghost predicate HeardAs(slots: seq<int>, bytes: seq<Byte>) {
    && |slots| == |bytes| / 4 * 2
    && forall i: nat :: i < |slots| ==> slots[i] == SlotOfBytes(bytes[2 * i], bytes[2 * i + 1])
  }

  function SlotOfBytes(lo: Byte, hi: Byte): int {
    0x1_0000 * lo + 0x100_0000 * hi - (if hi >= 0x80 then 0x1_0000_0000 else 0)
  }

  /** What is played is what was received. */
  lemma PlayedIsHeard(bytes: seq<Byte>)
    ensures HeardAs(Played(bytes), bytes)
  {
    var whole := bytes[..WholeFrames(|bytes|)];
    FrameCount(|bytes|);
    forall i: nat | i < |Played(bytes)|
      ensures Played(bytes)[i] == SlotOfBytes(bytes[2 * i], bytes[2 * i + 1])
    {
      assert SamplesOf(whole)[i] == Sample(whole[2 * i], whole[2 * i + 1]);
    }
  }

  lemma FrameCount(n: nat)
    ensures WholeFrames(n) / 2 == n / 4 * 2
  {
  }

  /** Each sample in the top half of its slot, nothing below. */
  ghost predicate ShiftedUp(slots: seq<int>, samples: seq<Sample16>) {
    && |slots| == |samples|
    && forall i: nat :: i < |slots| ==> slots[i] / 0x1_0000 == samples[i] && slots[i] % 0x1_0000 == 0
  }

  lemma SentIsShiftedUp(before: seq<int>, after: seq<int>, samples: seq<Sample16>)
    requires after == before + Slots(samples)
    ensures ShiftedUp(after[|before|..], samples)
  {
    var slots := after[|before|..];
    assert slots == Slots(samples);
    forall i: nat | i < |slots|
      ensures slots[i] / 0x1_0000 == samples[i] && slots[i] % 0x1_0000 == 0
    {
      SlotHalves(samples[i]);
    }
  }

  lemma SlotHalves(s: Sample16)
    ensures Slot(s) / 0x1_0000 == s && Slot(s) % 0x1_0000 == 0
  {
  }

  lemma SlotsAppend(a: seq<Sample16>, b: seq<Sample16>)
    ensures Slots(a + b) == Slots(a) + Slots(b)
  {
  }

  lemma SamplesAppend(a: seq<Byte>, b: seq<Byte>)
    requires |a| % 2 == 0
    ensures SamplesOf(a + b) == SamplesOf(a) + SamplesOf(b)
  {
    var ab := a + b;
    forall i: nat | i < |ab| / 2
      ensures SamplesOf(ab)[i] == (SamplesOf(a) + SamplesOf(b))[i]
    {
      if i < |a| / 2 {
        assert ab[2 * i] == a[2 * i] && ab[2 * i + 1] == a[2 * i + 1];
      } else {
        var j := i - |a| / 2;
        assert ab[2 * i] == b[2 * j] && ab[2 * i + 1] == b[2 * j + 1];
      }
    }
  }

  // ---- The shared I2S channel -----------------------------------------------

  class I2sSink {
    const taken: nat -> bool  // whether the DSP's clock is there for the n-th write
    var writes: nat           // writes so far
    var slots: seq<int>       // everything the channel has taken

    constructor (taken: nat -> bool)
      ensures this.taken == taken && writes == 0 && slots == []
    {
      this.taken := taken;
      writes, slots := 0, [];
    }

    /** Of the writes since `before`, the last one failed and no other. */
    ghost predicate JustFailed(before: nat)
      reads this
    {
      before < writes && !taken(writes - 1) && AllTaken(before, writes - 1)
    }

    ghost predicate AllTaken(before: nat, after: nat) {
      before <= after && forall n: nat :: before <= n < after ==> taken(n)
    }

    /** `i2s_channel_write` with a timeout: all of it, or some front of it and an error. */
    method WriteSamples(samples: array<int>, count: nat) returns (ok: bool)
      requires count <= samples.Length
      modifies this
      ensures ok ==> slots == old(slots) + samples[..count]
      ensures !ok ==> old(slots) <= slots <= old(slots) + samples[..count]
      ensures writes == old(writes) + 1 && ok == taken(old(writes))
    {
      writes := writes + 1;
      if taken(writes - 1) {
        slots := slots + samples[..count];
        return true;
      }
      var part: nat :| part <= count;
      assert samples[..part] <= samples[..count];
      slots := slots + samples[..part];
      return false;
    }
  }

  /** All of `wanted` went out, or after a failed write some front of it. */
  ghost predicate Sent(before: seq<int>, after: seq<int>, wanted: seq<int>, ok: bool) {
    before <= after <= before + wanted && (ok ==> after == before + wanted)
  }

  lemma SlotsOfPart(all: seq<Sample16>, a: nat, b: nat)
    requires a <= b <= |all|
    ensures Slots(all[..b]) == Slots(all[..a]) + Slots(all[a..b])
    ensures Slots(all[..b]) <= Slots(all)
  {
  }

  method FillBatch(out: array<int>, interleaved: array<Sample16>, from: nat, count: nat)
    requires from + count <= interleaved.Length && count <= out.Length
    modifies out
    ensures out[..count] == Slots(interleaved[from..from + count])
  {
    var i := 0;
    while i < count
      invariant i <= count
      invariant forall k: nat :: k < i ==> out[k] == Slot(interleaved[from + k])
    {
      out[i] := Slot(interleaved[from + i]);
      i := i + 1;
    }
  }

  method WriteBatch(sink: I2sSink, out: array<int>, interleaved: array<Sample16>, from: nat, count: nat,
                    ghost before: seq<int>, ghost all: seq<Sample16>) returns (ok: bool)
    requires from + count <= |all| <= interleaved.Length && count <= out.Length
    requires all == interleaved[..|all|] && sink.slots == before + Slots(all[..from])
    modifies sink, out
    ensures Sent(before, sink.slots, Slots(all), false)
    ensures ok ==> sink.slots == before + Slots(all[..from + count])
    ensures old(sink.slots) <= sink.slots && sink.writes == old(sink.writes) + 1 && ok == sink.taken(old(sink.writes))
  {
    FillBatch(out, interleaved, from, count);
    assert interleaved[from..from + count] == all[from..from + count];
    SlotsOfPart(all, from, from + count);
    ok := sink.WriteSamples(out, count);
    SentInFront(before, Slots(all[..from]), Slots(all[from..from + count]), Slots(all), sink.slots);
  }

  lemma SentInFront(before: seq<int>, done: seq<int>, part: seq<int>, all: seq<int>, after: seq<int>)
    requires done + part <= all && before + done <= after <= before + done + part
    ensures Sent(before, after, all, false)
    ensures before + done + part == before + (done + part)
  {
  }

  /** The batching loop of both producers, `batchFrames` frames at a time. */
  method WriteBatches(sink: I2sSink, interleaved: array<Sample16>, frameCount: nat, batchFrames: nat)
    returns (ok: bool)
    requires batchFrames > 0 && frameCount * 2 <= interleaved.Length
    modifies sink
    ensures Sent(old(sink.slots), sink.slots, Slots(interleaved[..frameCount * 2]), ok)
    ensures if ok then sink.AllTaken(old(sink.writes), sink.writes) else sink.JustFailed(old(sink.writes))
    ensures ok ==> ShiftedUp(sink.slots[|old(sink.slots)|..], interleaved[..frameCount * 2])
  {
    var out := new int[batchFrames * 2];
    ghost var all := interleaved[..frameCount * 2];
    var offset := 0;
    while offset < frameCount
      invariant offset <= frameCount && fresh(out) && all == interleaved[..frameCount * 2]
      invariant sink.slots == old(sink.slots) + Slots(all[..offset * 2])
      invariant sink.AllTaken(old(sink.writes), sink.writes)
    {
      var batch := Min(frameCount - offset, batchFrames);
      ok := WriteBatch(sink, out, interleaved, offset * 2, batch * 2, old(sink.slots), all);
      if !ok {
        return;
      }
      offset := offset + batch;
    }
    assert all[..offset * 2] == all;
    SentIsShiftedUp(old(sink.slots), sink.slots, all);
    ok := true;
  }

  /** The phone's output loop. */
  method WritePcm16Stereo(sink: I2sSink, interleaved: array<Sample16>, frameCount: nat) returns (ok: bool)
    requires frameCount * 2 <= interleaved.Length
    modifies sink
    ensures Sent(old(sink.slots), sink.slots, Slots(interleaved[..frameCount * 2]), ok)
    ensures if ok then sink.AllTaken(old(sink.writes), sink.writes) else sink.JustFailed(old(sink.writes))
  {
    ok := WriteBatches(sink, interleaved, frameCount, PHONE_BATCH_FRAMES);
  }

  /** The web radio's output loop: the same slots from smaller batches. */
  method WriteI2s(sink: I2sSink, stereo: array<Sample16>) returns (ok: bool)
    modifies sink
    ensures Sent(old(sink.slots), sink.slots, Slots(stereo[..stereo.Length / 2 * 2]), ok)
    ensures if ok then sink.AllTaken(old(sink.writes), sink.writes) else sink.JustFailed(old(sink.writes))
  {
    ok := WriteBatches(sink, stereo, stereo.Length / 2, RADIO_BATCH_FRAMES);
  }

  // ---- The phone's receive loop ---------------------------------------------

  lemma EvenLength(n: nat)
    requires n % FRAME_BYTES == 0
    ensures n % 2 == 0
  {
  }

  lemma PlayedMore(heard: seq<Byte>, more: seq<Byte>)
    requires |heard| % FRAME_BYTES == 0
    ensures Slots(SamplesOf(heard + more)) == Slots(SamplesOf(heard)) + Slots(SamplesOf(more))
  {
    EvenLength(|heard|);
    SamplesAppend(heard, more);
    SlotsAppend(SamplesOf(heard), SamplesOf(more));
  }

  /** `std::memcpy` of the usable bytes into 16-bit samples. */
  method Decode(buf: array<Byte>, frames: array<Sample16>, usable: nat)
    requires usable % 2 == 0 && usable <= buf.Length && usable <= frames.Length * 2
    modifies frames
    ensures frames[..usable / 2] == SamplesOf(buf[..usable])
  {
    var i := 0;
    while i < usable / 2
      invariant i <= usable / 2
      invariant forall k: nat :: k < i ==> frames[k] == Sample(buf[2 * k], buf[2 * k + 1])
    {
      frames[i] := Sample(buf[2 * i], buf[2 * i + 1]);
      i := i + 1;
    }
  }

  /** `recv` into the buffer behind the leftover: between one byte and the room there is, or none at the end. */
  method Receive(buf: array<Byte>, leftover: nat, stream: seq<Byte>, at: nat, size: nat) returns (n: nat)
    requires leftover <= buf.Length && at <= |stream|
    modifies buf
    ensures n == Min(size, Min(buf.Length - leftover, |stream| - at))
    ensures buf[..leftover + n] == old(buf[..leftover]) + stream[at..at + n]
  {
    n := Min(size, Min(buf.Length - leftover, |stream| - at));
    var i := 0;
    while i < n
      invariant i <= n
      invariant forall k: nat :: k < leftover ==> buf[k] == old(buf[k])
      invariant forall k: nat :: leftover <= k < leftover + i ==> buf[k] == stream[at + k - leftover]
    {
      buf[leftover + i] := stream[at + i];
      i := i + 1;
    }
  }

  /** `std::memmove` of the leftover to the front. */
  method KeepLeftover(buf: array<Byte>, usable: nat, leftover: nat)
    requires usable + leftover <= buf.Length
    modifies buf
    ensures buf[..leftover] == old(buf[usable..usable + leftover])
  {
    var i := 0;
    while i < leftover
      invariant i <= leftover
      invariant forall k: nat :: k < i ==> buf[k] == old(buf[usable + k])
      invariant forall k: nat :: usable + i <= k < buf.Length ==> buf[k] == old(buf[k])
    {
      buf[i] := buf[usable + i];
      i := i + 1;
    }
  }

  lemma StreamParts(stream: seq<Byte>, total: nat, received: nat, usable: nat)
    requires total % FRAME_BYTES == 0 && total <= received <= |stream| && usable == WholeFrames(received - total)
    ensures total + usable == WholeFrames(received)
    ensures stream[..total] + stream[total..received][..usable] == stream[..total + usable]
    ensures stream[total..received][usable..] == stream[total + usable..received]
  {
  }

  /** Plays the first `frameCount` frames in the buffer, after `heard`. */
  method PlayFrames(sink: I2sSink, buf: array<Byte>, frames: array<Sample16>, frameCount: nat,
                    ghost before: seq<int>, ghost heard: seq<Byte>, ghost now: seq<Byte>) returns (ok: bool)
    requires frameCount * FRAME_BYTES <= buf.Length <= frames.Length * 2 && |heard| % FRAME_BYTES == 0
    requires sink.slots == before + Slots(SamplesOf(heard))
    requires now == heard + buf[..frameCount * FRAME_BYTES]
    modifies sink, frames
    ensures Sent(before, sink.slots, Slots(SamplesOf(now)), ok) && old(sink.slots) <= sink.slots
    ensures if ok then sink.AllTaken(old(sink.writes), sink.writes) else sink.JustFailed(old(sink.writes))
  {
    Decode(buf, frames, frameCount * FRAME_BYTES);
    ghost var more := buf[..frameCount * FRAME_BYTES];
    PlayedMore(heard, more);
    ok := WritePcm16Stereo(sink, frames, frameCount);
    SentAfter(before, Slots(SamplesOf(heard)), sink.slots, Slots(SamplesOf(more)), ok);
  }

  lemma SentAfter(before: seq<int>, heard: seq<int>, after: seq<int>, more: seq<int>, ok: bool)
    requires Sent(before + heard, after, more, ok)
    ensures Sent(before, after, heard + more, ok)
  {
  }

  /** One batch received: the whole frames are played and the rest moves to the front. */
  method PlayReceived(sink: I2sSink, buf: array<Byte>, frames: array<Sample16>, available: nat,
                      ghost before: seq<int>, ghost stream: seq<Byte>, ghost total: nat)
    returns (usable: nat, ok: bool)
    requires available <= buf.Length == RECV_BYTES == frames.Length * 2
    requires total % FRAME_BYTES == 0 && total + available <= |stream|
    requires buf[..available] == stream[total..total + available]
    requires sink.slots == before + Slots(SamplesOf(stream[..total]))
    modifies sink, buf, frames
    ensures usable <= available < usable + FRAME_BYTES && total + usable == WholeFrames(total + available)
    ensures Sent(before, sink.slots, Slots(SamplesOf(stream[..total + usable])), ok) && old(sink.slots) <= sink.slots
    ensures if ok then sink.AllTaken(old(sink.writes), sink.writes) else sink.JustFailed(old(sink.writes))
    ensures ok ==> buf[..available - usable] == stream[total + usable..total + available]
  {
    usable := available - available % FRAME_BYTES;
    StreamParts(stream, total, total + available, usable);
    assert buf[..usable] == buf[..available][..usable];
    assert buf[usable..available] == buf[..available][usable..];
    ok := PlayFrames(sink, buf, frames, usable / FRAME_BYTES, before, stream[..total], stream[..total + usable]);
    if ok {
      KeepLeftover(buf, usable, available - usable);
    }
  }

  /** The receive loop's state: `total` bytes heard and the rest of what was received in the buffer. */
  ghost predicate Pumping(sink: I2sSink, buf: array<Byte>, before: seq<int>, stream: seq<Byte>,
                          leftover: nat, total: nat, received: nat)
    reads sink, buf
  {
    && buf.Length == RECV_BYTES && leftover < FRAME_BYTES
    && total + leftover == received <= |stream| && total % FRAME_BYTES == 0
    && buf[..leftover] == stream[total..received]
    && sink.slots == before + Slots(SamplesOf(stream[..total]))
  }

  lemma HeardSoFar(stream: seq<Byte>, received: nat)
    requires received <= |stream|
    ensures Played(stream[..received]) == Slots(SamplesOf(stream[..WholeFrames(received)]))
  {
    assert stream[..received][..WholeFrames(received)] == stream[..WholeFrames(received)];
  }

  method PumpOnce(sink: I2sSink, buf: array<Byte>, frames: array<Sample16>, stream: seq<Byte>, size: nat,
                  leftover: nat, total: nat, received: nat, ghost before: seq<int>)
    returns (n: nat, usable: nat, ok: bool)
    requires Pumping(sink, buf, before, stream, leftover, total, received) && frames.Length * 2 == RECV_BYTES
    modifies sink, buf, frames
    ensures received + n <= |stream| && (n == 0 <==> size == 0 || received == |stream|)
    ensures Sent(before, sink.slots, Slots(SamplesOf(stream[..WholeFrames(received + n)])), ok)
    ensures old(sink.slots) <= sink.slots
    ensures if ok then sink.AllTaken(old(sink.writes), sink.writes) else sink.JustFailed(old(sink.writes))
    ensures ok ==> usable <= leftover + n
                   && Pumping(sink, buf, before, stream, leftover + n - usable, total + usable, received + n)
  {
    n := Receive(buf, leftover, stream, received, size);
    if n == 0 {
      usable, ok := 0, true;
      WholeSoFar(total, leftover);
    } else {
      SplitAt(stream, total, received, received + n);
      usable, ok := PlayReceived(sink, buf, frames, leftover + n, before, stream, total);
    }
  }

  lemma SplitAt(stream: seq<Byte>, a: nat, b: nat, c: nat)
    requires a <= b <= c <= |stream|
    ensures stream[a..b] + stream[b..c] == stream[a..c]
  {
  }

  lemma WholeSoFar(total: nat, leftover: nat)
    requires total % FRAME_BYTES == 0 && leftover < FRAME_BYTES
    ensures WholeFrames(total + leftover) == total
  {
  }

  /** The rounds of the receive loop. */
  method PumpRounds(sink: I2sSink, buf: array<Byte>, frames: array<Sample16>, stream: seq<Byte>, sizes: seq<nat>,
                    ghost before: seq<int>) returns (leftover: nat, total: nat, received: nat, ok: bool)
    requires Pumping(sink, buf, before, stream, 0, 0, 0) && frames.Length * 2 == RECV_BYTES && before == sink.slots
    modifies sink, buf, frames
    ensures total <= received <= |stream| && total % FRAME_BYTES == 0
    ensures ok ==> Pumping(sink, buf, before, stream, leftover, total, received)
    ensures !ok ==> Sent(before, sink.slots, Slots(SamplesOf(stream[..WholeFrames(received)])), false)
                    && before + Slots(SamplesOf(stream[..total])) <= sink.slots
    ensures ok && (forall i: nat :: i < |sizes| ==> sizes[i] > 0) ==> received >= Min(|stream|, |sizes|)
    ensures if ok then sink.AllTaken(old(sink.writes), sink.writes) else sink.JustFailed(old(sink.writes))
  {
    leftover, total, received, ok := 0, 0, 0, true;
    var i := 0;
    while i < |sizes|
      invariant i <= |sizes| && received >= i
      invariant Pumping(sink, buf, before, stream, leftover, total, received)
      invariant sink.AllTaken(old(sink.writes), sink.writes)
    {
      var n, usable;
      n, usable, ok := PumpOnce(sink, buf, frames, stream, sizes[i], leftover, total, received, before);
      received := received + n;
      if !ok {
        return;
      }
      leftover := leftover + n - usable;
      total := total + usable;
      if n == 0 {
        break;
      }
      i := i + 1;
    }
  }

  /**
   * The receive loop over a byte stream that `recv` hands out in pieces of `sizes`. Up to a failed
   * write, what is heard depends only on the bytes received, never on how they were cut. It stops
   * at the first failed write, and the first `total` bytes were all heard; without one it goes on
   * to the end of the stream.
   */
  method Pump(sink: I2sSink, stream: seq<Byte>, sizes: seq<nat>) returns (total: nat, received: nat, ok: bool)
    modifies sink
    ensures received <= |stream|
    ensures Sent(old(sink.slots), sink.slots, Played(stream[..received]), ok)
    ensures ok ==> HeardAs(sink.slots[|old(sink.slots)|..], stream[..received])
    ensures ok ==> total == WholeFrames(received)
    ensures ok && (forall i: nat :: i < |sizes| ==> sizes[i] > 0) ==> received >= Min(|stream|, |sizes|)
    ensures total <= received && total % FRAME_BYTES == 0
    ensures old(sink.slots) + Slots(SamplesOf(stream[..total])) <= sink.slots
    ensures if ok then sink.AllTaken(old(sink.writes), sink.writes) else sink.JustFailed(old(sink.writes))
  {
    var buf := new Byte[RECV_BYTES](_ => 0);
    var frames := new Sample16[RECV_BYTES / 2](_ => 0);
    ghost var before := sink.slots;
    var leftover;
    leftover, total, received, ok := PumpRounds(sink, buf, frames, stream, sizes, before);
    if ok {
      AllHeard(before, sink.slots, stream, total, received);
    } else {
      SentIsHeard(before, sink.slots, stream, received, ok);
    }
  }

  lemma SentIsHeard(before: seq<int>, after: seq<int>, stream: seq<Byte>, received: nat, ok: bool)
    requires received <= |stream|
    requires Sent(before, after, Slots(SamplesOf(stream[..WholeFrames(received)])), ok)
    ensures Sent(before, after, Played(stream[..received]), ok)
  {
    HeardSoFar(stream, received);
  }

  lemma AllHeard(before: seq<int>, after: seq<int>, stream: seq<Byte>, total: nat, received: nat)
    requires total % FRAME_BYTES == 0 && total <= received < total + FRAME_BYTES && received <= |stream|
    requires after == before + Slots(SamplesOf(stream[..total]))
    ensures total == WholeFrames(received) && Sent(before, after, Played(stream[..received]), true)
    ensures HeardAs(after[|before|..], stream[..received])
  {
    WholeSoFar(total, received - total);
    HeardSoFar(stream, received);
    PlayedIsHeard(stream[..received]);
    assert after[|before|..] == Played(stream[..received]);
  }
}
