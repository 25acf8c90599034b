/** Shoutcast metadata removal: audio out of a stream cut into arbitrary chunks. */
module IcyFilter {
  import opened Base

  datatype Phase = Audio | Length | Metadata

  /** Where in the audio / length / metadata cycle a connection stands, and the blocks it has completed. */
  datatype Cycle = Cycle(phase: Phase, remaining: nat, metadata: seq<Byte>, blocks: seq<seq<Byte>>)

  predicate InCycle(interval: nat, c: Cycle) {
    && interval > 0
    && (c.phase == Audio ==> 0 < c.remaining <= interval)
    && (c.phase == Metadata ==> c.remaining > 0)
  }

  function Fresh(interval: nat): Cycle {
    Cycle(Audio, interval, [], [])
  }

  /** A metadata block ends: the audio run starts over. */
  function Finished(interval: nat, c: Cycle): Cycle {
    Cycle(Audio, interval, [], c.blocks + [c.metadata])
  }

  function AfterByte(interval: nat, c: Cycle, b: Byte): (after: Cycle)
    requires InCycle(interval, c)
    ensures InCycle(interval, after)
  {
    match c.phase
    case Audio => if c.remaining == 1 then c.(phase := Length, remaining := 0) else c.(remaining := c.remaining - 1)
    case Length =>
      var begun := c.(phase := Metadata, remaining := b * 16, metadata := []);
      if b == 0 then Finished(interval, begun) else begun
    case Metadata =>
      var more := c.(metadata := c.metadata + [b], remaining := c.remaining - 1);
      if more.remaining == 0 then Finished(interval, more) else more
  }

  function AfterBytes(interval: nat, c: Cycle, bytes: seq<Byte>): (after: Cycle)
    requires InCycle(interval, c)
    ensures InCycle(interval, after)
  {
    if bytes == [] then c
    else AfterByte(interval, AfterBytes(interval, c, bytes[..|bytes| - 1]), bytes[|bytes| - 1])
  }

  /** The audio among `bytes`. */
  function Strip(interval: nat, c: Cycle, bytes: seq<Byte>): seq<Byte>
    requires InCycle(interval, c)
  {
    if bytes == [] then []
    else
      var n := |bytes| - 1;
      Strip(interval, c, bytes[..n])
      + if AfterBytes(interval, c, bytes[..n]).phase == Audio then [bytes[n]] else []
  }

  lemma OneByteMore(interval: nat, c: Cycle, bytes: seq<Byte>, b: Byte)
    requires InCycle(interval, c)
    ensures AfterBytes(interval, c, bytes + [b]) == AfterByte(interval, AfterBytes(interval, c, bytes), b)
    ensures Strip(interval, c, bytes + [b])
            == Strip(interval, c, bytes) + if AfterBytes(interval, c, bytes).phase == Audio then [b] else []
  {
  }

  lemma AppendLast(a: seq<Byte>, b: seq<Byte>)
    requires b != []
    ensures a + b[..|b| - 1] + [b[|b| - 1]] == a + b
  {
  }

  lemma AppendThree(a: seq<Byte>, b: seq<Byte>, c: seq<Byte>)
    ensures a + b + c == a + (b + c)
  {
  }

  /** Where the stream is cut does not matter. */
  lemma {:induction false} StripIsChunkwise(interval: nat, c: Cycle, a: seq<Byte>, b: seq<Byte>)
    requires InCycle(interval, c)
    ensures AfterBytes(interval, c, a + b) == AfterBytes(interval, AfterBytes(interval, c, a), b)
    ensures Strip(interval, c, a + b)
            == Strip(interval, c, a) + Strip(interval, AfterBytes(interval, c, a), b)
  {
    if b == [] {
      assert a + b == a;
    } else {
      var n := |b| - 1;
      StripIsChunkwise(interval, c, a, b[..n]);
      OneByteMore(interval, c, a + b[..n], b[n]);
      AppendLast(a, b);
      var tail := if AfterBytes(interval, c, a + b[..n]).phase == Audio then [b[n]] else [];
      AppendThree(Strip(interval, c, a), Strip(interval, AfterBytes(interval, c, a), b[..n]), tail);
    }
  }

  /** Within an audio run every byte is audio. */
  lemma {:induction false} AudioRun(interval: nat, c: Cycle, bytes: seq<Byte>)
    requires InCycle(interval, c) && c.phase == Audio && |bytes| <= c.remaining
    ensures Strip(interval, c, bytes) == bytes
    ensures AfterBytes(interval, c, bytes)
            == if |bytes| == c.remaining then c.(phase := Length, remaining := 0)
               else c.(remaining := c.remaining - |bytes|)
  {
    if bytes != [] {
      AudioRun(interval, c, bytes[..|bytes| - 1]);
    }
  }

  /** Within a metadata block none is. */
  lemma {:induction false} MetadataRun(interval: nat, c: Cycle, bytes: seq<Byte>)
    requires InCycle(interval, c) && c.phase == Metadata && |bytes| <= c.remaining
    ensures Strip(interval, c, bytes) == []
    ensures AfterBytes(interval, c, bytes)
            == var more := c.(metadata := c.metadata + bytes, remaining := c.remaining - |bytes|);
               if |bytes| == c.remaining then Finished(interval, more) else more
  {
    if bytes == [] {
      assert c.metadata + bytes == c.metadata;
    } else {
      var n := |bytes| - 1;
      MetadataRun(interval, c, bytes[..n]);
      assert c.metadata + bytes == c.metadata + bytes[..n] + [bytes[n]];
    }
  }

  // ---- What the server sends ------------------------------------------------

  /** After each `interval` audio bytes, one length byte and a block sixteen times as long. */
  datatype Round = Round(audio: seq<Byte>, block: seq<Byte>)

  predicate Sendable(interval: nat, r: Round) {
    |r.audio| == interval && |r.block| % 16 == 0 && |r.block| / 16 < 256
  }

  function SentRound(r: Round): seq<Byte>
    requires |r.block| / 16 < 256
  {
    r.audio + [|r.block| / 16] + r.block
  }

  function Sent(interval: nat, rounds: seq<Round>): seq<Byte>
    requires forall i: nat :: i < |rounds| ==> Sendable(interval, rounds[i])
  {
    if rounds == [] then []
    else
      var last := rounds[|rounds| - 1];
      assert Sendable(interval, last);
      Sent(interval, rounds[..|rounds| - 1]) + SentRound(last)
  }

  function AudioOf(rounds: seq<Round>): seq<Byte> {
    if rounds == [] then [] else AudioOf(rounds[..|rounds| - 1]) + rounds[|rounds| - 1].audio
  }

  function BlocksOf(rounds: seq<Round>): seq<seq<Byte>> {
    if rounds == [] then [] else BlocksOf(rounds[..|rounds| - 1]) + [rounds[|rounds| - 1].block]
  }

  lemma RoundIsRecovered(interval: nat, blocks: seq<seq<Byte>>, r: Round)
    requires interval > 0 && Sendable(interval, r)
    ensures var c := Fresh(interval).(blocks := blocks);
            && Strip(interval, c, SentRound(r)) == r.audio
            && AfterBytes(interval, c, SentRound(r)) == c.(blocks := blocks + [r.block])
  {
    var c := Fresh(interval).(blocks := blocks);
    var size: Byte := |r.block| / 16;
    AudioRun(interval, c, r.audio);
    var c1 := AfterBytes(interval, c, r.audio);
    StripIsChunkwise(interval, c, r.audio, [size]);
    assert [size][..0] == [];
    assert AfterBytes(interval, c1, [size]) == AfterByte(interval, c1, size);
    assert Strip(interval, c1, [size]) == [];
    var c2 := AfterByte(interval, c1, size);
    StripIsChunkwise(interval, c, r.audio + [size], r.block);
    if r.block != [] {
      MetadataRun(interval, c2, r.block);
      assert [] + r.block == r.block;
    }
  }

  /** Exactly the audio the server sent comes out, and exactly its metadata blocks are seen. */
  lemma {:induction false} StreamIsRecovered(interval: nat, rounds: seq<Round>)
    requires interval > 0 && forall i: nat :: i < |rounds| ==> Sendable(interval, rounds[i])
    ensures Strip(interval, Fresh(interval), Sent(interval, rounds)) == AudioOf(rounds)
    ensures AfterBytes(interval, Fresh(interval), Sent(interval, rounds))
            == Fresh(interval).(blocks := BlocksOf(rounds))
  {
    if rounds != [] {
      var before := rounds[..|rounds| - 1];
      StreamIsRecovered(interval, before);
      RoundIsRecovered(interval, BlocksOf(before), rounds[|rounds| - 1]);
      StripIsChunkwise(interval, Fresh(interval), Sent(interval, before), SentRound(rounds[|rounds| - 1]));
    }
  }

  // ---- The filter -----------------------------------------------------------

  lemma ControlStep(interval: nat, c: Cycle, done: seq<Byte>, b: Byte)
    requires InCycle(interval, c) && AfterBytes(interval, c, done).phase != Audio
    ensures Strip(interval, c, done + [b]) == Strip(interval, c, done)
    ensures AfterBytes(interval, c, done + [b]) == AfterByte(interval, AfterBytes(interval, c, done), b)
  {
  }

  lemma AudioStep(interval: nat, c: Cycle, done: seq<Byte>, run: seq<Byte>)
    requires InCycle(interval, c)
    requires var now := AfterBytes(interval, c, done); now.phase == Audio && |run| <= now.remaining
    ensures Strip(interval, c, done + run) == Strip(interval, c, done) + run
    ensures AfterBytes(interval, c, done + run)
            == var now := AfterBytes(interval, c, done);
               if |run| == now.remaining then now.(phase := Length, remaining := 0)
               else now.(remaining := now.remaining - |run|)
  {
    AudioRun(interval, AfterBytes(interval, c, done), run);
    StripIsChunkwise(interval, c, done, run);
  }

  class IcyStreamFilter {
    const metaInterval: nat
    var remaining: nat
    var phase: Phase
    var metadata: seq<Byte>
    ghost var blocks: seq<seq<Byte>>

    constructor (metaInterval: nat)
      ensures this.metaInterval == metaInterval
      ensures metaInterval > 0 ==> Valid() && State() == Fresh(metaInterval)
    {
      this.metaInterval := metaInterval;
      remaining, phase, metadata, blocks := metaInterval, Audio, [], [];
    }

    ghost predicate Valid()
      reads this
    {
      metaInterval > 0 ==> InCycle(metaInterval, State())
    }

    ghost function State(): Cycle
      reads this
    {
      Cycle(phase, remaining, metadata, blocks)
    }

    method FinishMetadata()
      modifies this
      ensures State() == Finished(metaInterval, old(State()))
    {
      blocks := blocks + [metadata];
      metadata := [];
      remaining := metaInterval;
      phase := Audio;
    }

    method ConsumeControlByte(b: Byte)
      requires metaInterval > 0 && Valid() && phase != Audio
      modifies this
      ensures Valid() && State() == AfterByte(metaInterval, old(State()), b)
    {
      if phase == Length {
        remaining := b * 16;
        metadata := [];
        phase := Metadata;
        if remaining == 0 {
          FinishMetadata();
        }
        return;
      }
      metadata := metadata + [b];
      remaining := remaining - 1;
      if remaining == 0 {
        FinishMetadata();
      }
    }

    /** The first `at` bytes of a chunk that held `bytes` are filtered down to `kept`. */
    ghost predicate FilteredTo(chunk: array<Byte>, start: Cycle, bytes: seq<Byte>, at: nat, kept: nat)
      reads this, chunk
    {
      && metaInterval > 0 && Valid() && InCycle(metaInterval, start)
      && kept <= at <= chunk.Length == |bytes|
      && State() == AfterBytes(metaInterval, start, bytes[..at])
      && chunk[..kept] == Strip(metaInterval, start, bytes[..at])
      && chunk[at..] == bytes[at..]
    }

    method FilterControl(chunk: array<Byte>, at: nat, kept: nat, ghost start: Cycle, ghost bytes: seq<Byte>)
      requires FilteredTo(chunk, start, bytes, at, kept) && at < chunk.Length && phase != Audio
      modifies this
      ensures FilteredTo(chunk, start, bytes, at + 1, kept)
    {
      ControlStep(metaInterval, start, bytes[..at], bytes[at]);
      assert bytes[..at] + [bytes[at]] == bytes[..at + 1];
      assert chunk[at] == chunk[at..][0] == bytes[at];
      assert chunk[at + 1..] == chunk[at..][1..];
      ConsumeControlByte(chunk[at]);
    }

    method FilterAudio(chunk: array<Byte>, at: nat, kept: nat, ghost start: Cycle, ghost bytes: seq<Byte>)
      returns (run: nat)
      requires FilteredTo(chunk, start, bytes, at, kept) && at < chunk.Length && phase == Audio
      modifies this, chunk
      ensures run > 0 && FilteredTo(chunk, start, bytes, at + run, kept + run)
    {
      run := Min(remaining, chunk.Length - at);
      AudioStep(metaInterval, start, bytes[..at], bytes[at..at + run]);
      assert bytes[..at] + bytes[at..at + run] == bytes[..at + run];
      CopyDown(chunk, at, kept, run, bytes);
      remaining := remaining - run;
      if remaining == 0 {
        phase := Length;
      }
    }

    /** Compacts a chunk to its audio, in place. */
    method Filter(chunk: array<Byte>) returns (kept: nat)
      requires Valid()
      modifies this, chunk
      ensures Valid() && kept <= chunk.Length
      ensures chunk[..kept] == if metaInterval == 0 then old(chunk[..])
                               else Strip(metaInterval, old(State()), old(chunk[..]))
      ensures metaInterval > 0 ==> State() == AfterBytes(metaInterval, old(State()), old(chunk[..]))
    {
      if metaInterval == 0 {
        assert chunk[..chunk.Length] == chunk[..];
        return chunk.Length;
      }
      ghost var start, bytes := State(), chunk[..];
      kept := 0;
      var at := 0;
      while at < chunk.Length
        invariant FilteredTo(chunk, start, bytes, at, kept)
      {
        if phase != Audio {
          FilterControl(chunk, at, kept, start, bytes);
          at := at + 1;
        } else {
          var run := FilterAudio(chunk, at, kept, start, bytes);
          at := at + run;
          kept := kept + run;
        }
      }
      assert bytes[..at] == bytes;
    }
  }

  /** What a copy towards the front leaves, byte by byte. */
  ghost predicate CopiedSoFar(now: seq<Byte>, before: seq<Byte>, bytes: seq<Byte>, from: nat, to: nat, i: nat) {
    && to <= from && from + i <= |now| == |before| == |bytes|
    && (forall k: nat :: k < to ==> now[k] == before[k])
    && (forall k: nat :: to <= k < to + i ==> now[k] == bytes[from + k - to])
    && (forall k: nat :: from + i <= k < |now| ==> now[k] == bytes[k])
  }

  lemma CopyStarts(before: seq<Byte>, bytes: seq<Byte>, from: nat, to: nat)
    requires to <= from <= |before| == |bytes| && before[from..] == bytes[from..]
    ensures CopiedSoFar(before, before, bytes, from, to, 0)
  {
    assert forall k: nat :: from <= k < |before| ==> before[k] == before[from..][k - from] == bytes[k];
  }

  lemma CopyEnds(now: seq<Byte>, before: seq<Byte>, bytes: seq<Byte>, from: nat, to: nat, n: nat)
    requires CopiedSoFar(now, before, bytes, from, to, n)
    ensures now[..to + n] == before[..to] + bytes[from..from + n] && now[from + n..] == bytes[from + n..]
  {
  }

  /** `std::copy_n` towards the front of the same array. */
  method CopyDown(a: array<Byte>, from: nat, to: nat, n: nat, ghost bytes: seq<Byte>)
    requires to <= from && from + n <= a.Length == |bytes| && a[from..] == bytes[from..]
    modifies a
    ensures a[..to + n] == old(a[..to]) + bytes[from..from + n]
    ensures a[from + n..] == bytes[from + n..]
  {
    ghost var before := a[..];
    CopyStarts(before, bytes, from, to);
    var i := 0;
    while i < n
      invariant i <= n && CopiedSoFar(a[..], before, bytes, from, to, i)
    {
      a[to + i] := a[from + i];
      i := i + 1;
    }
    CopyEnds(a[..], before, bytes, from, to, n);
  }
}
