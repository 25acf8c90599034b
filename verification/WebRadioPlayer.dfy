/** The player's input buffer: ring -> compacting buffer -> MP3 decoder. */
module WebRadioPlayer {
  import opened Base

  const INPUT_SIZE := 4096
  const MAINBUF_SIZE := 1940

  // ---- Where the bytes of a session are -------------------------------------

  /** Bytes the read position has passed, bytes waiting in the buffer, bytes in the ring. */
  datatype Flow = Flow(passed: seq<Byte>, unread: seq<Byte>, ring: seq<Byte>)

  function AllBytes(f: Flow): seq<Byte> {
    f.passed + f.unread + f.ring
  }

  function Refilled(f: Flow): Flow
    requires |f.unread| <= INPUT_SIZE
  {
    var got := Min(|f.ring|, INPUT_SIZE - |f.unread|);
    Flow(f.passed, f.unread + f.ring[..got], f.ring[got..])
  }

  function Passed(f: Flow, n: nat): Flow
    requires n <= |f.unread|
  {
    Flow(f.passed + f.unread[..n], f.unread[n..], f.ring)
  }

  // ---- What the decoder library promises ------------------------------------

  datatype DecodeError = NoError | InDataUnderflow | MainDataUnderflow | OtherError

  /** Answers of one `MP3FindSyncWord` and `MP3Decode`, and of playing the decoded frame. */
  datatype Reply = Reply(sync: int, consumed: nat, left: nat, error: DecodeError,
                         playable: bool, outputOk: bool)

  /** The pointer stays inside the unread span, and a call that gets a frame or an error moves on. */
  predicate DecoderKeepsContract(unread: nat, r: Reply) {
    r.sync < 0 ||
    (r.sync < unread && r.consumed <= unread - r.sync &&
     match r.error
     case InDataUnderflow => unread - r.sync < MAINBUF_SIZE
     case OtherError => if r.left == unread - r.sync - r.consumed
                        then r.consumed < unread - r.sync
                        else r.consumed > 0
     case _ => r.consumed > 0)
  }

  datatype Decoded = Played | NeedData | Skipped | OutputFailed

  function ResultOf(r: Reply): Decoded {
    if r.sync < 0 then Skipped
    else match r.error
      case InDataUnderflow => NeedData
      case NoError => if !r.playable then Skipped else if r.outputOk then Played else OutputFailed
      case _ => Skipped
  }

  /** How far the read position moves. */
  function Advance(unread: nat, r: Reply): (n: nat)
    requires DecoderKeepsContract(unread, r)
    ensures n <= unread
    ensures unread > 0 && ResultOf(r) != NeedData ==> n > 0
    ensures unread >= MAINBUF_SIZE ==> n > 0
    ensures if r.sync < 0 then n == unread else r.sync + r.consumed <= n <= r.sync + r.consumed + 1
  {
    if r.sync < 0 then unread
    else if r.error == OtherError && r.left == unread - r.sync - r.consumed then r.sync + r.consumed + 1
    else r.sync + r.consumed
  }

  // ---- One round of playing ------------------------------------------------

  function StepRefill(f: Flow): Flow
    requires |f.unread| <= INPUT_SIZE
  {
    if |f.unread| < MAINBUF_SIZE then Refilled(f) else f
  }

  /** What `refill` reports, or 1 when it is not called. */
  function StepGot(f: Flow): nat
    requires |f.unread| <= INPUT_SIZE
  {
    if |f.unread| < MAINBUF_SIZE then |StepRefill(f).unread| - |f.unread| else 1
  }

  predicate StepContract(f: Flow, r: Reply)
    requires |f.unread| <= INPUT_SIZE
  {
    |StepRefill(f).unread| > 0 ==> DecoderKeepsContract(|StepRefill(f).unread|, r)
  }

  function Stepped(f: Flow, r: Reply): Flow
    requires |f.unread| <= INPUT_SIZE && StepContract(f, r)
  {
    var g := StepRefill(f);
    if |g.unread| == 0 then g else Passed(g, Advance(|g.unread|, r))
  }

  predicate Rebuffers(f: Flow, r: Reply)
    requires |f.unread| <= INPUT_SIZE
  {
    (|StepRefill(f).unread| == 0 || ResultOf(r) == NeedData) && StepGot(f) == 0
  }

  // ---- What the player says of itself ---------------------------------------

  datatype Shown = Buffering | Sounding | Silent

  /** The state shown, and whether the output is at fault. */
  datatype Status = Status(shown: Shown, outputFault: bool)

  function StepStatus(st: Status, f: Flow, r: Reply): Status
    requires |f.unread| <= INPUT_SIZE
  {
    var result := if |StepRefill(f).unread| == 0 then NeedData else ResultOf(r);
    if Rebuffers(f, r) then st.(shown := Buffering)
    else match result
      case OutputFailed => Status(Silent, true)
      case Played => Status(Sounding, false)
      case _ => st
  }

  /** Whether the step sent a decoded frame to the output, and whether the output took it. */
  function Output(f: Flow, r: Reply): Option<bool>
    requires |f.unread| <= INPUT_SIZE
  {
    if |StepRefill(f).unread| > 0 && r.sync >= 0 && r.error == NoError && r.playable then Some(r.outputOk) else None
  }

  /** The output is shown at fault from a frame it refused to the next one it takes, whatever comes between. */
  lemma StatusTellsOutput(st: Status, f: Flow, r: Reply)
    requires |f.unread| <= INPUT_SIZE
    ensures var after := StepStatus(st, f, r);
            match Output(f, r)
            case Some(taken) => after == Status(if taken then Sounding else Silent, !taken)
            case None =>
              && after.outputFault == st.outputFault
              && after.shown == if |f.unread| < 1940 && f.ring == []
                                   && (f.unread == [] || (r.sync >= 0 && r.error == InDataUnderflow))
                                then Buffering else st.shown
  {
  }

  /** A top-up leaves the buffer full or the ring empty. */
  lemma RefillFills(f: Flow)
    requires |f.unread| <= INPUT_SIZE
    ensures |Refilled(f).unread| == INPUT_SIZE || Refilled(f).ring == []
  {
  }

  /** A step tops up exactly when it has less than a frame's bytes. */
  lemma StepTopsUp(f: Flow)
    requires |f.unread| <= INPUT_SIZE
    ensures |f.unread| >= 1940 ==> StepRefill(f) == f
    ensures |f.unread| < 1940 ==> |StepRefill(f).unread| == INPUT_SIZE || StepRefill(f).ring == []
  {
    RefillFills(f);
  }

  /** It stops to refill the ring exactly when the ring is dry and the decoder has nothing, or too little. */
  lemma RebuffersIffDry(f: Flow, r: Reply)
    requires |f.unread| <= INPUT_SIZE
    ensures Rebuffers(f, r) <==>
              |f.unread| < 1940 && f.ring == [] && (f.unread == [] || (r.sync >= 0 && r.error == InDataUnderflow))
  {
  }

  predicate IsWholeFrame(r: Reply) {
    r.sync == 0 && r.error == NoError
  }

  function FrameBytes(replies: seq<Reply>): nat {
    if replies == [] then 0 else replies[0].consumed + FrameBytes(replies[1..])
  }

  function FlowAfter(f: Flow, replies: seq<Reply>): Flow
    requires |f.unread| <= INPUT_SIZE && PlaysOn(f, replies)
    decreases |replies|
  {
    if replies == [] then f
    else
      StepKeepsBytes(f, replies[0]);
      FlowAfter(Stepped(f, replies[0]), replies[1..])
  }

  /** Of a sound stream, frame after frame, not a byte is skipped: what is passed is just the frames. */
  lemma {:induction false} SoundStreamIsAllFrames(f: Flow, replies: seq<Reply>)
    requires |f.unread| <= INPUT_SIZE && PlaysOn(f, replies)
    requires forall i: nat :: i < |replies| ==> IsWholeFrame(replies[i]) && replies[i].consumed > 0
    requires FrameBytes(replies) <= |f.unread| + |f.ring|
    ensures |FlowAfter(f, replies).passed| == |f.passed| + FrameBytes(replies)
    decreases |replies|
  {
    if replies != [] {
      StepKeepsBytes(f, replies[0]);
      assert |AllBytes(Stepped(f, replies[0]))| == |AllBytes(f)|;
      assert IsWholeFrame(replies[0]);
      SoundStreamIsAllFrames(Stepped(f, replies[0]), replies[1..]);
    }
  }

  /** A corrupt one loses a byte at a time: the one after what the decoder took. */
  lemma CorruptHeaderLosesOneByte(unread: nat, r: Reply)
    requires DecoderKeepsContract(unread, r) && r.sync >= 0
    ensures Advance(unread, r) == r.sync + r.consumed
                                  + if r.error == OtherError && r.left == unread - (r.sync + r.consumed) then 1 else 0
  {
  }

  lemma StepKeepsBytes(f: Flow, r: Reply)
    requires |f.unread| <= INPUT_SIZE && StepContract(f, r)
    ensures AllBytes(Stepped(f, r)) == AllBytes(f)
    ensures |Stepped(f, r).unread| <= INPUT_SIZE
  {
    var g := StepRefill(f);
    if |f.unread| < MAINBUF_SIZE {
      RefillKeepsBytes(f);
    }
    if |g.unread| > 0 {
      PassKeepsBytes(g, Advance(|g.unread|, r));
    }
  }

  lemma RefillKeepsBytes(f: Flow)
    requires |f.unread| <= INPUT_SIZE
    ensures AllBytes(Refilled(f)) == AllBytes(f)
  {
    var got := Min(|f.ring|, INPUT_SIZE - |f.unread|);
    assert f.ring == f.ring[..got] + f.ring[got..];
  }

  lemma PassKeepsBytes(f: Flow, n: nat)
    requires n <= |f.unread|
    ensures AllBytes(Passed(f, n)) == AllBytes(f)
  {
    assert f.unread == f.unread[..n] + f.unread[n..];
  }

  /** Without new bytes every step short of a rebuffer shrinks the ring, or keeps it and shrinks the buffer. */
  lemma StepMakesProgress(f: Flow, r: Reply)
    requires |f.unread| <= INPUT_SIZE && StepContract(f, r) && !Rebuffers(f, r)
    ensures var g := Stepped(f, r);
            |g.ring| < |f.ring| || (|g.ring| == |f.ring| && |g.unread| < |f.unread|)
  {
  }

  ghost predicate PlaysOn(f: Flow, replies: seq<Reply>)
    requires |f.unread| <= INPUT_SIZE
    decreases |replies|
  {
    replies == [] ||
    (StepContract(f, replies[0]) && !Rebuffers(f, replies[0]) &&
     (StepKeepsBytes(f, replies[0]); PlaysOn(Stepped(f, replies[0]), replies[1..])))
  }

  /** So no run of steps, however corrupt the stream, is longer than the bytes at hand allow. */
  lemma {:induction false} RunIsBounded(f: Flow, replies: seq<Reply>)
    requires |f.unread| <= INPUT_SIZE && PlaysOn(f, replies)
    ensures |replies| <= |f.ring| * (INPUT_SIZE + 1) + |f.unread|
    decreases |replies|
  {
    if replies != [] {
      StepKeepsBytes(f, replies[0]);
      StepMakesProgress(f, replies[0]);
      RunIsBounded(Stepped(f, replies[0]), replies[1..]);
    }
  }

  // ---- The buffers in memory ------------------------------------------------

  /** The stream buffer between the tasks, as its reader sees it. */
  class Ring {
    var content: seq<Byte>
    const capacity: nat

    constructor (capacity: nat)
      ensures this.capacity == capacity && content == []
    {
      this.capacity := capacity;
      content := [];
    }

    /** `xStreamBufferReceive`: takes what is there, up to `room` bytes. */
    method Receive(room: nat) returns (got: seq<Byte>)
      requires room > 0
      modifies this
      ensures got == old(content)[..Min(|old(content)|, room)]
      ensures content == old(content)[|got|..]
    {
      var n := Min(|content|, room);
      got := content[..n];
      content := content[n..];
    }
  }

  class InputBuffer {
    const data: array<Byte>
    var filled: nat
    var read: nat

    constructor ()
      ensures Valid() && fresh(data) && Unread() == []
    {
      data := new Byte[INPUT_SIZE](_ => 0);
      filled, read := 0, 0;
    }

    ghost predicate Valid()
      reads this
    {
      data.Length == INPUT_SIZE && read <= filled <= INPUT_SIZE
    }

    ghost function Unread(): (unread: seq<Byte>)
      requires Valid()
      reads this, data
      ensures |unread| == filled - read
    {
      data[read..filled]
    }

    /** Moves what is unread down to index 0, in place. */
    method Compact()
      requires Valid()
      modifies this, data
      ensures Valid() && read == 0 && Unread() == old(Unread())
    {
      var unread := filled - read;
      var i := 0;
      while i < unread
        modifies data
        invariant i <= unread
        invariant forall k: nat :: k < i ==> data[k] == old(data[read + k])
        invariant forall k: nat :: read + i <= k < INPUT_SIZE ==> data[k] == old(data[k])
      {
        data[i] := data[read + i];
        i := i + 1;
      }
      filled := unread;
      read := 0;
    }

    method Append(bytes: seq<Byte>)
      requires Valid() && filled + |bytes| <= INPUT_SIZE
      modifies this`filled, data
      ensures Valid() && Unread() == old(Unread()) + bytes
    {
      var i := 0;
      while i < |bytes|
        modifies data
        invariant i <= |bytes|
        invariant forall k: nat :: k < i ==> data[filled + k] == bytes[k]
        invariant forall k: nat :: k < filled ==> data[k] == old(data[k])
      {
        data[filled + i] := bytes[i];
        i := i + 1;
      }
      filled := filled + |bytes|;
    }
  }

  class Player {
    const input: InputBuffer
    const ring: Ring
    var underruns: nat
    var status: Status
    ghost var passed: seq<Byte>  // what the read position has passed in this session

    constructor (ring: Ring)
      ensures this.ring == ring && fresh(input) && fresh(input.data) && input.Valid()
      ensures underruns == 0 && status == Status(Buffering, false) && Bytes() == Flow([], [], ring.content)
    {
      this.ring := ring;
      input := new InputBuffer();
      underruns, status, passed := 0, Status(Buffering, false), [];
    }

    ghost function Bytes(): Flow
      requires input.Valid()
      reads this, ring, input, input.data
    {
      Flow(passed, input.Unread(), ring.content)
    }

    /** Makes room at the front and tops up; it always asks the ring for at least one byte. */
    method Refill() returns (got: nat)
      requires input.Valid() && |input.Unread()| < INPUT_SIZE
      modifies input, input.data, ring
      ensures input.Valid() && input.read == 0
      ensures Bytes() == Refilled(old(Bytes()))
      ensures got == |Bytes().unread| - |old(Bytes()).unread|
    {
      input.Compact();
      var bytes := ring.Receive(INPUT_SIZE - input.filled);
      input.Append(bytes);
      got := |bytes|;
    }

    /** Finds a frame, decodes it and plays it; `read` stays within `filled`. */
    method DecodeAndPlay(r: Reply) returns (result: Decoded)
      requires input.Valid() && |input.Unread()| > 0 && DecoderKeepsContract(|input.Unread()|, r)
      modifies this`passed, input`read
      ensures input.Valid() && result == ResultOf(r)
      ensures Bytes() == Passed(old(Bytes()), Advance(|old(Bytes()).unread|, r))
    {
      var start := input.read;
      if r.sync < 0 {
        input.read := input.filled;  // nothing to decode in these bytes
        result := Skipped;
      } else {
        input.read := input.read + r.sync + r.consumed;
        result := ResultOf(r);
        if r.error == OtherError && r.left == input.filled - input.read {
          input.read := input.read + 1;  // the decoder got nowhere: search on from the next byte
        }
      }
      passed := passed + input.data[start..input.read];
    }

    /** Refills the buffer when it is short of a whole frame's bytes. */
    method TopUp() returns (got: nat)
      requires input.Valid()
      modifies input, input.data, ring
      ensures input.Valid() && Bytes() == StepRefill(old(Bytes()))
      ensures got == StepGot(old(Bytes()))
    {
      got := 1;
      if input.filled - input.read < MAINBUF_SIZE {
        got := Refill();
      }
    }

    /** One round of playing, up to what it publishes; `rebuffered` when it stops to refill the ring. */
    method Step(r: Reply) returns (rebuffered: bool)
      requires input.Valid() && StepContract(Bytes(), r)
      modifies this, input, input.data, ring
      ensures input.Valid() && Bytes() == Stepped(old(Bytes()), r)
      ensures rebuffered == Rebuffers(old(Bytes()), r)
      ensures underruns == old(underruns) + if rebuffered then 1 else 0
      ensures status == StepStatus(old(status), old(Bytes()), r)
    {
      var got := TopUp();
      var result := NeedData;
      if input.filled != input.read {
        result := DecodeAndPlay(r);
      }
      rebuffered := result == NeedData && got == 0;
      if rebuffered {
        underruns := underruns + 1;
        status := status.(shown := Buffering);
      } else if result == OutputFailed {
        status := Status(Silent, true);
      } else if result == Played {
        status := Status(Sounding, false);
      }
    }
  }
}
