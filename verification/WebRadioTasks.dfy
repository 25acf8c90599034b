/** The network task and the player task over one session: every interleaving of their steps. */
module WebRadioTasks {
  import opened Base
  import opened WebRadioPlayer

  /** Where the player task is. */
  datatype PlayerAt =
    | Off          // no ring
    | Between      // a ring, no session
    | RingReset    // prepareSession: ring emptied,
    | StopCleared  //   stop flag lowered,
    | InputReset   //   input buffer emptied; decoder and task still to start
    | Playing      // waiting for fill or stepping
    | Stopping     // stop flag raised, waiting for `done`

  /** Where the network task is. */
  datatype FetchAt =
    | Absent                                   // not started, or past its give of `done`
    | LoopHead
    | Connected                                // in a connection, outside the push loop
    | Reading                                  // past the pump loop's look at the stop flag
    | PushHead(chunk: seq<Byte>, sent: nat)    // pushAudio, before its look at the stop flag
    | Sending(chunk: seq<Byte>, sent: nat)     // pushAudio, inside the blocking send
    | Returning(chunk: seq<Byte>, sent: nat)   // pushAudio, before its last look at the stop flag
    | Leaving                                  // out of the loop, `done` not yet given

  datatype State = State(
    player: PlayerAt,
    fetch: FetchAt,
    capacity: nat,
    bytes: Flow,
    stop: bool,
    done: nat,             // count of the binary semaphore
    accepted: seq<Byte>,   // everything the ring took since it was reset
    beforePush: seq<Byte>, // what it had taken when the latest push began
    starts: nat, gives: nat, takes: nat)

  datatype Event =
    // player task
    | CreateRing(capacity: nat)
    | DeleteRing
    | ResetRing
    | ClearStop
    | ClearInput
    | PrepareFails          // no decoder, or the task could not be created
    | StartFetch
    | RefillInput
    | PassInput(count: nat)
    | RaiseStop
    | TakeDone
    // network task
    | EnterLoop
    | LeaveLoop
    | StartReading
    | EndConnection
    | ChunkRead(data: seq<Byte>)
    | EnterSend
    | Send(count: nat)
    | LeavePush
    | PushReturns(ok: bool)
    | GiveDone

  const INITIAL := State(Off, Absent, 0, Flow([], [], []), false, 0, [], [], 0, 0, 0)

  /** Whether a task's code can take this step here. */
  predicate Enabled(s: State, e: Event) {
    match e
    case CreateRing(_) => s.player == Off
    case DeleteRing => s.player == Between
    case ResetRing => s.player == Between
    case ClearStop => s.player == RingReset
    case ClearInput => s.player == StopCleared
    case PrepareFails => s.player == InputReset
    case StartFetch => s.player == InputReset
    case RefillInput => s.player == Playing && |s.bytes.unread| < MAINBUF_SIZE
    case PassInput(n) => s.player == Playing && n <= |s.bytes.unread|
    case RaiseStop => s.player == Playing
    case TakeDone => s.player == Stopping && s.done > 0
    case EnterLoop => s.fetch == LoopHead && !s.stop
    case LeaveLoop => s.fetch == LoopHead && s.stop
    case StartReading => s.fetch == Connected && !s.stop
    case EndConnection => s.fetch == Connected || s.fetch == Reading
    case ChunkRead(_) => s.fetch == Reading
    case EnterSend => s.fetch.PushHead? && s.fetch.sent < |s.fetch.chunk| && !s.stop
    case Send(n) => s.fetch.Sending? && n <= |s.fetch.chunk| - s.fetch.sent && |s.bytes.ring| + n <= s.capacity
    case LeavePush => s.fetch.PushHead? && (s.fetch.sent >= |s.fetch.chunk| || s.stop)
    case PushReturns(ok) => s.fetch.Returning? && ok == !s.stop
    case GiveDone => s.fetch == Leaving
  }

  function After(s: State, e: Event): State
    requires Enabled(s, e)
  {
    match e
    case CreateRing(capacity) => s.(player := Between, capacity := capacity, bytes := s.bytes.(ring := []))
    case DeleteRing => s.(player := Off, capacity := 0, bytes := s.bytes.(ring := []))
    case ResetRing => s.(player := RingReset, bytes := s.bytes.(ring := []), accepted := [])
    case ClearStop => s.(player := StopCleared, stop := false)
    case ClearInput => s.(player := InputReset, bytes := s.bytes.(passed := [], unread := []))
    case PrepareFails => s.(player := Between)
    case StartFetch => s.(player := Playing, fetch := LoopHead, starts := s.starts + 1)
    case RefillInput => s.(bytes := Refilled(s.bytes))
    case PassInput(n) => s.(bytes := Passed(s.bytes, n))
    case RaiseStop => s.(player := Stopping, stop := true)
    case TakeDone => s.(player := Between, done := s.done - 1, takes := s.takes + 1)
    case EnterLoop => s.(fetch := Connected)
    case LeaveLoop => s.(fetch := Leaving)
    case StartReading => s.(fetch := Reading)
    case EndConnection => s.(fetch := LoopHead)
    case ChunkRead(data) => s.(fetch := PushHead(data, 0), beforePush := s.accepted)
    case EnterSend => s.(fetch := Sending(s.fetch.chunk, s.fetch.sent))
    case Send(n) =>
      var part := s.fetch.chunk[s.fetch.sent..s.fetch.sent + n];
      s.(fetch := PushHead(s.fetch.chunk, s.fetch.sent + n),
         bytes := s.bytes.(ring := s.bytes.ring + part),
         accepted := s.accepted + part)
    case LeavePush => s.(fetch := Returning(s.fetch.chunk, s.fetch.sent))
    case PushReturns(ok) => s.(fetch := if ok then Connected else LoopHead)
    case GiveDone => s.(fetch := Absent, done := 1, gives := s.gives + 1)
  }

  // ---- What every step keeps ------------------------------------------------

  predicate InSession(s: State) {
    s.player == Playing || s.player == Stopping
  }

  predicate InPush(f: FetchAt) {
    f.PushHead? || f.Sending? || f.Returning?
  }

  /** Starts, gives and takes of `done` stay matched, and only a session has a network task. */
  predicate Handshake(s: State) {
    && s.done <= 1
    && s.starts == s.gives + (if s.fetch != Absent then 1 else 0)
    && s.gives == s.takes + s.done
    && (s.fetch != Absent ==> InSession(s))
    && (s.done == 1 ==> s.fetch == Absent && s.player == Stopping)
    && (s.player == Playing ==> !s.stop && s.fetch != Absent && s.fetch != Leaving)
    && (s.player == StopCleared || s.player == InputReset ==> !s.stop)
    && (s.player == Stopping ==> s.stop && (s.fetch != Absent || s.done == 1))
  }

  /** In a session the ring's bytes are, in order, passed, unread or still in the ring. */
  predicate Conserved(s: State) {
    && |s.bytes.ring| <= s.capacity
    && |s.bytes.unread| <= INPUT_SIZE
    && (InSession(s) ==> AllBytes(s.bytes) == s.accepted)
    && (s.player == InputReset ==> AllBytes(s.bytes) == s.accepted == [])
    && (s.player == RingReset || s.player == StopCleared ==> s.bytes.ring == s.accepted == [])
  }

  /** A push under way has put the front of its chunk after what was there before. */
  predicate Pushing(s: State) {
    InPush(s.fetch) ==>
      && s.fetch.sent <= |s.fetch.chunk|
      && s.accepted == s.beforePush + s.fetch.chunk[..s.fetch.sent]
      && (s.fetch.Returning? ==> s.fetch.sent == |s.fetch.chunk| || s.stop)
  }

  predicate Invariant(s: State) {
    Handshake(s) && Conserved(s) && Pushing(s)
  }

  lemma HandshakeKept(s: State, e: Event)
    requires Invariant(s) && Enabled(s, e)
    ensures Handshake(After(s, e))
  {
  }

  lemma ConservedKept(s: State, e: Event)
    requires Invariant(s) && Enabled(s, e)
    ensures Conserved(After(s, e))
  {
    if e == RefillInput {
      RefillKeepsBytes(s.bytes);
    } else if e.PassInput? {
      PassKeepsBytes(s.bytes, e.count);
    } else if e.Send? {
      RingGrows(s.bytes, s.fetch.chunk[s.fetch.sent..s.fetch.sent + e.count]);
    }
  }

  lemma RingGrows(f: Flow, part: seq<Byte>)
    ensures AllBytes(f.(ring := f.ring + part)) == AllBytes(f) + part
  {
  }

  lemma PushingKept(s: State, e: Event)
    requires Invariant(s) && Enabled(s, e)
    ensures Pushing(After(s, e))
  {
    if e.Send? {
      FrontGrows(s.beforePush, s.fetch.chunk, s.fetch.sent, e.count);
    } else if e.ChunkRead? {
      NothingSentYet(s.accepted, e.data);
    } else {
      OthersPushNothing(s, e);
    }
  }

  lemma FrontGrows(before: seq<Byte>, chunk: seq<Byte>, sent: nat, count: nat)
    requires sent + count <= |chunk|
    ensures before + chunk[..sent] + chunk[sent..sent + count] == before + chunk[..sent + count]
  {
  }

  lemma NothingSentYet(before: seq<Byte>, chunk: seq<Byte>)
    ensures before + chunk[..0] == before
  {
  }

  /** Apart from a reset, which comes when there is no push, only a send changes what the ring has taken. */
  lemma OthersPushNothing(s: State, e: Event)
    requires Invariant(s) && Enabled(s, e) && !e.Send? && !e.ChunkRead?
    ensures e != ResetRing ==> After(s, e).accepted == s.accepted
    ensures After(s, e).beforePush == s.beforePush
    ensures InPush(After(s, e).fetch) ==>
              InPush(s.fetch) && After(s, e).fetch.chunk == s.fetch.chunk && After(s, e).fetch.sent == s.fetch.sent
    ensures Pushing(After(s, e))
  {
  }

  lemma InvariantKept(s: State, e: Event)
    requires Invariant(s) && Enabled(s, e)
    ensures Invariant(After(s, e))
  {
    HandshakeKept(s, e);
    ConservedKept(s, e);
    PushingKept(s, e);
  }

  // ---- Runs -----------------------------------------------------------------

  /** `states` is a run of `events` from start-up, whatever the order the two tasks' steps take. */
  ghost predicate IsRun(states: seq<State>, events: seq<Event>) {
    && |states| == |events| + 1
    && states[0] == INITIAL
    && forall i: nat :: i < |events| ==> StepOk(states[i], events[i], states[i + 1])
  }

  ghost predicate StepOk(s: State, e: Event, t: State) {
    Enabled(s, e) && t == After(s, e)
  }

  lemma StepKeepsInvariant(s: State, e: Event, t: State)
    requires Invariant(s) && StepOk(s, e, t)
    ensures Invariant(t)
  {
    InvariantKept(s, e);
  }

  lemma StartsInvariant()
    ensures Invariant(INITIAL)
  {
    assert INITIAL.fetch == Absent;
    assert |INITIAL.bytes.ring| == 0 && |INITIAL.bytes.unread| == 0;
  }

  lemma {:induction false} RunKeepsInvariant(states: seq<State>, events: seq<Event>, n: nat)
    requires IsRun(states, events) && n <= |events|
    ensures Invariant(states[n])
  {
    if n == 0 {
      StartsInvariant();
    } else {
      RunKeepsInvariant(states, events, n - 1);
      StepKeepsInvariant(states[n - 1], events[n - 1], states[n]);
    }
  }

  /** The ring is reset, created, deleted or started on only while there is no network task. */
  lemma RingIsPlayersAlone(states: seq<State>, events: seq<Event>, n: nat)
    requires IsRun(states, events) && n < |events|
    requires events[n].CreateRing? || events[n] == DeleteRing || events[n] == ResetRing || events[n] == StartFetch
    ensures states[n].fetch == Absent && states[n].done == 0
    ensures states[n].starts == states[n].gives == states[n].takes
  {
    RunKeepsInvariant(states, events, n);
    assert StepOk(states[n], events[n], states[n + 1]);
  }

  /** No give is lost on a full semaphore and no take precedes its give. */
  lemma GivesAndTakesAlternate(states: seq<State>, events: seq<Event>, n: nat)
    requires IsRun(states, events) && n < |events|
    ensures states[n].takes <= states[n].gives <= states[n].starts <= states[n].takes + 1
    ensures events[n] == GiveDone ==> states[n].done == 0 && states[n + 1].done == 1
    ensures events[n] == TakeDone ==> states[n].gives == states[n].starts == states[n].takes + 1
  {
    RunKeepsInvariant(states, events, n);
    assert StepOk(states[n], events[n], states[n + 1]);
  }

  /** In every reachable state of a session no byte the ring took is lost, added or reordered. */
  lemma StreamIsConserved(states: seq<State>, events: seq<Event>, n: nat)
    requires IsRun(states, events) && n <= |events| && InSession(states[n])
    ensures states[n].accepted == states[n].bytes.passed + states[n].bytes.unread + states[n].bytes.ring
    ensures |states[n].bytes.ring| <= states[n].capacity && |states[n].bytes.unread| <= INPUT_SIZE
  {
    RunKeepsInvariant(states, events, n);
  }

  /** When a push reports success the ring took its whole chunk, after what it had before. */
  lemma PushPutsItAllIn(states: seq<State>, events: seq<Event>, n: nat)
    requires IsRun(states, events) && n < |events| && events[n] == PushReturns(true)
    ensures states[n].fetch.Returning?
    ensures states[n].accepted == states[n].beforePush + states[n].fetch.chunk
  {
    RunKeepsInvariant(states, events, n);
    assert StepOk(states[n], events[n], states[n + 1]);
    var f := states[n].fetch;
    assert f.chunk[..f.sent] == f.chunk;
  }

  /** A step of the play loop is one top-up and one move of the read position, as the events have them. */
  lemma StepIsTwoEvents(s: State, r: Reply)
    requires Invariant(s) && s.player == Playing && StepContract(s.bytes, r)
    ensures Enabled(s, RefillInput) <==> |s.bytes.unread| < 1940
    ensures var topped := if |s.bytes.unread| < MAINBUF_SIZE then After(s, RefillInput) else s;
            var n := if |topped.bytes.unread| == 0 then 0 else Advance(|topped.bytes.unread|, r);
            Enabled(topped, PassInput(n)) && After(topped, PassInput(n)) == s.(bytes := Stepped(s.bytes, r))
  {
  }

  /** A push goes on exactly while bytes are left and no stop is seen, and ends its connection only when one is. */
  lemma PushDecides(s: State, ok: bool)
    requires InPush(s.fetch)
    ensures s.fetch.PushHead? ==>
              && (Enabled(s, EnterSend) <==> s.fetch.sent < |s.fetch.chunk| && !s.stop)
              && (Enabled(s, LeavePush) <==> !Enabled(s, EnterSend))
    ensures s.fetch.Returning? && Enabled(s, PushReturns(ok)) ==>
              ok == !s.stop && After(s, PushReturns(ok)).fetch == if s.stop then LoopHead else Connected
  {
  }

  /** The network task always has a step to take until it has given `done`. */
  lemma NetworkNeverStuck(s: State) returns (e: Event)
    requires Invariant(s) && s.fetch != Absent
    ensures Enabled(s, e) && IsFetchEvent(e)
  {
    match s.fetch
    case Leaving => e := GiveDone;
    case LoopHead => e := if s.stop then LeaveLoop else EnterLoop;
    case Connected => e := EndConnection;
    case Reading => e := EndConnection;
    case PushHead(chunk, sent) => e := if sent < |chunk| && !s.stop then EnterSend else LeavePush;
    case Sending(_, _) => e := Send(0);
    case Returning(_, _) => e := PushReturns(!s.stop);
  }

  /** A run from start-up, event by event. */
  function StateAfter(events: seq<Event>): Option<State> {
    if events == [] then Some(INITIAL)
    else
      var before := StateAfter(events[..|events| - 1]);
      if before.Some? && Enabled(before.value, events[|events| - 1])
      then Some(After(before.value, events[|events| - 1])) else None
  }

  lemma Go(events: seq<Event>, s: State, e: Event) returns (more: seq<Event>, after: State)
    requires StateAfter(events) == Some(s) && Enabled(s, e)
    ensures after == After(s, e) && more == events + [e] && StateAfter(more) == Some(after)
  {
    more, after := events + [e], After(s, e);
    assert more[..|events|] == events;
  }

  /** A session is opened and connects. */
  lemma SessionOpens(capacity: nat) returns (events: seq<Event>, s: State)
    ensures StateAfter(events) == Some(s)
    ensures s == State(Playing, Reading, capacity, Flow([], [], []), false, 0, [], [], 1, 0, 0)
  {
    events, s := [], INITIAL;
    events, s := Go(events, s, CreateRing(capacity));
    events, s := Go(events, s, ResetRing);
    events, s := Go(events, s, ClearStop);
    events, s := Go(events, s, ClearInput);
    events, s := Go(events, s, StartFetch);
    events, s := Go(events, s, EnterLoop);
    events, s := Go(events, s, StartReading);
  }

  /** A session that cannot start its task leaves nothing behind but the ring, and that can go. */
  lemma FailedSession(capacity: nat) returns (events: seq<Event>)
    ensures CreateRing(capacity) in events && PrepareFails in events
    ensures StateAfter(events) == Some(INITIAL)
  {
    var s;
    events, s := [], INITIAL;
    events, s := Go(events, s, CreateRing(capacity));
    events, s := Go(events, s, ResetRing);
    events, s := Go(events, s, ClearStop);
    events, s := Go(events, s, ClearInput);
    events, s := Go(events, s, PrepareFails);
    events, s := Go(events, s, DeleteRing);
  }

  lemma SendsAll(s: State, data: seq<Byte>)
    requires Enabled(s, Send(|data|)) && s.fetch == Sending(data, 0) && s.bytes.ring == s.accepted == []
    ensures After(s, Send(|data|))
            == s.(fetch := PushHead(data, |data|), bytes := s.bytes.(ring := data), accepted := data)
  {
    assert data[0..|data|] == data && [] + data == data;
  }

  /** It takes a chunk into the ring. */
  lemma SessionTakes(data: seq<Byte>) returns (events: seq<Event>, s: State)
    requires data != []
    ensures StateAfter(events) == Some(s)
    ensures s == State(Playing, Returning(data, |data|), |data|, Flow([], [], data), false, 0, data, [], 1, 0, 0)
  {
    events, s := SessionOpens(|data|);
    events, s := Go(events, s, ChunkRead(data));
    events, s := Go(events, s, EnterSend);
    SendsAll(s, data);
    events, s := Go(events, s, Send(|data|));
    events, s := Go(events, s, LeavePush);
  }

  /** The player passes it on. */
  lemma SessionPlays(data: seq<Byte>) returns (events: seq<Event>, s: State)
    requires 0 < |data| <= INPUT_SIZE
    ensures StateAfter(events) == Some(s)
    ensures s == State(Playing, Connected, |data|, Flow(data, [], []), false, 0, data, [], 1, 0, 0)
  {
    events, s := SessionTakes(data);
    events, s := Go(events, s, PushReturns(true));
    assert [] + data[..|data|] == data && data[|data|..] == [];
    events, s := Go(events, s, RefillInput);
    events, s := Go(events, s, PassInput(|data|));
  }

  /** The player passes it all, the session is stopped, and everything is as it was. */
  lemma WholeSession(data: seq<Byte>) returns (playing: seq<Event>, closed: seq<Event>)
    requires 0 < |data| <= INPUT_SIZE
    ensures playing <= closed
    ensures StateAfter(playing)
            == Some(State(Playing, Connected, |data|, Flow(data, [], []), false, 0, data, [], 1, 0, 0))
    ensures StateAfter(closed) == Some(State(Off, Absent, 0, Flow(data, [], []), true, 0, data, [], 1, 1, 1))
  {
    var s;
    playing, s := SessionPlays(data);
    closed, s := Go(playing, s, RaiseStop);
    closed, s := Go(closed, s, EndConnection);
    closed, s := Go(closed, s, LeaveLoop);
    closed, s := Go(closed, s, GiveDone);
    closed, s := Go(closed, s, TakeDone);
    closed, s := Go(closed, s, DeleteRing);
  }

  // ---- Stopping comes to an end ---------------------------------------------

  /** Steps the network task may still take once the stop flag is up. */
  function StepsToGive(f: FetchAt): nat {
    match f
    case Absent => 0
    case Leaving => 1
    case LoopHead => 2
    case Connected => 3
    case Returning(_, _) => 4
    case PushHead(_, _) => 5
    case Sending(_, _) => 6
    case Reading => 7
  }

  predicate IsFetchEvent(e: Event) {
    || e == EnterLoop || e == LeaveLoop || e == StartReading || e == EndConnection || e.ChunkRead?
    || e == EnterSend || e.Send? || e == LeavePush || e.PushReturns? || e == GiveDone
  }

  /** Once the player waits for `done`, each step of the network task brings the give nearer. */
  lemma StopIsHonoured(s: State, e: Event)
    requires Invariant(s) && Enabled(s, e) && s.player == Stopping && IsFetchEvent(e)
    ensures StepsToGive(After(s, e).fetch) < StepsToGive(s.fetch)
  {
  }

  /** And it is never stuck: `done` is there to take, or the network task has a step to take. */
  lemma StopNeverHangs(s: State) returns (e: Event)
    requires Invariant(s) && s.player == Stopping
    ensures Enabled(s, e) && (e == TakeDone || IsFetchEvent(e))
  {
    match s.fetch
    case Absent => e := TakeDone;
    case Leaving => e := GiveDone;
    case LoopHead => e := LeaveLoop;
    case Connected => e := EndConnection;
    case Returning(_, _) => e := PushReturns(false);
    case PushHead(_, _) => e := LeavePush;
    case Sending(_, _) => e := Send(0);
    case Reading => e := EndConnection;
  }
}
