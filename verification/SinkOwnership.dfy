/** Who may play: the shared I2S sink, and the DSP source it borrows and gives back. */
module SinkOwnership {
  import opened Base

  datatype Source = Radio | Bluetooth | Beep

  /** Where both producers play; the DSP's enumeration knows this input by another name. */
  const ESP32_INPUT := Bluetooth

  datatype Producer = WebRadio | Phone

  // ---- One caller at a time -------------------------------------------------

  /** The global variables of the sink and of the source routing. */
  class AudioOutput {
    var inUse: bool
    var active: Source
    var previous: Option<Source>

    constructor (active: Source)
      ensures !inUse && this.active == active && previous == None
    {
      inUse, this.active, previous := false, active, None;
    }

    method TryAcquire() returns (ok: bool)
      modifies this`inUse
      ensures inUse && ok == !old(inUse)
    {
      ok := !inUse;
      inUse := true;
    }

    method Release()
      modifies this`inUse
      ensures !inUse
    {
      inUse := false;
    }

    /** `selectOk`: the DSP takes the source change. */
    method ClaimEsp32Input(selectOk: bool) returns (ok: bool)
      modifies this`active, this`previous
      ensures ok <==> active == ESP32_INPUT
      ensures ok && old(active) != ESP32_INPUT ==> previous == Some(old(active))
      ensures !ok || old(active) == ESP32_INPUT ==> active == old(active) && previous == old(previous)
      ensures old(active) != ESP32_INPUT ==> ok == selectOk
    {
      var current := active;
      if current == ESP32_INPUT {
        return true;
      }
      if !selectOk {
        return false;
      }
      active := ESP32_INPUT;
      previous := Some(current);
      return true;
    }

    method RestorePreviousSource(selectOk: bool)
      modifies this`active, this`previous
      ensures previous == None
      ensures active == if old(previous).Some? && old(active) == ESP32_INPUT && selectOk
                        then old(previous).value else old(active)
    {
      if previous.None? {
        return;
      }
      if active == ESP32_INPUT && selectOk {
        active := previous.value;
      }
      previous := None;
    }

    /** One stream, claim to restore, with at most one choice of the user's in between. */
    method Stream(choice: Option<Source>)
      requires previous == None
      modifies this
      ensures inUse == old(inUse) && previous == None
      ensures active == if old(inUse) then old(active) else SourceAfter(old(active), choice)
    {
      var acquired := TryAcquire();
      if !acquired {
        return;
      }
      var claimed := ClaimEsp32Input(true);
      if choice.Some? {
        active := choice.value;
      }
      RestorePreviousSource(true);
      Release();
    }
  }

  /** The source a finished stream leaves: the user's choice, unless that is the stream's own input. */
  function SourceAfter(before: Source, choice: Option<Source>): Source {
    if choice.Some? && choice.value != ESP32_INPUT then choice.value else before
  }

  // ---- Both producers and the user, step by step ----------------------------

  datatype At =
    | Idle
    | Acquired
    | Claiming(seen: Source)   // saw another source, about to switch
    | Switched(seen: Source)   // switched, about to remember
    | Holding
    | Checking                 // restore: about to look at the source
    | SwitchingBack
    | Forgetting
    | Restored

  datatype Switch = NotTried | Took | Failed

  datatype State = State(
    inUse: bool, active: Source, previous: Option<Source>, web: At, phone: At, stream: History)

  /** What has happened since the current claim looked at the source. */
  datatype History = History(
    before: Source,            // what it found
    choice: Option<Source>,    // the user's latest choice since then,
    choiceAt: At,              //   and where the owner stood
    claim: Switch,             // how the claim's switch went,
    back: Switch)              //   and the restore's

  datatype Event =
    | Acquire(who: Producer)
    | GiveUp(who: Producer)                 // no heap for a ring
    | LookForClaim(who: Producer)
    | SwitchInput(who: Producer, ok: bool)
    | Remember(who: Producer)
    | BeginRestore(who: Producer)
    | LookForRestore(who: Producer)
    | SwitchBack(who: Producer, ok: bool)
    | Forget(who: Producer)
    | ReleaseSink(who: Producer)
    | UserSelects(source: Source)

  function AtOf(s: State, who: Producer): At {
    if who == WebRadio then s.web else s.phone
  }

  function Move(s: State, who: Producer, at: At): State {
    if who == WebRadio then s.(web := at) else s.(phone := at)
  }

  function Start(active: Source): State {
    State(false, active, None, Idle, Idle, Since(active))
  }

  function Since(before: Source): History {
    History(before, None, Idle, NotTried, NotTried)
  }

  predicate Enabled(s: State, e: Event) {
    match e
    case Acquire(who) => AtOf(s, who) == Idle
    case GiveUp(who) => AtOf(s, who) == Acquired
    case LookForClaim(who) => AtOf(s, who) == Acquired
    case SwitchInput(who, _) => AtOf(s, who).Claiming?
    case Remember(who) => AtOf(s, who).Switched?
    case BeginRestore(who) => AtOf(s, who) == Holding
    case LookForRestore(who) => AtOf(s, who) == Checking
    case SwitchBack(who, _) => AtOf(s, who) == SwitchingBack
    case Forget(who) => AtOf(s, who) == Forgetting
    case ReleaseSink(who) => AtOf(s, who) == Restored
    case UserSelects(_) => true
  }

  function After(s: State, e: Event): State
    requires Enabled(s, e)
  {
    match e
    case Acquire(who) => if s.inUse then s else Move(s.(inUse := true), who, Acquired)
    case GiveUp(who) => Move(s.(inUse := false), who, Idle)
    case LookForClaim(who) =>
      Move(s.(stream := Since(s.active)), who,
           if s.active == ESP32_INPUT then Holding else Claiming(s.active))
    case SwitchInput(who, ok) =>
      if ok then Move(s.(active := ESP32_INPUT, stream := s.stream.(claim := Took)), who, Switched(AtOf(s, who).seen))
      else Move(s.(stream := s.stream.(claim := Failed)), who, Holding)
    case Remember(who) => Move(s.(previous := Some(AtOf(s, who).seen)), who, Holding)
    case BeginRestore(who) => Move(s, who, if s.previous.None? then Restored else Checking)
    case LookForRestore(who) => Move(s, who, if s.active == ESP32_INPUT then SwitchingBack else Forgetting)
    case SwitchBack(who, ok) =>
      Move(if ok && s.previous.Some? then s.(active := s.previous.value, stream := s.stream.(back := Took))
           else s.(stream := s.stream.(back := Failed)), who, Forgetting)
    case Forget(who) => Move(s.(previous := None), who, Restored)
    case ReleaseSink(who) => Move(s.(inUse := false), who, Idle)
    case UserSelects(source) =>
      s.(active := source, stream := s.stream.(choice := Some(source), choiceAt := OwnerAt(s)))
  }

  /** A claim nobody disturbs does, step by step, what the call does at once. */
  lemma ClaimInSteps(s: State, who: Producer, ok: bool)
    requires AtOf(s, who) == Acquired
    ensures var looked := After(s, LookForClaim(who));
            && looked.stream == History(s.active, None, Idle, NotTried, NotTried)
            && if s.active == ESP32_INPUT then looked == Move(s, who, Holding).(stream := looked.stream)
               else
                 && AtOf(looked, who) == Claiming(s.active)
                 && var switched := After(looked, SwitchInput(who, ok));
                    if ok then
                      && switched.active == ESP32_INPUT && switched.stream == looked.stream.(claim := Took)
                      && After(switched, Remember(who))
                         == Move(switched, who, Holding).(previous := Some(s.active))
                    else switched == Move(s, who, Holding).(stream := looked.stream.(claim := Failed))
  {
  }

  /** So does a restore. */
  lemma RestoreInSteps(s: State, who: Producer, ok: bool)
    requires AtOf(s, who) == Holding && s.previous.Some? && s.active == ESP32_INPUT
    ensures var checked := After(After(s, BeginRestore(who)), LookForRestore(who));
            && AtOf(checked, who) == SwitchingBack && checked.active == s.active
            && var after := After(After(checked, SwitchBack(who, ok)), Forget(who));
               && after.previous == None && AtOf(after, who) == Restored
               && after.active == (if ok then s.previous.value else s.active)
               && after.stream == s.stream.(back := if ok then Took else Failed)
  {
  }

  /** At most one producer is between acquire and release, and the flag says whether one is. */
  predicate OneOwner(s: State) {
    && (s.web == Idle || s.phone == Idle)
    && (s.inUse <==> s.web != Idle || s.phone != Idle)
  }

  function OwnerAt(s: State): At {
    if s.web != Idle then s.web else s.phone
  }

  /** A source is remembered only between the owner's claim and the end of its restore. */
  predicate RememberedByOwner(s: State) {
    && (s.previous.Some? ==>
          OwnerAt(s) == Holding || OwnerAt(s) == Checking || OwnerAt(s) == SwitchingBack || OwnerAt(s) == Forgetting)
    && (OwnerAt(s) == Checking || OwnerAt(s) == SwitchingBack || OwnerAt(s) == Forgetting ==> s.previous.Some?)
    && (s.previous.Some? ==> s.previous.value != ESP32_INPUT)
    && (OwnerAt(s).Claiming? || OwnerAt(s).Switched? ==> OwnerAt(s).seen != ESP32_INPUT)
  }

  predicate Invariant(s: State) {
    OneOwner(s) && RememberedByOwner(s)
  }

  lemma InvariantKept(s: State, e: Event)
    requires Invariant(s) && Enabled(s, e)
    ensures Invariant(After(s, e))
  {
  }

  ghost predicate IsRun(states: seq<State>, events: seq<Event>) {
    && |states| == |events| + 1
    && (exists active :: states[0] == Start(active))
    && forall i: nat :: i < |events| ==> StepOk(states[i], events[i], states[i + 1])
  }

  ghost predicate StepOk(s: State, e: Event, t: State) {
    Enabled(s, e) && t == After(s, e)
  }

  /** Over every interleaving of both producers and the user. */
  lemma {:induction false} SinkHasOneOwner(states: seq<State>, events: seq<Event>, n: nat)
    requires IsRun(states, events) && n <= |events|
    ensures OneOwner(states[n]) && RememberedByOwner(states[n])
  {
    if n > 0 {
      SinkHasOneOwner(states, events, n - 1);
      assert StepOk(states[n - 1], events[n - 1], states[n]);
      InvariantKept(states[n - 1], events[n - 1]);
    }
  }

  // ---- What a stream leaves behind ------------------------------------------

  /**
   * When a stream fails to give the source back. Its claim found another source than its own input,
   * and either
   * - nothing was chosen since, and switching back failed; or
   * - its own input was chosen, and nothing switched away from it afterwards; or
   * - another source was chosen, and a switch that was under way replaced it.
   */
  predicate Lost(h: History) {
    h.before != ESP32_INPUT &&
    match h.choice
    case None => h.claim == Took && h.back == Failed
    case Some(source) =>
      if source == ESP32_INPUT then h.choiceAt == Forgetting || h.claim == Failed || h.back == Failed
      else
        || (h.claim == Took && h.choiceAt.Claiming? && (source != h.before || h.back == Failed))
        || (h.back == Took && h.choiceAt == SwitchingBack && source != h.before)
  }

  /** The source once the claim's switch is over: the user's choice, if any, on top of what it set. */
  function AfterClaim(h: History): Source {
    if h.choice.Some? && !(h.claim == Took && h.choiceAt.Claiming?) then h.choice.value
    else if h.claim == Took then ESP32_INPUT
    else h.before
  }

  /** Where the source stands at each point of a stream, whatever the user does and whatever fails. */
  predicate Borrowed(s: State) {
    var h, at := s.stream, OwnerAt(s);
    && (at.Claiming? ==> at.seen == h.before && h.claim == NotTried && h.back == NotTried
                         && s.active == AfterClaim(h) && (h.choice.Some? ==> h.choiceAt.Claiming?))
    && (at.Switched? || at == Holding || at == Checking || at == SwitchingBack ==>
          h.back == NotTried && s.active == AfterClaim(h))
    && (at.Switched? ==> at.seen == h.before != ESP32_INPUT && h.claim == Took)
    && (at.Switched? || at == Holding || at == Checking ==>
          h.choice.Some? ==> h.choiceAt != SwitchingBack && h.choiceAt != Forgetting)
    && (at == SwitchingBack ==>
          && (h.choice.Some? ==> h.choiceAt != Forgetting)
          && (h.choice.Some? && h.choiceAt != SwitchingBack ==> s.active == ESP32_INPUT))
    && (at == Holding ==>
          && s.previous == (if h.claim == Took then Some(h.before) else None)
          && (h.claim == NotTried <==> h.before == ESP32_INPUT))
    && (at == Checking || at == SwitchingBack || at == Forgetting ==>
          s.previous == Some(h.before) && h.claim == Took && h.before != ESP32_INPUT)
    && (at == Forgetting || (at == Restored && (h.choice.Some? ==> h.choiceAt != Restored)) ==>
          (s.active == SourceAfter(h.before, h.choice) <==> !Lost(h)))
    && (at == Forgetting ==> h.choice.Some? && h.choiceAt == Forgetting ==> s.active == h.choice.value)
  }

  lemma BorrowedKept(s: State, e: Event)
    requires Invariant(s) && Borrowed(s) && Enabled(s, e)
    ensures Borrowed(After(s, e))
  {
  }

  lemma {:induction false} RunStaysBorrowed(states: seq<State>, events: seq<Event>, n: nat)
    requires IsRun(states, events) && n <= |events|
    ensures Borrowed(states[n])
  {
    if n > 0 {
      RunStaysBorrowed(states, events, n - 1);
      SinkHasOneOwner(states, events, n - 1);
      assert StepOk(states[n - 1], events[n - 1], states[n]);
      BorrowedKept(states[n - 1], events[n - 1]);
    }
  }

  /** Event `n` ends a restore. */
  ghost predicate RestoreEnds(states: seq<State>, events: seq<Event>, n: nat) {
    && IsRun(states, events) && n < |events|
    && OwnerAt(states[n]) != Restored && OwnerAt(states[n + 1]) == Restored
  }

  /**
   * In every run, whatever the user chooses in between and whichever switches fail: when a restore
   * ends, the source is the one its claim found, or another the user has since chosen, exactly when
   * the stream's history is not one of the losing ones.
   */
  lemma SourceIsGivenBackIff(states: seq<State>, events: seq<Event>, n: nat)
    requires RestoreEnds(states, events, n)
    ensures var after := states[n + 1];
            && (after.active == SourceAfter(after.stream.before, after.stream.choice) <==> !Lost(after.stream))
            && after.previous == None
  {
    RunStaysBorrowed(states, events, n + 1);
    SinkHasOneOwner(states, events, n + 1);
    RunStaysBorrowed(states, events, n);
    assert StepOk(states[n], events[n], states[n + 1]);
  }

  /** In particular when both switches work and the user chooses while the stream plays, if at all. */
  lemma SourceIsGivenBack(states: seq<State>, events: seq<Event>, n: nat)
    requires RestoreEnds(states, events, n)
    requires var h := states[n + 1].stream;
             h.claim != Failed && h.back != Failed && (h.choice.Some? ==> h.choiceAt == Holding)
    ensures var after := states[n + 1];
            after.active == SourceAfter(after.stream.before, after.stream.choice)
  {
    SourceIsGivenBackIff(states, events, n);
  }

  /** A choice between a claim's look and its switch is not kept: the one it replaced comes back. */
  lemma ChoiceDuringClaimIsLost(who: Producer)
    ensures var looked := After(After(Start(Radio), Acquire(who)), LookForClaim(who));
            var held := After(After(After(looked, UserSelects(Beep)), SwitchInput(who, true)), Remember(who));
            var checked := After(After(held, BeginRestore(who)), LookForRestore(who));
            var after := After(After(checked, SwitchBack(who, true)), Forget(who));
            after.stream.choice == Some(Beep) && after.active == Radio && Lost(after.stream)
  {
  }

  /** Nor is one between a restore's look and its switch back. */
  lemma ChoiceDuringSwitchBackIsLost(who: Producer)
    ensures var looked := After(After(Start(Radio), Acquire(who)), LookForClaim(who));
            var held := After(After(looked, SwitchInput(who, true)), Remember(who));
            var checked := After(After(held, BeginRestore(who)), LookForRestore(who));
            var after := After(After(After(checked, UserSelects(Beep)), SwitchBack(who, true)), Forget(who));
            after.stream.choice == Some(Beep) && after.active == Radio && Lost(after.stream)
  {
  }
}
