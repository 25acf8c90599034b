/** The network task's connect loop: redirects, playlist hops, back-off and stop. */
module WebRadioFetch {
  import opened Base

  const MAX_REDIRECTS := 4
  const MAX_PLAYLIST_HOPS := 3
  const BACKOFF_MS := [1000, 2000, 5000, 10000]
  const PERMANENT_RETRY_MS := 30000
  const PAUSE_STEP_MS := 200
  const MAX_OPENS := 20  // (MAX_PLAYLIST_HOPS + 1) * (MAX_REDIRECTS + 1)

  datatype Outcome = Ended | Failed | Permanent | Resolved

  datatype Kind = Mp3 | Playlist | Unsupported | NotAudio

  /** What a playlist's text holds. */
  datatype PlaylistText = Hls | NoUrl | Url(url: string)

  /** How the network answers one attempt: each open's status, or none; then the reply's kind. */
  datatype Attempt = Attempt(client: bool, opens: seq<Option<int>>, kind: Kind, playlist: PlaylistText)

  /** The attempt's answers are long enough for every redirect hop. */
  predicate Answers(a: Attempt) {
    |a.opens| == MAX_REDIRECTS + 1
  }

  /** What the task is seen to do. */
  datatype Net = Started(url: string) | Opened | Finished(outcome: Outcome, next: string)
    | Paused(ms: nat, waited: nat)

  // ---- One attempt ----------------------------------------------------------

  predicate IsRedirect(status: int) {
    status == 301 || status == 302 || status == 303 || status == 307 || status == 308
  }

  predicate Redirects(answer: Option<int>) {
    answer.Some? && IsRedirect(answer.value)
  }

  /** The last answer of `count` opens, each but the last of which redirects to the next. */
  ghost predicate EndsAfter(opens: seq<Option<int>>, count: nat) {
    && 0 < count <= |opens|
    && (forall i: nat :: i < count - 1 ==> Redirects(opens[i]))
    && (Redirects(opens[count - 1]) ==> count == |opens|)
  }

  /** A 2xx answer at the end of the redirects. */
  predicate Succeeds(answer: Option<int>) {
    answer.Some? && 200 <= answer.value < 300
  }

  /** What an attempt comes to, given the answer its redirects end with. */
  function OutcomeOf(a: Attempt, answer: Option<int>): Outcome {
    if !a.client || !Succeeds(answer) then Failed
    else if a.kind == Mp3 then Ended
    else if a.kind == Playlist && a.playlist.Url? then Resolved
    else Permanent
  }

  method OpenFollowingRedirects(a: Attempt) returns (status: int, trace: seq<Net>)
    requires Answers(a)
    ensures EndsAfter(a.opens, |trace|) && forall i: nat :: i < |trace| ==> trace[i] == Opened
    ensures status == match a.opens[|trace| - 1]
                      case None => -1
                      case Some(answer) => if IsRedirect(answer) then -1 else answer
  {
    trace := [];
    var hop := 0;
    while hop <= MAX_REDIRECTS
      invariant hop <= MAX_REDIRECTS + 1 && |trace| == hop
      invariant forall i: nat :: i < |trace| ==> trace[i] == Opened
      invariant forall i: nat :: i < hop ==> Redirects(a.opens[i])
    {
      trace := trace + [Opened];
      if a.opens[hop].None? {
        return -1, trace;
      }
      if !IsRedirect(a.opens[hop].value) {
        return a.opens[hop].value, trace;
      }
      hop := hop + 1;
    }
    return -1, trace;
  }

  /** What one attempt looks like from outside. */
  ghost predicate LooksLike(a: Attempt, url: string, trace: seq<Net>) {
    var opens := |trace| - 2;
    && 0 <= opens <= MAX_REDIRECTS + 1
    && trace[0] == Started(url)
    && (forall i: nat :: 0 < i <= opens ==> trace[i] == Opened)
    && (if a.client then EndsAfter(a.opens, opens) else opens == 0)
    && var outcome := OutcomeOf(a, if a.client then a.opens[opens - 1] else None);
       trace[opens + 1] == Finished(outcome, if outcome == Resolved then a.playlist.url else url)
  }

  /** One attempt; a resolved playlist replaces the URL. */
  method StreamOnce(url: string, a: Attempt) returns (outcome: Outcome, next: string, trace: seq<Net>)
    requires Answers(a)
    ensures LooksLike(a, url, trace) && trace[|trace| - 1] == Finished(outcome, next)
  {
    next := url;
    if !a.client {
      return Failed, next, [Started(url), Finished(Failed, next)];
    }
    var status, opens := OpenFollowingRedirects(a);
    if status < 200 || status >= 300 {
      outcome := Failed;
    } else {
      match a.kind {
        case Playlist =>
          if a.playlist.Url? {
            next := a.playlist.url;
            outcome := Resolved;
          } else {
            outcome := Permanent;
          }
        case Mp3 => outcome := Ended;
        case _ => outcome := Permanent;
      }
    }
    trace := [Started(url)] + opens + [Finished(outcome, next)];
    assert forall i: nat :: 0 < i <= |opens| ==> trace[i] == opens[i - 1];
  }

  // ---- What a run of the task may look like ---------------------------------

  function Opens(trace: seq<Net>): nat {
    if trace == [] then 0 else Opens(trace[..|trace| - 1]) + if trace[|trace| - 1] == Opened then 1 else 0
  }

  function Starts(trace: seq<Net>): nat {
    if trace == [] then 0 else Starts(trace[..|trace| - 1]) + if trace[|trace| - 1].Started? then 1 else 0
  }

  predicate Unpaused(trace: seq<Net>) {
    forall i: nat :: i < |trace| ==> !trace[i].Paused?
  }

  /** Connections opened since the last pause. */
  function RecentOpens(trace: seq<Net>): nat {
    if trace == [] || trace[|trace| - 1].Paused? then 0
    else RecentOpens(trace[..|trace| - 1]) + if trace[|trace| - 1] == Opened then 1 else 0
  }

  ghost predicate FewOpens(trace: seq<Net>) {
    forall j: nat :: j <= |trace| ==> RecentOpens(trace[..j]) <= MAX_OPENS
  }

  /** The next back-off step: reset by a stream, kept by a permanent refusal, else one up to the table's last. */
  function NextStep(outcome: Outcome, step: nat): (next: nat)
    requires step < |BACKOFF_MS|
    ensures next < |BACKOFF_MS|
  {
    match outcome
    case Ended => 0
    case Permanent => step
    case _ => Min(step + 1, 3)
  }

  /** How long the task waits after an attempt. */
  function PauseAfter(outcome: Outcome, step: nat): nat
    requires step < |BACKOFF_MS|
  {
    if outcome == Permanent then PERMANENT_RETRY_MS else BACKOFF_MS[step]
  }

  /**
   * What may follow what, `step` being the back-off step before the event and `after` the one after
   * it: attempts start at the session's URL or at the one just resolved, and pauses fit outcomes.
   */
  ghost predicate Follows(sessionUrl: string, before: Option<Net>, step: nat, event: Net, after: nat) {
    step < |BACKOFF_MS| &&
    match event
    case Started(url) =>
      after == step && (if before.None? || before.value.Paused? then url == sessionUrl
                        else before.value == Finished(Resolved, url))
    case Paused(ms, _) =>
      && before.Some? && before.value.Finished?
      && after == NextStep(before.value.outcome, step) && ms == PauseAfter(before.value.outcome, after)
    case _ => after == step && before.Some? && (before.value.Started? || before.value == Opened)
  }

  /** `steps[i]` is the back-off step after event `i`; it starts at the table's first. */
  ghost predicate WellOrdered(sessionUrl: string, trace: seq<Net>, steps: seq<nat>) {
    && |steps| == |trace|
    && (trace != [] ==> Follows(sessionUrl, None, 0, trace[0], steps[0]))
    && forall i: nat, j: nat :: j < |trace| && i + 1 == j
         ==> Follows(sessionUrl, Some(trace[i]), steps[i], trace[j], steps[j])
  }

  function LastEvent(trace: seq<Net>): Option<Net> {
    if trace == [] then None else Some(trace[|trace| - 1])
  }

  function LastStep(steps: seq<nat>): nat {
    if steps == [] then 0 else steps[|steps| - 1]
  }

  predicate AfterPause(trace: seq<Net>) {
    trace == [] || trace[|trace| - 1].Paused?
  }

  lemma OneMoreFollows(sessionUrl: string, trace: seq<Net>, steps: seq<nat>, event: Net, after: nat)
    requires WellOrdered(sessionUrl, trace, steps)
    requires Follows(sessionUrl, LastEvent(trace), LastStep(steps), event, after)
    ensures WellOrdered(sessionUrl, trace + [event], steps + [after])
  {
  }

  /** An attempt leaves the back-off step alone. */
  lemma AttemptFollows(sessionUrl: string, trace: seq<Net>, steps: seq<nat>, attempt: seq<Net>, n: nat)
    requires WellOrdered(sessionUrl, trace, steps) && n <= |attempt| && attempt != []
    requires Follows(sessionUrl, LastEvent(trace), LastStep(steps), attempt[0], LastStep(steps))
    requires attempt[0].Started? && attempt[|attempt| - 1].Finished?
    requires forall i: nat :: 0 < i < |attempt| - 1 ==> attempt[i] == Opened
    ensures WellOrdered(sessionUrl, trace + attempt[..n], steps + seq(n, _ => LastStep(steps)))
    ensures LastStep(steps + seq(n, _ => LastStep(steps))) == LastStep(steps)
  {
  }

  lemma AppendEvent(trace: seq<Net>, event: Net)
    requires FewOpens(trace) && (event == Opened ==> RecentOpens(trace) < MAX_OPENS)
    ensures FewOpens(trace + [event])
    ensures RecentOpens(trace + [event])
            == if event.Paused? then 0 else RecentOpens(trace) + if event == Opened then 1 else 0
    ensures Starts(trace + [event]) == Starts(trace) + if event.Started? then 1 else 0
  {
    var after := trace + [event];
    assert after[..|trace|] == trace && trace[..|trace|] == trace;
    forall j: nat | j <= |after|
      ensures RecentOpens(after[..j]) <= MAX_OPENS
    {
      assert j <= |trace| ==> after[..j] == trace[..j];
      assert j > |trace| ==> after[..j] == after;
    }
  }

  lemma {:induction false} AppendUnpaused(trace: seq<Net>, more: seq<Net>)
    requires FewOpens(trace) && Unpaused(more) && RecentOpens(trace) + Opens(more) <= MAX_OPENS
    ensures FewOpens(trace + more)
    ensures RecentOpens(trace + more) == RecentOpens(trace) + Opens(more)
    ensures Starts(trace + more) == Starts(trace) + Starts(more)
  {
    if more == [] {
      assert trace + more == trace;
    } else {
      var n := |more| - 1;
      AppendUnpaused(trace, more[..n]);
      AppendEvent(trace + more[..n], more[n]);
      assert trace + more[..n] + [more[n]] == trace + more;
    }
  }

  lemma {:induction false} AttemptCounts(trace: seq<Net>)
    requires trace != [] && trace[0].Started? && forall i: nat :: 0 < i < |trace| ==> trace[i] == Opened
    ensures Opens(trace) == |trace| - 1 && Starts(trace) == 1
  {
    if |trace| > 1 {
      AttemptCounts(trace[..|trace| - 1]);
    } else {
      assert trace[..0] == [];
    }
  }

  /** Any stretch without a pause opens at most `MAX_OPENS` connections. */
  lemma {:induction false} StretchOpensFew(trace: seq<Net>, i: nat, j: nat)
    requires FewOpens(trace) && i <= j <= |trace| && Unpaused(trace[i..j])
    ensures Opens(trace[i..j]) <= RecentOpens(trace[..j]) <= MAX_OPENS
  {
    if i < j {
      assert trace[i..j][..j - i - 1] == trace[i..j - 1];
      assert trace[..j][..j - 1] == trace[..j - 1];
      assert Unpaused(trace[i..j - 1]) by {
        assert forall k: nat :: k < j - 1 - i ==> trace[i..j - 1][k] == trace[i..j][k];
      }
      StretchOpensFew(trace, i, j - 1);
      assert !trace[i..j][j - i - 1].Paused?;
    } else {
      assert trace[i..j] == [];
    }
  }

  lemma AttemptOpensFew(trace: seq<Net>, url: string, a: Attempt, attempt: seq<Net>)
    requires FewOpens(trace) && LooksLike(a, url, attempt)
    requires RecentOpens(trace) <= MAX_PLAYLIST_HOPS * (MAX_REDIRECTS + 1)
    ensures FewOpens(trace + attempt)
    ensures Starts(trace + attempt) == Starts(trace) + 1
    ensures RecentOpens(trace + attempt) <= RecentOpens(trace) + MAX_REDIRECTS + 1
  {
    AttemptCounts(attempt[..|attempt| - 1]);
    AppendUnpaused(trace, attempt);
  }

  ghost predicate Polite(sessionUrl: string, trace: seq<Net>, steps: seq<nat>) {
    FewOpens(trace) && WellOrdered(sessionUrl, trace, steps)
  }

  lemma AttemptIsPolite(sessionUrl: string, trace: seq<Net>, steps: seq<nat>, url: string, a: Attempt,
                        attempt: seq<Net>)
    requires Polite(sessionUrl, trace, steps) && LooksLike(a, url, attempt) && LastStep(steps) < |BACKOFF_MS|
    requires if AfterPause(trace) then url == sessionUrl else LastEvent(trace) == Some(Finished(Resolved, url))
    requires RecentOpens(trace) <= MAX_PLAYLIST_HOPS * (MAX_REDIRECTS + 1)
    ensures var after := trace + attempt;
            var afterSteps := steps + seq(|attempt|, _ => LastStep(steps));
            && Polite(sessionUrl, after, afterSteps) && LastStep(afterSteps) == LastStep(steps)
            && LastEvent(after) == Some(attempt[|attempt| - 1])
            && Starts(after) == Starts(trace) + 1
            && RecentOpens(after) <= RecentOpens(trace) + MAX_REDIRECTS + 1
  {
    AttemptOpensFew(trace, url, a, attempt);
    AttemptFollows(sessionUrl, trace, steps, attempt, |attempt|);
    assert attempt[..|attempt|] == attempt;
  }

  lemma PauseIsPolite(sessionUrl: string, trace: seq<Net>, steps: seq<nat>, outcome: Outcome, next: string, waited: nat)
    requires Polite(sessionUrl, trace, steps) && LastEvent(trace) == Some(Finished(outcome, next))
    requires LastStep(steps) < |BACKOFF_MS|
    ensures var step := NextStep(outcome, LastStep(steps));
            var after := trace + [Paused(PauseAfter(outcome, step), waited)];
            && Polite(sessionUrl, after, steps + [step]) && AfterPause(after)
            && Starts(after) == Starts(trace) && RecentOpens(after) == 0
  {
    var step := NextStep(outcome, LastStep(steps));
    AppendEvent(trace, Paused(PauseAfter(outcome, step), waited));
    OneMoreFollows(sessionUrl, trace, steps, Paused(PauseAfter(outcome, step), waited), step);
  }

  lemma StretchesOpenFew(trace: seq<Net>)
    requires FewOpens(trace)
    ensures forall i: nat, j: nat :: i <= j <= |trace| && Unpaused(trace[i..j]) ==> Opens(trace[i..j]) <= MAX_OPENS
  {
    forall i: nat, j: nat | i <= j <= |trace| && Unpaused(trace[i..j])
      ensures Opens(trace[i..j]) <= MAX_OPENS
    {
      StretchOpensFew(trace, i, j);
    }
  }

  // ---- What the back-off comes to --------------------------------------------

  /** Pauses for failures since the last one after a stream; refusals for good do not count. */
  function FailuresIn(trace: seq<Net>): nat {
    if |trace| < 2 then 0
    else
      var before := trace[..|trace| - 1];
      match trace[|trace| - 1]
      case Paused(_, _) =>
        if trace[|trace| - 2].Finished? then
          match trace[|trace| - 2].outcome
          case Ended => 0
          case Permanent => FailuresIn(before)
          case _ => FailuresIn(before) + 1
        else FailuresIn(before)
      case _ => FailuresIn(before)
  }

  /** One second after a stream, thirty after a refusal for good; else two, then five, then ten for each failure more. */
  predicate BacksOff(trace: seq<Net>, p: nat) {
    p < |trace| && trace[p].Paused? ==>
      && p > 0 && trace[p - 1].Finished?
      && trace[p].ms ==
         match trace[p - 1].outcome
         case Ended => 1000
         case Permanent => 30000
         case _ =>
           var failures := FailuresIn(trace[..p + 1]);
           if failures == 1 then 2000 else if failures == 2 then 5000 else 10000
  }

  lemma {:induction false} StepsCountFailures(sessionUrl: string, trace: seq<Net>, steps: seq<nat>)
    requires WellOrdered(sessionUrl, trace, steps)
    ensures LastStep(steps) == Min(FailuresIn(trace), 3)
  {
    if |trace| >= 2 {
      var n := |trace| - 1;
      StepsCountFailures(sessionUrl, trace[..n], steps[..n]);
      assert Follows(sessionUrl, Some(trace[n - 1]), steps[n - 1], trace[n], steps[n]);
    }
  }

  lemma PausesBackOff(sessionUrl: string, trace: seq<Net>, steps: seq<nat>)
    requires WellOrdered(sessionUrl, trace, steps)
    ensures forall p: nat :: BacksOff(trace, p)
  {
    forall p: nat | p < |trace| && trace[p].Paused?
      ensures BacksOff(trace, p)
    {
      assert p > 0;
      assert Follows(sessionUrl, Some(trace[p - 1]), steps[p - 1], trace[p], steps[p]);
      StepsCountFailures(sessionUrl, trace[..p + 1], steps[..p + 1]);
      assert trace[..p + 1][..p] == trace[..p];
    }
  }

  // ---- Which playlists are followed ------------------------------------------

  /** Playlists resolved since the last pause. */
  function HopsIn(trace: seq<Net>): nat {
    if trace == [] then 0
    else match trace[|trace| - 1]
      case Paused(_, _) => 0
      case Finished(outcome, _) => HopsIn(trace[..|trace| - 1]) + if outcome == Resolved then 1 else 0
      case _ => HopsIn(trace[..|trace| - 1])
  }

  /** A resolved playlist is gone on to at once, up to the third in a row; only the fourth brings a pause. */
  predicate GoesOn(trace: seq<Net>, p: nat) {
    0 < p < |trace| && trace[p - 1].Finished? && trace[p - 1].outcome == Resolved ==>
      (trace[p].Paused? <==> HopsIn(trace[..p]) == 4)
  }

  lemma {:induction false} AttemptHops(trace: seq<Net>, attempt: seq<Net>, n: nat)
    requires n <= |attempt| && attempt != [] && attempt[0].Started? && attempt[|attempt| - 1].Finished?
    requires forall i: nat :: 0 < i < |attempt| - 1 ==> attempt[i] == Opened
    ensures HopsIn(trace + attempt[..n])
            == HopsIn(trace) + if n == |attempt| && attempt[n - 1].outcome == Resolved then 1 else 0
  {
    if n == 0 {
      assert trace + attempt[..0] == trace;
    } else {
      AttemptHops(trace, attempt, n - 1);
      assert (trace + attempt[..n])[..|trace| + n - 1] == trace + attempt[..n - 1];
    }
  }

  ghost predicate AllGoOn(trace: seq<Net>) {
    forall p: nat :: GoesOn(trace, p)
  }

  /** Starting after a third playlist at most, an attempt keeps to this. */
  lemma AttemptGoesOn(trace: seq<Net>, attempt: seq<Net>, url: string, a: Attempt)
    requires AllGoOn(trace) && LooksLike(a, url, attempt) && HopsIn(trace) <= 3
    ensures AllGoOn(trace + attempt)
    ensures HopsIn(trace + attempt) == HopsIn(trace) + if attempt[|attempt| - 1].outcome == Resolved then 1 else 0
  {
    AttemptHops(trace, attempt, |attempt|);
    assert attempt[..|attempt|] == attempt;
    forall p: nat
      ensures GoesOn(trace + attempt, p)
    {
      if p < |trace| {
        assert (trace + attempt)[..p] == trace[..p];
        assert GoesOn(trace, p);
      } else if p == |trace| {
        assert (trace + attempt)[..p] == trace;
      }
    }
  }

  lemma PauseGoesOn(trace: seq<Net>, pause: Net)
    requires AllGoOn(trace) && pause.Paused? && trace != []
    requires trace[|trace| - 1].Finished? && (trace[|trace| - 1].outcome == Resolved ==> HopsIn(trace) == 4)
    ensures AllGoOn(trace + [pause]) && HopsIn(trace + [pause]) == 0
  {
    forall p: nat
      ensures GoesOn(trace + [pause], p)
    {
      if p < |trace| {
        assert (trace + [pause])[..p] == trace[..p];
        assert GoesOn(trace, p);
      } else if p == |trace| {
        assert (trace + [pause])[..p] == trace;
      }
    }
  }

  /** The codes followed, and what an attempt comes to. */
  lemma OutcomeInFigures(a: Attempt, answer: Option<int>)
    ensures Redirects(answer) <==> exists code :: code in {301, 302, 303, 307, 308} && answer == Some(code)
    ensures OutcomeOf(a, answer) == Failed
            <==> !a.client || answer.None? || answer.value < 200 || answer.value > 299
    ensures OutcomeOf(a, answer) != Failed ==>
              && (OutcomeOf(a, answer) == Ended <==> a.kind == Mp3)
              && (OutcomeOf(a, answer) == Resolved <==> a.kind == Playlist && a.playlist.Url?)
  {
  }

  /**
   * A pause in short steps: `raisedAt` is how many looks at the stop flag come before it is up. Left
   * alone it lasts what it should, to the next step; stopped, it ends at the look that sees the flag.
   */
  method Pause(ms: nat, raisedAt: Option<nat>) returns (waited: nat)
    ensures waited < ms + PAUSE_STEP_MS && waited % PAUSE_STEP_MS == 0
    ensures raisedAt.None? ==> waited >= ms
    ensures raisedAt.Some? ==> waited <= raisedAt.value * PAUSE_STEP_MS
    ensures raisedAt.Some? && waited < ms ==> waited == raisedAt.value * PAUSE_STEP_MS
  {
    waited := 0;
    var looks := 0;
    while waited < ms && (raisedAt.None? || looks < raisedAt.value)
      invariant waited == looks * PAUSE_STEP_MS && waited < ms + PAUSE_STEP_MS
      invariant raisedAt.Some? ==> looks <= raisedAt.value
      decreases ms + PAUSE_STEP_MS - waited
    {
      waited := waited + PAUSE_STEP_MS;
      looks := looks + 1;
    }
  }

  predicate IsWhole(event: Net) {
    event.Paused? ==> event.waited >= event.ms
  }

  /** Every pause lasts, but for one that stop has cut short: then nothing follows it. */
  predicate PausesLast(trace: seq<Net>, stopped: bool) {
    && (forall i: nat :: i < |trace| - 1 ==> IsWhole(trace[i]))
    && (trace != [] && !stopped ==> IsWhole(trace[|trace| - 1]))
  }

  lemma AttemptKeepsPauses(trace: seq<Net>, attempt: seq<Net>, url: string, a: Attempt)
    requires PausesLast(trace, false) && LooksLike(a, url, attempt)
    ensures PausesLast(trace + attempt, false)
  {
  }

  /** What the task waits before it starts over from the session's URL. */
  method PauseBetween(ghost sessionUrl: string, trace: seq<Net>, ghost steps: seq<nat>, outcome: Outcome,
                      ghost next: string, step: nat, raisedAt: Option<nat>)
    returns (trace': seq<Net>, step': nat)
    requires Polite(sessionUrl, trace, steps) && LastEvent(trace) == Some(Finished(outcome, next))
    requires step == LastStep(steps) < |BACKOFF_MS| && PausesLast(trace, false)
    requires AllGoOn(trace) && (outcome == Resolved ==> HopsIn(trace) == 4)
    ensures Polite(sessionUrl, trace', steps + [step']) && AfterPause(trace') && step' < |BACKOFF_MS|
    ensures Starts(trace') == Starts(trace) && RecentOpens(trace') == 0
    ensures PausesLast(trace', raisedAt.Some?) && AllGoOn(trace') && HopsIn(trace') == 0
  {
    step' := step;
    var ms := PERMANENT_RETRY_MS;
    if outcome != Permanent {
      step' := if outcome == Ended then 0 else Min(step + 1, 3);
      ms := BACKOFF_MS[step'];
    }
    var waited := Pause(ms, raisedAt);
    PauseIsPolite(sessionUrl, trace, steps, outcome, next, waited);
    PauseGoesOn(trace, Paused(ms, waited));
    trace' := trace + [Paused(ms, waited)];
  }

  /**
   * The task over any number of attempts, the stop flag first seen raised at loop head `stopAt` or
   * at look `cutAt` of the pause before it: one attempt at each loop head before it and none after.
   */
  method FetchTask(sessionUrl: string, attempts: seq<Attempt>, stopAt: nat, cutAt: nat)
    returns (trace: seq<Net>, steps: seq<nat>)
    requires forall i: nat :: i < |attempts| ==> Answers(attempts[i])
    ensures Starts(trace) == Min(|attempts|, stopAt)
    ensures forall i: nat, j: nat :: i <= j <= |trace| && Unpaused(trace[i..j]) ==> Opens(trace[i..j]) <= MAX_OPENS
    ensures WellOrdered(sessionUrl, trace, steps)
    ensures PausesLast(trace, stopAt <= |attempts|)
    ensures forall p: nat :: BacksOff(trace, p) && GoesOn(trace, p)
  {
    trace, steps := [], [];
    var url := sessionUrl;
    var hops := 0;
    var backoff: nat := 0;
    var i := 0;
    while i < |attempts| && i < stopAt
      invariant i <= |attempts| && i <= stopAt && Starts(trace) == i
      invariant 0 <= hops <= MAX_PLAYLIST_HOPS && backoff == LastStep(steps) < |BACKOFF_MS|
      invariant if hops == 0 then AfterPause(trace) && url == sessionUrl
                else LastEvent(trace) == Some(Finished(Resolved, url))
      invariant RecentOpens(trace) <= hops * (MAX_REDIRECTS + 1)
      invariant Polite(sessionUrl, trace, steps) && PausesLast(trace, i == stopAt)
      invariant AllGoOn(trace) && HopsIn(trace) == hops
    {
      var outcome, next, attempt := StreamOnce(url, attempts[i]);
      AttemptIsPolite(sessionUrl, trace, steps, url, attempts[i], attempt);
      AttemptKeepsPauses(trace, attempt, url, attempts[i]);
      AttemptGoesOn(trace, attempt, url, attempts[i]);
      trace := trace + attempt;
      steps := steps + seq(|attempt|, _ => backoff);
      url := next;
      i := i + 1;
      if outcome == Resolved {
        hops := hops + 1;
        if hops <= MAX_PLAYLIST_HOPS {
          continue;
        }
      }
      url := sessionUrl;
      hops := 0;
      trace, backoff := PauseBetween(sessionUrl, trace, steps, outcome, next, backoff,
                                     if i == stopAt then Some(cutAt) else None);
      steps := steps + [backoff];
    }
    StretchesOpenFew(trace);
    PausesBackOff(sessionUrl, trace, steps);
  }
}
