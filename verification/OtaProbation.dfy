/** A fresh firmware image on probation: confirmed only once it has proved healthy. */
module OtaProbation {
  import opened Base

  const PROBATION_SECONDS := 60
  const SETTLE_SECONDS := 20
  const MIN_HEALTHY_HEAP := 4096
  const US_PER_SECOND := 1000000

  datatype Image = Pending | Confirmed

  datatype Timer = NoTimer | Running | Stopped

  /** The running image, the diagnostics' variables, the clock and the lowest heap ever free. */
  datatype Diag = Diag(image: Image, healthSeen: bool, timer: Timer, uptimeUs: nat, heapMin: nat)

  /** How the flash and timer services answer: image state readable, image marked, timer made, timer started. */
  datatype Replies = Replies(readable: bool, marked: bool, created: bool, started: bool)

  datatype Event =
    | TimePasses(us: nat)
    | HeapFalls(free: nat)
    | HealthRead
    | StartProbation(replies: Replies)
    | ProbationTick(replies: Replies)

  predicate PendingVerify(d: Diag, readable: bool) {
    readable && d.image == Pending
  }

  predicate BootSettled(d: Diag, readable: bool) {
    d.uptimeUs / US_PER_SECOND >= SETTLE_SECONDS && !PendingVerify(d, readable)
  }

  function ConfirmedNow(d: Diag, r: Replies): Diag {
    if r.readable && r.marked then d.(image := Confirmed) else d
  }

  function HealthServed(d: Diag): Diag {
    if d.uptimeUs / US_PER_SECOND >= PROBATION_SECONDS then d.(healthSeen := true) else d
  }

  function Started(d: Diag, r: Replies): Diag {
    if d.timer != NoTimer then d
    else if !r.created then ConfirmedNow(d, r)
    else if !r.started then ConfirmedNow(d.(timer := Stopped), r)
    else d.(timer := Running)
  }

  function Checked(d: Diag, r: Replies): Diag {
    if !PendingVerify(d, r.readable) then d.(timer := Stopped)
    else if !d.healthSeen then d
    else if d.heapMin < MIN_HEALTHY_HEAP then d.(timer := Stopped)
    else ConfirmedNow(d, r).(timer := Stopped)
  }

  // ---- The callbacks --------------------------------------------------------

  class SystemDiag {
    var image: Image
    var healthSeen: bool
    var timer: Timer
    var uptimeUs: nat
    var heapMin: nat

    constructor (heapFree: nat)
      ensures State() == Diag(Pending, false, NoTimer, 0, heapFree)
    {
      image, healthSeen, timer, uptimeUs, heapMin := Pending, false, NoTimer, 0, heapFree;
    }

    ghost function State(): Diag
      reads this
    {
      Diag(image, healthSeen, timer, uptimeUs, heapMin)
    }

    method ConfirmNow(r: Replies)
      modifies this`image
      ensures State() == ConfirmedNow(old(State()), r)
    {
      if r.readable && image == Pending && r.marked {
        image := Confirmed;
      }
    }

    method Json()
      modifies this`healthSeen
      ensures State() == HealthServed(old(State()))
    {
      if uptimeUs / US_PER_SECOND >= PROBATION_SECONDS {
        healthSeen := true;
      }
    }

    method ProbationCheck(r: Replies)
      modifies this
      ensures State() == Checked(old(State()), r)
    {
      if !(r.readable && image == Pending) {
        timer := Stopped;
        return;
      }
      var heapOk := heapMin >= MIN_HEALTHY_HEAP;
      if !healthSeen {
        return;
      }
      if !heapOk {
        timer := Stopped;
        return;
      }
      ConfirmNow(r);
      timer := Stopped;
    }

    method ConfirmOtaAfterProbation(r: Replies)
      modifies this
      ensures State() == Started(old(State()), r)
    {
      if timer != NoTimer {
        return;
      }
      if r.created {
        timer := Stopped;
        if r.started {
          timer := Running;
        }
      }
      if timer != Running {
        ConfirmNow(r);
      }
    }
  }

  // ---- Runs -----------------------------------------------------------------

  /** The timer only calls back while it runs; the lowest free heap only falls. */
  predicate Enabled(d: Diag, e: Event) {
    e.ProbationTick? ==> d.timer == Running
  }

  function After(d: Diag, e: Event): Diag {
    match e
    case TimePasses(us) => d.(uptimeUs := d.uptimeUs + us)
    case HeapFalls(free) => d.(heapMin := Min(d.heapMin, free))
    case HealthRead => HealthServed(d)
    case StartProbation(r) => Started(d, r)
    case ProbationTick(r) => Checked(d, r)
  }

  /** Everything from boot with a pending image. */
  ghost predicate IsRun(states: seq<Diag>, events: seq<Event>) {
    && |states| == |events| + 1
    && (exists heap: nat :: states[0] == Diag(Pending, false, NoTimer, 0, heap))
    && forall i: nat :: i < |events| ==> StepOk(states[i], events[i], states[i + 1])
  }

  ghost predicate StepOk(d: Diag, e: Event, after: Diag) {
    Enabled(d, e) && after == After(d, e)
  }

  /** A run on a chip whose timer service works. */
  ghost predicate IsTimedRun(states: seq<Diag>, events: seq<Event>) {
    IsRun(states, events) && forall i: nat :: i < |events| ==> TimerWorks(events[i])
  }

  predicate TimerWorks(e: Event) {
    e.StartProbation? ==> e.replies.created && e.replies.started
  }

  /** A client read the health page late enough, before step `n`. */
  ghost predicate HealthReadBefore(states: seq<Diag>, events: seq<Event>, n: nat) {
    exists i: nat :: ServedAt(states, events, i) && i < n
  }

  ghost predicate ServedAt(states: seq<Diag>, events: seq<Event>, i: nat) {
    i < |events| && i < |states| && events[i] == HealthRead
    && states[i].uptimeUs >= PROBATION_SECONDS * US_PER_SECOND
  }

  /** Step `n` is the periodic check that confirms the image. */
  ghost predicate ConfirmedAt(states: seq<Diag>, events: seq<Event>, n: nat) {
    && n < |events| && n + 1 < |states|
    && states[n].image == Pending && states[n + 1].image == Confirmed
  }

  lemma {:induction false} SeenMeansServed(states: seq<Diag>, events: seq<Event>, n: nat)
    requires IsRun(states, events) && n <= |events| && states[n].healthSeen
    ensures HealthReadBefore(states, events, n)
  {
    assert n > 0;
    assert StepOk(states[n - 1], events[n - 1], states[n]);
    if states[n - 1].healthSeen {
      SeenMeansServed(states, events, n - 1);
    } else {
      assert ServedAt(states, events, n - 1);
    }
  }

  function Elapsed(events: seq<Event>): nat {
    if events == [] then 0
    else
      Elapsed(events[..|events| - 1])
      + match events[|events| - 1]
        case TimePasses(us) => us
        case _ => 0
  }

  /** Uptime is the time that has passed, and no heap ever seen was below the lowest. */
  lemma {:induction false} UptimeAndHeap(states: seq<Diag>, events: seq<Event>, n: nat)
    requires IsRun(states, events) && n <= |events|
    ensures states[n].uptimeUs == Elapsed(events[..n])
    ensures forall i: nat :: i < n && events[i].HeapFalls? ==> states[n].heapMin <= events[i].free
  {
    if n > 0 {
      UptimeAndHeap(states, events, n - 1);
      assert events[..n][..n - 1] == events[..n - 1];
      assert StepOk(states[n - 1], events[n - 1], states[n]);
    }
  }

  /** Uptime grows, the lowest free heap falls, and a confirmed image stays confirmed. */
  lemma {:induction false} OneWay(states: seq<Diag>, events: seq<Event>, m: nat, n: nat)
    requires IsRun(states, events) && m <= n <= |events|
    ensures states[m].uptimeUs <= states[n].uptimeUs && states[n].heapMin <= states[m].heapMin
    ensures states[m].image == Confirmed ==> states[n].image == Confirmed
  {
    if m < n {
      OneWay(states, events, m, n - 1);
      assert StepOk(states[n - 1], events[n - 1], states[n]);
    }
  }

  lemma {:induction false} ConfirmedOnce(states: seq<Diag>, events: seq<Event>, n: nat) returns (at: nat)
    requires IsRun(states, events) && n <= |events| && states[n].image == Confirmed
    ensures at < n && ConfirmedAt(states, events, at)
  {
    if states[n - 1].image == Confirmed {
      at := ConfirmedOnce(states, events, n - 1);
    } else {
      at := n - 1;
    }
  }

  /**
   * A confirmed image was confirmed by a periodic check, with its flash state read and marked, the
   * heap never below the limit until then, and a health read served at 60 s or later before it.
   */
  lemma ConfirmationWasEarned(states: seq<Diag>, events: seq<Event>, n: nat) returns (at: nat)
    requires IsTimedRun(states, events) && n <= |events| && states[n].image == Confirmed
    ensures at < n && ConfirmedAt(states, events, at)
    ensures events[at].ProbationTick? && events[at].replies.readable && events[at].replies.marked
    ensures HealthReadBefore(states, events, at)
    ensures forall i: nat :: i <= at ==> states[i].heapMin >= MIN_HEALTHY_HEAP
  {
    at := ConfirmedOnce(states, events, n);
    assert StepOk(states[at], events[at], states[at + 1]);
    SeenMeansServed(states, events, at);
    forall i: nat | i <= at
      ensures states[i].heapMin >= MIN_HEALTHY_HEAP
    {
      OneWay(states, events, i, at);
    }
  }

  /** An image whose heap fell too low while pending is never confirmed. */
  lemma LowHeapIsNeverConfirmed(states: seq<Diag>, events: seq<Event>, low: nat, n: nat)
    requires IsTimedRun(states, events) && low <= n <= |events|
    requires states[low].image == Pending && states[low].heapMin < MIN_HEALTHY_HEAP
    ensures states[n].image == Pending
  {
    if states[n].image == Confirmed {
      var at := ConfirmationWasEarned(states, events, n);
      if at < low {
        OneWay(states, events, at + 1, low);
      }
    }
  }

  // ---- The check that decides -----------------------------------------------

  /** Check `at` ends probation: the state cannot be read, or a client has proved the image healthy. */
  ghost predicate EndsProbation(states: seq<Diag>, events: seq<Event>, at: nat) {
    && at < |events| && at < |states| && events[at].ProbationTick?
    && (!events[at].replies.readable || HealthReadBefore(states, events, at))
  }

  /** It confirms the image. */
  ghost predicate Confirms(states: seq<Diag>, events: seq<Event>, at: nat) {
    && EndsProbation(states, events, at)
    && events[at].replies.readable && events[at].replies.marked && states[at].heapMin >= MIN_HEALTHY_HEAP
  }

  lemma {:induction false} ServedMeansSeen(states: seq<Diag>, events: seq<Event>, n: nat)
    requires IsRun(states, events) && n <= |events|
    ensures HealthReadBefore(states, events, n) <==> states[n].healthSeen
  {
    if states[n].healthSeen {
      SeenMeansServed(states, events, n);
    }
    if i: nat :| ServedAt(states, events, i) && i < n {
      assert StepOk(states[n - 1], events[n - 1], states[n]);
      if i < n - 1 {
        ServedMeansSeen(states, events, n - 1);
      }
    }
  }

  /** While the timer runs the image is pending and no check has ended probation; afterwards none comes. */
  lemma {:induction false} ProbationSoFar(states: seq<Diag>, events: seq<Event>, n: nat)
    requires IsTimedRun(states, events) && n <= |events|
    ensures states[n].timer == Stopped <==> exists at: nat :: at < n && EndsProbation(states, events, at)
    ensures states[n].timer != Stopped ==> states[n].image == Pending
    ensures states[n].image == Confirmed <==> exists at: nat :: at < n && Confirms(states, events, at)
  {
    if n > 0 {
      ProbationSoFar(states, events, n - 1);
      ServedMeansSeen(states, events, n - 1);
      assert StepOk(states[n - 1], events[n - 1], states[n]);
      assert events[n - 1].ProbationTick? ==> states[n - 1].timer == Running;
      assert EndsProbation(states, events, n - 1) ==> states[n].timer == Stopped;
      assert Confirms(states, events, n - 1) <==> states[n - 1].image == Pending && states[n].image == Confirmed;
    }
  }

  /**
   * In every run at most one check ends probation, and the image is confirmed exactly when it has
   * and found its state readable, the heap never too low, and the mark taken. Anything else settles
   * for good that the image stays unconfirmed.
   */
  lemma ConfirmedIffDecided(states: seq<Diag>, events: seq<Event>, n: nat)
    requires IsTimedRun(states, events) && n <= |events|
    ensures forall a: nat, b: nat :: a < b < n && EndsProbation(states, events, a) ==> !EndsProbation(states, events, b)
    ensures states[n].image == Confirmed <==> exists at: nat :: at < n && Confirms(states, events, at)
  {
    ProbationSoFar(states, events, n);
    forall a: nat, b: nat | a < b < n && EndsProbation(states, events, a)
      ensures !EndsProbation(states, events, b)
    {
      ProbationSoFar(states, events, b);
      assert StepOk(states[b], events[b], states[b + 1]);
    }
  }

  // ---- With or without a timer ----------------------------------------------

  /** A check that finds the image healthy, its state readable and its mark taken. */
  ghost predicate ConfirmsByCheck(states: seq<Diag>, events: seq<Event>, at: nat) {
    && at < |events| && at < |states| && events[at].ProbationTick? && HealthReadBefore(states, events, at)
    && events[at].replies.readable && events[at].replies.marked && states[at].heapMin >= MIN_HEALTHY_HEAP
  }

  /** No timer was made before step `n`. */
  predicate NoTimerBefore(events: seq<Event>, n: nat) {
    forall i: nat :: i < n && i < |events| && events[i].StartProbation? ==> !events[i].replies.created
  }

  /** A start of probation that gets no timer, or one that will not run, and confirms at once instead. */
  ghost predicate ConfirmsUntimed(events: seq<Event>, at: nat) {
    && at < |events| && events[at].StartProbation? && NoTimerBefore(events, at)
    && !(events[at].replies.created && events[at].replies.started)
    && events[at].replies.readable && events[at].replies.marked
  }

  ghost predicate ConfirmsAt(states: seq<Diag>, events: seq<Event>, at: nat) {
    ConfirmsByCheck(states, events, at) || ConfirmsUntimed(events, at)
  }

  lemma {:induction false} NoTimerIff(states: seq<Diag>, events: seq<Event>, n: nat)
    requires IsRun(states, events) && n <= |events|
    ensures states[n].timer == NoTimer <==> NoTimerBefore(events, n)
  {
    if n > 0 {
      NoTimerIff(states, events, n - 1);
      assert StepOk(states[n - 1], events[n - 1], states[n]);
      assert NoTimerBefore(events, n) <==>
             NoTimerBefore(events, n - 1) && (events[n - 1].StartProbation? ==> !events[n - 1].replies.created);
    }
  }

  /** The start that got a timer and got it running, if any. */
  ghost predicate StartsTimer(events: seq<Event>, at: nat) {
    at < |events| && events[at].StartProbation? && NoTimerBefore(events, at)
    && events[at].replies.created && events[at].replies.started
  }

  /** Checks come only from a timer that was made and got running, and not after one has stopped it. */
  lemma {:induction false} TimerRunsIff(states: seq<Diag>, events: seq<Event>, n: nat)
    requires IsRun(states, events) && n <= |events|
    ensures states[n].timer == Running <==>
              && (exists at: nat :: at < n && StartsTimer(events, at))
              && forall k: nat :: k < n ==> !StopsTimer(states, events, k)
  {
    if n > 0 {
      TimerRunsIff(states, events, n - 1);
      NoTimerIff(states, events, n - 1);
      ServedMeansSeen(states, events, n - 1);
      assert StepOk(states[n - 1], events[n - 1], states[n]);
      if events[n - 1].StartProbation? && states[n - 1].timer == NoTimer {
        NoTickYet(states, events, n - 1);
        assert StartsTimer(events, n - 1) <==> states[n].timer == Running;
      } else {
        assert !StartsTimer(events, n - 1);
        assert states[n].timer == Running
               <==> states[n - 1].timer == Running && !StopsTimer(states, events, n - 1);
      }
    }
  }

  /** A check that finds nothing left to wait for. */
  ghost predicate StopsTimer(states: seq<Diag>, events: seq<Event>, k: nat) {
    && k < |events| && k < |states| && events[k].ProbationTick?
    && (!events[k].replies.readable || states[k].image == Confirmed || HealthReadBefore(states, events, k))
  }

  lemma {:induction false} NoTickYet(states: seq<Diag>, events: seq<Event>, n: nat)
    requires IsRun(states, events) && n <= |events| && states[n].timer == NoTimer
    ensures forall k: nat :: k < n ==> !events[k].ProbationTick?
    ensures forall k: nat :: k < n ==> !StartsTimer(events, k)
  {
    if n > 0 {
      assert StepOk(states[n - 1], events[n - 1], states[n]);
      NoTickYet(states, events, n - 1);
      NoTimerIff(states, events, n);
    }
  }

  lemma ConfirmsThen(states: seq<Diag>, events: seq<Event>, n: nat)
    requires IsRun(states, events) && n < |events|
    ensures states[n + 1].image == Confirmed <==> states[n].image == Confirmed || ConfirmsAt(states, events, n)
  {
    assert StepOk(states[n], events[n], states[n + 1]);
    NoTimerIff(states, events, n);
    ServedMeansSeen(states, events, n);
  }

  /** In every run, whatever the timer service does, the image is confirmed exactly by one of these two. */
  lemma {:induction false} ConfirmedIff(states: seq<Diag>, events: seq<Event>, n: nat)
    requires IsRun(states, events) && n <= |events|
    ensures states[n].image == Confirmed <==> exists at: nat :: at < n && ConfirmsAt(states, events, at)
  {
    if n > 0 {
      ConfirmedIff(states, events, n - 1);
      ConfirmsThen(states, events, n - 1);
    }
  }

  /** In particular a late health read and a next check that reads, marks and finds the heap intact are enough. */
  lemma HealthyImageIsConfirmed(states: seq<Diag>, events: seq<Event>, n: nat)
    requires IsTimedRun(states, events) && n < |events|
    requires HealthReadBefore(states, events, n) && events[n].ProbationTick?
    requires states[n].heapMin >= MIN_HEALTHY_HEAP && events[n].replies.readable
    ensures states[n].image == Pending && (states[n + 1].image == Confirmed <==> events[n].replies.marked)
  {
    ProbationSoFar(states, events, n);
    ServedMeansSeen(states, events, n);
    assert StepOk(states[n], events[n], states[n + 1]);
  }

  /** Check `at` confirmed the image, after a late enough health read and with the heap intact. */
  ghost predicate EarnedAt(states: seq<Diag>, events: seq<Event>, at: nat) {
    && ConfirmedAt(states, events, at) && HealthReadBefore(states, events, at)
    && forall i: nat :: i <= at ==> states[i].heapMin >= MIN_HEALTHY_HEAP
  }

  /**
   * In every run, boot counts as settled after 20 s exactly when the image has earned its
   * confirmation or its state cannot be read.
   */
  lemma SettledIffEarnedOrUnreadable(states: seq<Diag>, events: seq<Event>, n: nat, readable: bool)
    requires IsTimedRun(states, events) && n <= |events|
    ensures BootSettled(states[n], readable)
            <==> states[n].uptimeUs >= SETTLE_SECONDS * US_PER_SECOND
                 && (!readable || exists at: nat :: at < n && EarnedAt(states, events, at))
  {
    if states[n].image == Confirmed {
      var at := ConfirmationWasEarned(states, events, n);
      assert EarnedAt(states, events, at);
    } else if at: nat :| at < n && EarnedAt(states, events, at) {
      OneWay(states, events, at + 1, n);
    }
  }

  /** So between 20 s and 60 s of uptime it counts as settled only when its state cannot be read. */
  lemma SettledEarlyIffUnreadable(states: seq<Diag>, events: seq<Event>, n: nat, readable: bool)
    requires IsTimedRun(states, events) && n <= |events|
    requires SETTLE_SECONDS * US_PER_SECOND <= states[n].uptimeUs < PROBATION_SECONDS * US_PER_SECOND
    ensures states[n].image == Pending && (BootSettled(states[n], readable) <==> !readable)
  {
    if states[n].image == Confirmed {
      var at := ConfirmationWasEarned(states, events, n);
      var i: nat :| i < at && ServedAt(states, events, i);
      OneWay(states, events, i, n);
    }
  }
}
