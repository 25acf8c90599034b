/** The alarm task: wake-up ramp, sleep and duration deadlines, scheduled rows. */
module AlarmClock {
  import opened Base
  import opened AlarmSchedule
  import opened ScheduleRuns

  const US_PER_SECOND := 1000000
  const USER_MOVE_DB := 0.5
  const RAMP_START_DB := -45.0
  const MIN_DB := -96.0
  const MAX_DB := 12.0

  datatype Power = On | Standby

  /** A fade-in under way. */
  datatype Ramp = Ramp(startUs: nat, seconds: nat, targetDb: real, lastDb: real)

  /**
   * How the services answer: gain write, power write, configuration save, the preset's tuning and,
   * when its sound profile goes in, its gain, whether the speaker's link can be looked at and, when
   * it is down, comes back.
   */
  datatype Replies = Replies(gain: bool, power: bool, store: bool, tuned: bool, presetDb: Option<real>,
                             linkSeen: bool, relinks: bool)

  /** The timer, and the services' answers, while one part of a tick runs. */
  datatype Moment = Moment(us: nat, replies: Replies)

  /** `volume`: what the user sets the volume to in the middle of the ramp's part, if anything. */
  datatype Tick = Tick(ramp: Moment, volume: Option<real>, deadline: Moment, schedule: Moment, clock: Reads)

  /** One thing that happens to the alarm clock: a part of a tick, or a user's request between two. */
  datatype Event =
    | RampStep(m: Moment, volume: Option<real>)
    | DeadlineCheck(m: Moment)
    | ScheduleCheck(m: Moment, clock: Reads)
    | SleepSet(minutes: nat, us: nat)
    | VolumeMoved(db: real)
    | PowerSwitched(power: Power)
    | SpeakerDropped

  /** The task's variables, the services it drives, and the rows it has acted on. */
  datatype Clock = Clock(
    ramp: Option<Ramp>,
    sleepDeadlineUs: nat,
    alarmOffDeadlineUs: nat,
    lastCheckedMinute: nat,
    power: Power,
    masterDb: real,
    webRadioOn: bool,
    url: string,      // the web radio's station
    preset: nat,      // the tuner's
    linked: bool,     // to the speaker
    log: seq<Action>)

  // ---- What each operation does to the clock -------------------------------

  function AlarmRampDb(targetDb: real, elapsedSec: nat, rampSeconds: nat): real {
    if targetDb <= RAMP_START_DB || rampSeconds == 0 || elapsedSec >= rampSeconds then targetDb
    else RAMP_START_DB + Part(targetDb - RAMP_START_DB, elapsedSec, rampSeconds)
  }

  /** `a` parts in `n` of a rise. */
  function Part(rise: real, a: nat, n: nat): real
    requires n > 0
  {
    rise * (a as real / n as real)
  }

  /** Whole seconds since `startUs`, cut to 32 bits. */
  function ElapsedSeconds(us: nat, startUs: nat): nat {
    if us >= startUs then (us - startUs) / US_PER_SECOND % 0x1_0000_0000
    else (0x1_0000_0000 - (startUs - us) / US_PER_SECOND % 0x1_0000_0000) % 0x1_0000_0000
  }

  predicate DeadlinePassed(deadlineUs: nat, us: nat) {
    deadlineUs != 0 && us >= deadlineUs
  }

  predicate UserMoved(masterDb: real, lastDb: real) {
    masterDb - lastDb > USER_MOVE_DB || lastDb - masterDb > USER_MOVE_DB
  }

  function WithMaster(c: Clock, db: real, r: Replies): Clock {
    if MIN_DB <= db <= MAX_DB && r.gain then c.(masterDb := db) else c
  }

  function WithPower(c: Clock, power: Power, r: Replies): Clock {
    if r.power then c.(power := power) else c
  }

  function WebRadioStopped(c: Clock, r: Replies): Clock {
    if c.webRadioOn && r.store then c.(webRadioOn := false) else c
  }

  function SourceStarted(c: Clock, e: AlarmEntry, r: Replies): Clock {
    if e.source == WebRadio then
      if r.store then c.(webRadioOn := true, url := e.url) else c
    else
      var stopped := WebRadioStopped(c, r);
      if !r.tuned then stopped
      else if r.presetDb.None? then stopped.(preset := e.preset)
      else stopped.(preset := e.preset, masterDb := r.presetDb.value)
  }

  function SpeakerWoken(c: Clock, r: Replies): Clock {
    if r.linkSeen && !c.linked then c.(linked := r.relinks) else c
  }

  function TurnedOff(c: Clock, m: Moment): Clock {
    WithPower(WebRadioStopped(c.(ramp := None, sleepDeadlineUs := 0, alarmOffDeadlineUs := 0), m.replies),
              Standby, m.replies)
  }

  function TurnedOn(c: Clock, e: AlarmEntry, m: Moment): Clock {
    var startDb := AlarmRampDb(e.volumeDb, 0, e.fadeInSeconds);
    var on := WithPower(WithMaster(SourceStarted(c, e, m.replies), startDb, m.replies), On, m.replies);
    SpeakerWoken(on, m.replies).(
      ramp := Some(Ramp(m.us, e.fadeInSeconds, e.volumeDb, startDb)),
      alarmOffDeadlineUs := if e.durationMinutes == 0 then 0
                            else m.us + e.durationMinutes * 60 * US_PER_SECOND)
  }

  function Touched(c: Clock, volume: Option<real>): Clock {
    if volume.Some? then c.(masterDb := volume.value) else c
  }

  /** The user's hand falls between the look at the gain and the write of a new one. */
  function RampStepped(c: Clock, m: Moment, volume: Option<real>): Clock {
    match c.ramp
    case None => Touched(c, volume)
    case Some(ramp) =>
      var elapsed := ElapsedSeconds(m.us, ramp.startUs);
      var moved := UserMoved(c.masterDb, ramp.lastDb);
      var db := AlarmRampDb(ramp.targetDb, elapsed, ramp.seconds);
      var stepped := if moved then Touched(c, volume) else WithMaster(Touched(c, volume), db, m.replies);
      stepped.(ramp := if elapsed >= ramp.seconds || moved then None else Some(ramp.(lastDb := db)))
  }

  predicate Expired(c: Clock, us: nat) {
    DeadlinePassed(c.sleepDeadlineUs, us) || DeadlinePassed(c.alarmOffDeadlineUs, us)
  }

  function DeadlinesChecked(c: Clock, m: Moment): Clock {
    if c.power == Standby then c.(sleepDeadlineUs := 0, alarmOffDeadlineUs := 0)
    else if Expired(c, m.us) then TurnedOff(c, m)
    else c
  }

  function Acted(c: Clock, due: AlarmEntry, m: Moment): Clock {
    if due.action == TurnOn then TurnedOn(c, due, m) else TurnedOff(c, m)
  }

  /** The minute is noted, and so is the row acted on. */
  function Noted(c: Clock, r: Reads, i: nat): Clock {
    c.(lastCheckedMinute := r.minuteRead / 60, log := c.log + [Action(r.localRead / 60, i)])
  }

  ghost function ScheduleChecked(c: Clock, table: seq<AlarmEntry>, offset: nat, m: Moment, r: Reads): Clock {
    if !Checks(c.lastCheckedMinute, r) then c
    else
      match Due(table, LocalAt(offset, r.localRead / 60))
      case None => c.(lastCheckedMinute := r.minuteRead / 60)
      case Some(i) => Acted(Noted(c, r, i), table[i], m)
  }

  ghost function TickedOnce(c: Clock, table: seq<AlarmEntry>, offset: nat, tick: Tick): Clock {
    ScheduleChecked(DeadlinesChecked(RampStepped(c, tick.ramp, tick.volume), tick.deadline),
                    table, offset, tick.schedule, tick.clock)
  }

  function SleepDeadline(minutes: nat, us: nat): nat {
    if minutes == 0 then 0 else us + minutes * 60 * US_PER_SECOND
  }

  // ---- The task -------------------------------------------------------------

  class AlarmTask {
    const table: seq<AlarmEntry>
    const offset: nat
    var ramp: Option<Ramp>
    var sleepDeadlineUs: nat
    var alarmOffDeadlineUs: nat
    var lastCheckedMinute: nat
    var power: Power
    var masterDb: real
    var webRadioOn: bool
    var url: string
    var preset: nat
    var linked: bool
    ghost var log: seq<Action>

    constructor (table: seq<AlarmEntry>, offset: nat, power: Power, masterDb: real, webRadioOn: bool, url: string,
                 preset: nat, linked: bool)
      ensures this.table == table && this.offset == offset
      ensures State() == Clock(None, 0, 0, 0, power, masterDb, webRadioOn, url, preset, linked, [])
    {
      this.table, this.offset := table, offset;
      ramp, sleepDeadlineUs, alarmOffDeadlineUs, lastCheckedMinute := None, 0, 0, 0;
      this.power, this.masterDb, this.webRadioOn := power, masterDb, webRadioOn;
      this.url, this.preset, this.linked := url, preset, linked;
      log := [];
    }

    ghost function State(): Clock
      reads this
    {
      Clock(ramp, sleepDeadlineUs, alarmOffDeadlineUs, lastCheckedMinute, power, masterDb, webRadioOn, url, preset,
            linked, log)
    }

    method SetMaster(db: real, r: Replies)
      modifies this`masterDb
      ensures State() == WithMaster(old(State()), db, r)
    {
      if MIN_DB <= db <= MAX_DB && r.gain {
        masterDb := db;
      }
    }

    method SetPowerState(state: Power, r: Replies)
      modifies this`power
      ensures State() == WithPower(old(State()), state, r)
    {
      var previous := power;
      power := state;
      if !r.power {
        power := previous;
      }
    }

    method StopWebRadio(r: Replies)
      modifies this`webRadioOn
      ensures State() == WebRadioStopped(old(State()), r)
    {
      if webRadioOn && r.store {
        webRadioOn := false;
      }
    }

    method StartSource(e: AlarmEntry, r: Replies)
      modifies this`webRadioOn, this`url, this`preset, this`masterDb
      ensures State() == SourceStarted(old(State()), e, r)
    {
      if e.source == WebRadio {
        if r.store {
          webRadioOn, url := true, e.url;
        }
        return;
      }
      StopWebRadio(r);
      if r.tuned {
        preset := e.preset;
        if r.presetDb.Some? {
          masterDb := r.presetDb.value;
        }
      }
    }

    method WakeSpeaker(r: Replies)
      modifies this`linked
      ensures State() == SpeakerWoken(old(State()), r)
    {
      if r.linkSeen && !linked {
        linked := r.relinks;
      }
    }

    method TurnOff(m: Moment)
      modifies this
      ensures State() == TurnedOff(old(State()), m)
    {
      ramp := None;
      sleepDeadlineUs := 0;
      alarmOffDeadlineUs := 0;
      StopWebRadio(m.replies);
      SetPowerState(Standby, m.replies);
    }

    method TurnOn(e: AlarmEntry, m: Moment)
      modifies this
      ensures State() == TurnedOn(old(State()), e, m)
    {
      StartSource(e, m.replies);
      var startDb := AlarmRampDb(e.volumeDb, 0, e.fadeInSeconds);
      SetMaster(startDb, m.replies);
      SetPowerState(On, m.replies);
      WakeSpeaker(m.replies);
      ramp := Some(Ramp(m.us, e.fadeInSeconds, e.volumeDb, startDb));
      alarmOffDeadlineUs := if e.durationMinutes == 0 then 0
                            else m.us + e.durationMinutes * 60 * US_PER_SECOND;
    }

    /** What the user does to the volume meanwhile. */
    method UserSets(volume: Option<real>)
      modifies this`masterDb
      ensures State() == Touched(old(State()), volume)
    {
      if volume.Some? {
        masterDb := volume.value;
      }
    }

    method StepRamp(m: Moment, volume: Option<real>)
      modifies this
      ensures State() == RampStepped(old(State()), m, volume)
    {
      if ramp.None? {
        UserSets(volume);
        return;
      }
      var current := ramp.value;
      var elapsed := ElapsedSeconds(m.us, current.startUs);
      var moved := UserMoved(masterDb, current.lastDb);
      var done := elapsed >= current.seconds || moved;
      var db := AlarmRampDb(current.targetDb, elapsed, current.seconds);
      UserSets(volume);
      if !moved {
        SetMaster(db, m.replies);
      }
      if done {
        ramp := None;
      } else {
        ramp := Some(current.(lastDb := db));
      }
    }

    method CheckDeadlines(m: Moment)
      modifies this
      ensures State() == DeadlinesChecked(old(State()), m)
    {
      if power == Standby {
        sleepDeadlineUs := 0;
        alarmOffDeadlineUs := 0;
        return;
      }
      var expired := DeadlinePassed(sleepDeadlineUs, m.us) || DeadlinePassed(alarmOffDeadlineUs, m.us);
      if expired {
        TurnOff(m);
      }
    }

    method Act(due: AlarmEntry, m: Moment)
      modifies this
      ensures State() == Acted(old(State()), due, m)
    {
      if due.action == AlarmAction.TurnOn {
        TurnOn(due, m);
      } else {
        TurnOff(m);
      }
    }

    method CheckSchedule(m: Moment, r: Reads)
      modifies this
      ensures State() == ScheduleChecked(old(State()), table, offset, m, r)
    {
      var minute := r.minuteRead / 60;
      if r.localRead < VALID_EPOCH || minute == lastCheckedMinute {
        return;
      }
      lastCheckedMinute := minute;
      var index := DueAlarm(table, LocalAt(offset, r.localRead / 60));
      if index.None? {
        return;
      }
      log := log + [Action(r.localRead / 60, index.value)];
      Act(table[index.value], m);
    }

    /** One pass of the endless loop. */
    method Pass(tick: Tick)
      modifies this
      ensures State() == TickedOnce(old(State()), table, offset, tick)
    {
      StepRamp(tick.ramp, tick.volume);
      CheckDeadlines(tick.deadline);
      CheckSchedule(tick.schedule, tick.clock);
    }

    method SetSleep(minutes: nat, us: nat)
      modifies this`sleepDeadlineUs
      ensures State() == old(State()).(sleepDeadlineUs := SleepDeadline(minutes, us))
    {
      sleepDeadlineUs := if minutes == 0 then 0 else us + minutes * 60 * US_PER_SECOND;
    }
  }

  // ---- Runs -----------------------------------------------------------------

  ghost function Step(c: Clock, table: seq<AlarmEntry>, offset: nat, e: Event): Clock {
    match e
    case RampStep(m, volume) => RampStepped(c, m, volume)
    case DeadlineCheck(m) => DeadlinesChecked(c, m)
    case ScheduleCheck(m, clock) => ScheduleChecked(c, table, offset, m, clock)
    case SleepSet(minutes, us) => c.(sleepDeadlineUs := SleepDeadline(minutes, us))
    case VolumeMoved(db) => c.(masterDb := db)
    case PowerSwitched(power) => c.(power := power)
    case SpeakerDropped => c.(linked := false)
  }

  ghost function Run(c: Clock, table: seq<AlarmEntry>, offset: nat, events: seq<Event>): Clock {
    if events == [] then c
    else Step(Run(c, table, offset, events[..|events| - 1]), table, offset, events[|events| - 1])
  }

  /** A tick nothing interrupts is its three parts in order. */
  lemma TickIsThreeEvents(c: Clock, table: seq<AlarmEntry>, offset: nat, tick: Tick)
    ensures TickedOnce(c, table, offset, tick)
            == Run(c, table, offset, [RampStep(tick.ramp, tick.volume), DeadlineCheck(tick.deadline),
                                      ScheduleCheck(tick.schedule, tick.clock)])
  {
    RunOfTwo(c, table, offset, RampStep(tick.ramp, tick.volume), DeadlineCheck(tick.deadline));
    var parts := [RampStep(tick.ramp, tick.volume), DeadlineCheck(tick.deadline), ScheduleCheck(tick.schedule, tick.clock)];
    assert parts[..2] == [RampStep(tick.ramp, tick.volume), DeadlineCheck(tick.deadline)];
  }

  lemma RunOfOneMore(c: Clock, table: seq<AlarmEntry>, offset: nat, events: seq<Event>, e: Event)
    ensures Run(c, table, offset, events + [e]) == Step(Run(c, table, offset, events), table, offset, e)
  {
    assert (events + [e])[..|events|] == events;
  }

  lemma RunOfTwo(c: Clock, table: seq<AlarmEntry>, offset: nat, a: Event, b: Event)
    ensures Run(c, table, offset, [a, b]) == Step(Step(c, table, offset, a), table, offset, b)
  {
    RunOfOneMore(c, table, offset, [], a);
    RunOfOneMore(c, table, offset, [a], b);
    assert [] + [a] == [a] && [a] + [b] == [a, b];
  }

  function ClockReads(events: seq<Event>): seq<Reads> {
    if events == [] then []
    else ClockReads(events[..|events| - 1])
         + match events[|events| - 1]
           case ScheduleCheck(_, clock) => [clock]
           case _ => []
  }

  /** Whatever the user does in between, a run acts on the rows `ActionLog` gives for its clock reads. */
  lemma {:induction false} RunFollowsSchedule(c: Clock, table: seq<AlarmEntry>, offset: nat, events: seq<Event>)
    requires c.log == [] && c.lastCheckedMinute == 0
    ensures Run(c, table, offset, events).log == ActionLog(table, offset, ClockReads(events))
    ensures Run(c, table, offset, events).lastCheckedMinute == LastAfter(ClockReads(events))
  {
    if events != [] {
      var before := events[..|events| - 1];
      RunFollowsSchedule(c, table, offset, before);
      match events[|events| - 1]
      case ScheduleCheck(m, clock) =>
        var times := ClockReads(events);
        assert times[..|times| - 1] == ClockReads(before);
        ScheduleLogs(Run(c, table, offset, before), table, offset, m, clock);
      case _ =>
        OthersLogNothing(Run(c, table, offset, before), table, offset, events[|events| - 1]);
        assert ClockReads(before) + [] == ClockReads(before);
    }
  }

  lemma OthersLogNothing(c: Clock, table: seq<AlarmEntry>, offset: nat, e: Event)
    requires !e.ScheduleCheck?
    ensures var after := Step(c, table, offset, e);
            after.log == c.log && after.lastCheckedMinute == c.lastCheckedMinute
  {
  }

  lemma ScheduleLogs(c: Clock, table: seq<AlarmEntry>, offset: nat, m: Moment, r: Reads)
    ensures var after := ScheduleChecked(c, table, offset, m, r);
            && after.log == c.log + (if Checks(c.lastCheckedMinute, r) then ActionAt(table, offset, r) else [])
            && after.lastCheckedMinute == (if Checks(c.lastCheckedMinute, r) then r.minuteRead / 60
                                           else c.lastCheckedMinute)
  {
    assert c.log + [] == c.log;
  }

  /** A run's log holds in each visited minute the first matching row, once, and nothing else. */
  ghost predicate KeepsTable(c: Clock, table: seq<AlarmEntry>, offset: nat, events: seq<Event>) {
    forall minute: nat :: ActionsIn(Run(c, table, offset, events).log, minute)
                          == Wanted(table, offset, ClockReads(events), minute)
  }

  /** The alarm clock as a whole keeps every table exactly when no check straddles a minute. */
  lemma RunKeepsTableIff(c: Clock, offset: nat, events: seq<Event>)
    requires c.log == [] && c.lastCheckedMinute == 0 && Clocked(ClockReads(events))
    ensures (forall table: seq<AlarmEntry> :: KeepsTable(c, table, offset, events))
            <==> !Straddles(ClockReads(events))
  {
    forall table: seq<AlarmEntry>
      ensures KeepsTable(c, table, offset, events) <==> ActsAsWanted(table, offset, ClockReads(events))
    {
      RunFollowsSchedule(c, table, offset, events);
    }
    ScheduleIsKeptIffNotStraddled(offset, ClockReads(events));
  }

  /** And one table exactly when its due minutes are gone by as they should, whatever the clock does. */
  lemma RunKeepsThisTableIff(c: Clock, table: seq<AlarmEntry>, offset: nat, events: seq<Event>)
    requires c.log == [] && c.lastCheckedMinute == 0
    ensures KeepsTable(c, table, offset, events) <==> DueMinutesCheckedOnce(table, offset, ClockReads(events))
  {
    RunFollowsSchedule(c, table, offset, events);
    TableIsKeptIff(table, offset, ClockReads(events));
  }

  // ---- The wake-up ramp -----------------------------------------------------

  lemma RampClimbs(targetDb: real, earlier: nat, later: nat, seconds: nat)
    requires earlier <= later
    ensures AlarmRampDb(targetDb, earlier, seconds) <= AlarmRampDb(targetDb, later, seconds) <= targetDb
    ensures targetDb > RAMP_START_DB ==> RAMP_START_DB <= AlarmRampDb(targetDb, earlier, seconds)
  {
    if targetDb > RAMP_START_DB && earlier < seconds {
      var reached := if later < seconds then later else seconds;
      PartClimbs(targetDb - RAMP_START_DB, earlier, reached, seconds);
    }
  }

  /** Between its ends the ramp is a straight line. */
  lemma RampIsLinear(targetDb: real, elapsed: nat, seconds: nat)
    requires targetDb > -45.0 && elapsed <= seconds && seconds > 0
    ensures (AlarmRampDb(targetDb, elapsed, seconds) + 45.0) * seconds as real == (targetDb + 45.0) * elapsed as real
  {
    PartOf(targetDb - RAMP_START_DB, elapsed, seconds);
    if elapsed < seconds {
      assert AlarmRampDb(targetDb, elapsed, seconds) + 45.0 == Part(targetDb - RAMP_START_DB, elapsed, seconds);
    }
  }

  lemma PartOf(rise: real, a: nat, n: nat)
    requires n > 0
    ensures Part(rise, a, n) * n as real == rise * a as real
    ensures a == 0 ==> Part(rise, a, n) == 0.0
  {
    var q := a as real / n as real;
    Quotient(a as real, n as real, q);
    Regroup(rise, q, n as real);
  }

  lemma Regroup(a: real, b: real, c: real)
    ensures (a * b) * c == a * (b * c)
  {
  }

  lemma PartClimbs(rise: real, a: nat, b: nat, n: nat)
    requires rise > 0.0 && a <= b <= n && 0 < n
    ensures 0.0 <= Part(rise, a, n) <= Part(rise, b, n) <= rise
    ensures a < n ==> Part(rise, a, n) < rise
  {
    Divided(a, b, n as real);
    Divided(b, n, n as real);
    Scaled(rise, 0.0, a as real / n as real);
    Scaled(rise, a as real / n as real, b as real / n as real);
    Scaled(rise, b as real / n as real, 1.0);
    Scaled(rise, a as real / n as real, 1.0);
  }

  lemma Divided(a: nat, b: nat, n: real)
    requires a <= b && n > 0.0
    ensures 0.0 <= a as real / n <= b as real / n && (a < b ==> a as real / n < b as real / n)
    ensures b as real == n ==> b as real / n == 1.0
  {
    SmallerQuotient(0.0, a as real, n);
    SmallerQuotient(a as real, b as real, n);
  }

  lemma SmallerQuotient(x: real, y: real, n: real)
    requires x <= y && n > 0.0
    ensures x / n <= y / n && (x < y ==> x / n < y / n)
    ensures 0.0 / n == 0.0 && n / n == 1.0
  {
    Quotient(x, n, x / n);
    Quotient(y, n, y / n);
    InOrder(x / n, y / n, n);
  }

  lemma Quotient(x: real, n: real, q: real)
    requires n > 0.0 && q == x / n
    ensures q * n == x
  {
  }

  lemma InOrder(p: real, q: real, n: real)
    requires n > 0.0 && p * n <= q * n
    ensures p <= q && (p * n < q * n ==> p < q)
  {
    Larger(n, p, q);
  }

  lemma Larger(n: real, p: real, q: real)
    requires n > 0.0
    ensures p > q ==> p * n > q * n
  {
    assert n * (p - q) == p * n - q * n;
    Positive(n, p - q);
  }

  lemma Scaled(rise: real, x: real, y: real)
    requires rise > 0.0 && x <= y
    ensures rise * x <= rise * y && (x < y ==> rise * x < rise * y)
    ensures rise * 0.0 == 0.0 && rise * 1.0 == rise
  {
    assert rise * (y - x) == rise * y - rise * x;
    Positive(rise, y - x);
  }

  lemma Positive(a: real, b: real)
    requires a > 0.0
    ensures (b >= 0.0 ==> a * b >= 0.0) && (b > 0.0 ==> a * b > 0.0)
  {
  }

  /** What a run is to leave alone. */
  datatype Matter = FadeIn | SleepTimer | Duration

  /** The event neither ends the matter nor replaces it. */
  ghost predicate Spares(matter: Matter, c: Clock, table: seq<AlarmEntry>, offset: nat, e: Event) {
    match e
    case DeadlineCheck(m) =>
      if matter == FadeIn then c.power == Standby || !Expired(c, m.us) else c.power == On && !Expired(c, m.us)
    case ScheduleCheck(_, r) =>
      Checks(c.lastCheckedMinute, r) ==>
        var due := Due(table, LocalAt(offset, r.localRead / 60));
        due.None? || (matter == SleepTimer && table[due.value].action == TurnOn)
    case SleepSet(_, _) => matter != SleepTimer
    case _ => true
  }

  ghost predicate SparesAll(matter: Matter, c: Clock, table: seq<AlarmEntry>, offset: nat, events: seq<Event>) {
    forall i: nat :: i < |events| ==> Spares(matter, Run(c, table, offset, events[..i]), table, offset, events[i])
  }

  lemma SparesPrefix(matter: Matter, c: Clock, table: seq<AlarmEntry>, offset: nat, events: seq<Event>)
    requires |events| > 0 && SparesAll(matter, c, table, offset, events)
    ensures SparesAll(matter, c, table, offset, events[..|events| - 1])
    ensures Spares(matter, Run(c, table, offset, events[..|events| - 1]), table, offset, events[|events| - 1])
  {
    var before := events[..|events| - 1];
    forall i: nat | i < |before|
      ensures Spares(matter, Run(c, table, offset, before[..i]), table, offset, before[i])
    {
      assert before[..i] == events[..i];
    }
  }

  /** When the ramp last stepped. */
  function LastRampStep(events: seq<Event>): Option<nat> {
    if events == [] then None
    else match events[|events| - 1]
      case RampStep(m, _) => Some(m.us)
      case _ => LastRampStep(events[..|events| - 1])
  }

  /** Ramp steps come in timer order, fewer than 2^32 seconds after the start. */
  predicate Paced(events: seq<Event>, startUs: nat) {
    events == [] ||
    var before := events[..|events| - 1];
    Paced(before, startUs) &&
    match events[|events| - 1]
    case RampStep(m, _) =>
      && m.us < startUs + 0x1_0000_0000 * US_PER_SECOND
      && m.us >= (if LastRampStep(before).Some? then LastRampStep(before).value else startUs)
    case _ => true
  }

  predicate GainsTaken(events: seq<Event>) {
    forall i: nat :: i < |events| && events[i].RampStep? ==> events[i].m.replies.gain
  }

  /** The user sets no volume but such as `allowed` lets them. */
  predicate VolumesAre(events: seq<Event>, allowed: real -> bool) {
    forall i: nat :: i < |events| ==> VolumeIs(events[i], allowed)
  }

  predicate VolumeIs(e: Event, allowed: real -> bool) {
    match e
    case VolumeMoved(db) => allowed(db)
    case RampStep(_, volume) => volume.Some? ==> allowed(volume.value)
    case _ => true
  }

  function Never(): real -> bool {
    (db: real) => false
  }

  function AllBut(targetDb: real): real -> bool {
    (db: real) => db != targetDb
  }

  /** Where a ramp left alone stands at `us`: below its target, or done and on it. */
  predicate Ramping(c: Clock, startUs: nat, seconds: nat, targetDb: real, us: nat) {
    if c.ramp.None? then c.masterDb == targetDb && us >= startUs + seconds * US_PER_SECOND
    else
      && startUs <= us < startUs + seconds * US_PER_SECOND
      && c.ramp.value == Ramp(startUs, seconds, targetDb, c.masterDb)
      && c.masterDb == AlarmRampDb(targetDb, ElapsedSeconds(us, startUs), seconds)
  }

  /** The same since its last step, or since the start when it has not stepped yet. */
  predicate OnRamp(c: Clock, startUs: nat, seconds: nat, targetDb: real, lastUs: Option<nat>) {
    match lastUs
    case Some(us) => us >= startUs && Ramping(c, startUs, seconds, targetDb, us)
    case None =>
      c.ramp == Some(Ramp(startUs, seconds, targetDb, c.masterDb)) && c.masterDb == AlarmRampDb(targetDb, 0, seconds)
  }

  /**
   * A ramp whose volume the user leaves alone, whatever sleep timers they set and however they
   * switch power: at each step the gain is at least what it was, never above the target, and
   * exactly the target (with the ramp finished) from `seconds` after the start on.
   */
  lemma {:induction false} RampRunClimbs(c: Clock, table: seq<AlarmEntry>, offset: nat, events: seq<Event>,
                                         startUs: nat, seconds: nat, targetDb: real)
    requires SparesAll(FadeIn, c, table, offset, events) && Paced(events, startUs)
    requires GainsTaken(events) && VolumesAre(events, Never())
    requires MIN_DB <= targetDb <= MAX_DB && OnRamp(c, startUs, seconds, targetDb, None)
    ensures OnRamp(Run(c, table, offset, events), startUs, seconds, targetDb, LastRampStep(events))
    ensures Run(c, table, offset, events).masterDb <= targetDb
    ensures events != [] ==> Run(c, table, offset, events[..|events| - 1]).masterDb <= Run(c, table, offset, events).masterDb
  {
    if events == [] {
      RampClimbs(targetDb, 0, 0, seconds);
    } else {
      var before := events[..|events| - 1];
      var prior := Run(c, table, offset, before);
      SparesPrefix(FadeIn, c, table, offset, events);
      assert VolumeIs(events[|events| - 1], Never());
      RampRunClimbs(c, table, offset, before, startUs, seconds, targetDb);
      match events[|events| - 1]
      case RampStep(m, _) => RampStepClimbs(prior, m, startUs, seconds, targetDb, LastRampStep(before));
      case _ =>
    }
  }

  lemma RampStepClimbs(c: Clock, m: Moment, startUs: nat, seconds: nat, targetDb: real, lastUs: Option<nat>)
    requires MIN_DB <= targetDb <= MAX_DB && m.replies.gain
    requires (if lastUs.Some? then lastUs.value else startUs) <= m.us < startUs + 0x1_0000_0000 * US_PER_SECOND
    requires OnRamp(c, startUs, seconds, targetDb, lastUs)
    ensures OnRamp(RampStepped(c, m, None), startUs, seconds, targetDb, Some(m.us))
    ensures c.masterDb <= RampStepped(c, m, None).masterDb <= targetDb
  {
    if c.ramp.Some? {
      var last := if lastUs.Some? then lastUs.value else startUs;
      ElapsedIsTrue(last, startUs, seconds);
      ElapsedIsTrue(m.us, startUs, seconds);
      SecondsGrow(last - startUs, m.us - startUs);
      RampClimbs(targetDb, ElapsedSeconds(last, startUs), ElapsedSeconds(m.us, startUs), seconds);
    }
  }

  /** Within 2^32 seconds of the start nothing is cut off. */
  lemma ElapsedIsTrue(us: nat, startUs: nat, seconds: nat)
    requires startUs <= us < startUs + 0x1_0000_0000 * US_PER_SECOND
    ensures ElapsedSeconds(us, startUs) == (us - startUs) / US_PER_SECOND
    ensures ElapsedSeconds(us, startUs) >= seconds <==> us >= startUs + seconds * US_PER_SECOND
  {
  }

  lemma SecondsGrow(earlier: nat, later: nat)
    requires earlier <= later
    ensures earlier / US_PER_SECOND <= later / US_PER_SECOND
  {
  }

  // ---- A user's volume is left alone ---------------------------------------

  function UserVolume(db: real, events: seq<Event>): real {
    if events == [] then db else VolumeAfter(UserVolume(db, events[..|events| - 1]), events[|events| - 1])
  }

  function VolumeAfter(db: real, e: Event): real {
    match e
    case VolumeMoved(moved) => moved
    case RampStep(_, volume) => if volume.Some? then volume.value else db
    case _ => db
  }

  /** Of the rows acted on beyond the first `known`, none turned the radio on. */
  predicate NothingTurnedOn(table: seq<AlarmEntry>, log: seq<Action>, known: nat) {
    forall i: nat :: known <= i < |log| ==> log[i].index < |table| && table[log[i].index].action == TurnOff
  }

  lemma StepGrowsLog(c: Clock, table: seq<AlarmEntry>, offset: nat, e: Event)
    ensures c.log <= Step(c, table, offset, e).log
  {
    if e.ScheduleCheck? {
      ScheduleLogs(c, table, offset, e.m, e.clock);
    } else {
      OthersLogNothing(c, table, offset, e);
    }
  }

  lemma {:induction false} LogGrows(c: Clock, table: seq<AlarmEntry>, offset: nat, events: seq<Event>)
    ensures c.log <= Run(c, table, offset, events).log
  {
    if events != [] {
      var before := events[..|events| - 1];
      LogGrows(c, table, offset, before);
      StepGrowsLog(Run(c, table, offset, before), table, offset, events[|events| - 1]);
    }
  }

  /** With no ramp, only the user and a row that turns the radio on ever set the gain. */
  lemma {:induction false} VolumeIsUsers(c: Clock, table: seq<AlarmEntry>, offset: nat, events: seq<Event>)
    requires c.ramp.None?
    requires NothingTurnedOn(table, Run(c, table, offset, events).log, |c.log|)
    ensures Run(c, table, offset, events).ramp.None?
    ensures Run(c, table, offset, events).masterDb == UserVolume(c.masterDb, events)
  {
    if events != [] {
      var before := events[..|events| - 1];
      LogGrows(c, table, offset, before);
      NothingTurnedOnBefore(c, table, offset, events);
      VolumeIsUsers(c, table, offset, before);
      if events[|events| - 1].ScheduleCheck? {
        QuietCheck(Run(c, table, offset, before), table, offset, events[|events| - 1].m, events[|events| - 1].clock);
      }
    }
  }

  lemma NothingTurnedOnBefore(c: Clock, table: seq<AlarmEntry>, offset: nat, events: seq<Event>)
    requires events != [] && NothingTurnedOn(table, Run(c, table, offset, events).log, |c.log|)
    requires c.log <= Run(c, table, offset, events[..|events| - 1]).log
    ensures var prior := Run(c, table, offset, events[..|events| - 1]);
            && NothingTurnedOn(table, prior.log, |c.log|)
            && NothingTurnedOn(table, Run(c, table, offset, events).log, |prior.log|)
  {
    var prior := Run(c, table, offset, events[..|events| - 1]);
    StepGrowsLog(prior, table, offset, events[|events| - 1]);
    NothingTurnedOnSplits(table, prior.log, Run(c, table, offset, events).log, |c.log|);
  }

  lemma NothingTurnedOnSplits(table: seq<AlarmEntry>, prior: seq<Action>, after: seq<Action>, known: nat)
    requires prior <= after && known <= |prior| && NothingTurnedOn(table, after, known)
    ensures NothingTurnedOn(table, prior, known) && NothingTurnedOn(table, after, |prior|)
  {
    assert forall i: nat :: i < |prior| ==> prior[i] == after[i];
  }

  /** A check that turns nothing on does nothing, or turns the radio off. */
  lemma QuietCheck(c: Clock, table: seq<AlarmEntry>, offset: nat, m: Moment, r: Reads)
    requires NothingTurnedOn(table, ScheduleChecked(c, table, offset, m, r).log, |c.log|)
    ensures var after := ScheduleChecked(c, table, offset, m, r);
            var checked := c.(lastCheckedMinute := after.lastCheckedMinute, log := after.log);
            if |after.log| > |c.log| then after == TurnedOff(checked, m) else after == checked
  {
    var due := Due(table, LocalAt(offset, r.localRead / 60));
    if Checks(c.lastCheckedMinute, r) && due.Some? {
      var checked := c.(lastCheckedMinute := r.minuteRead / 60, log := c.log + [Action(r.localRead / 60, due.value)]);
      ActingKeepsLog(checked, table[due.value], m);
      assert checked.log[|c.log|].index == due.value;
    }
  }

  lemma ActingKeepsLog(c: Clock, due: AlarmEntry, m: Moment)
    ensures Acted(c, due, m).log == c.log && Acted(c, due, m).lastCheckedMinute == c.lastCheckedMinute
    ensures due.action == TurnOff ==> Acted(c, due, m) == TurnedOff(c, m)
  {
  }

  /**
   * A ramp step that finds the gain moved by more than `USER_MOVE_DB` drops the ramp: from then on
   * the gain is the user's, until a row turns the radio on again.
   */
  lemma UserMoveEndsRamp(c: Clock, table: seq<AlarmEntry>, offset: nat, events: seq<Event>)
    requires c.ramp.Some? && UserMoved(c.masterDb, c.ramp.value.lastDb)
    requires events != [] && events[0].RampStep?
    requires NothingTurnedOn(table, Run(c, table, offset, events).log, |c.log|)
    ensures Run(c, table, offset, events).ramp.None?
    ensures Run(c, table, offset, events).masterDb == UserVolume(c.masterDb, events)
  {
    MovedActsLikeNoRamp(c, table, offset, events);
    VolumeIsUsers(c.(ramp := None), table, offset, events);
  }

  lemma {:induction false} MovedActsLikeNoRamp(c: Clock, table: seq<AlarmEntry>, offset: nat, events: seq<Event>)
    requires c.ramp.Some? && UserMoved(c.masterDb, c.ramp.value.lastDb)
    requires events != [] && events[0].RampStep?
    ensures Run(c, table, offset, events) == Run(c.(ramp := None), table, offset, events)
  {
    if |events| == 1 {
      assert events[..0] == [];
    } else {
      MovedActsLikeNoRamp(c, table, offset, events[..|events| - 1]);
    }
  }

  /** A volume the user sets before a step of a fade-in outlives it exactly when it is far enough off. */
  lemma MoveIsKeptIff(c: Clock, table: seq<AlarmEntry>, offset: nat, db: real, m: Moment)
    requires c.ramp.Some? && MIN_DB <= c.ramp.value.targetDb <= MAX_DB && m.replies.gain
    ensures Run(c, table, offset, [VolumeMoved(db), RampStep(m, None)]).masterDb
            == if db > c.ramp.value.lastDb + 0.5 || db < c.ramp.value.lastDb - 0.5 then db
               else AskedAt(c.ramp.value, m)
  {
    AskedIsInRange(c.ramp.value, m);
    RunOfTwo(c, table, offset, VolumeMoved(db), RampStep(m, None));
  }

  /** One they set in the middle of a step, however far off, only when that step does not write. */
  lemma MoveInsideIsKeptIff(c: Clock, table: seq<AlarmEntry>, offset: nat, db: real, m: Moment)
    requires c.ramp.Some? && MIN_DB <= c.ramp.value.targetDb <= MAX_DB
    ensures Step(c, table, offset, RampStep(m, Some(db))).masterDb
            == if UserMoved(c.masterDb, c.ramp.value.lastDb) || !m.replies.gain then db else AskedAt(c.ramp.value, m)
  {
    AskedIsInRange(c.ramp.value, m);
  }

  // ---- A fade-in, whatever happens to its gain ------------------------------

  /** The gain a step asks for. */
  function AskedAt(r: Ramp, m: Moment): real {
    AlarmRampDb(r.targetDb, ElapsedSeconds(m.us, r.startUs), r.seconds)
  }

  predicate Finishes(r: Ramp, m: Moment) {
    ElapsedSeconds(m.us, r.startUs) >= r.seconds
  }

  /** The gain last asked for. */
  function Asked(r: Ramp, events: seq<Event>): real {
    if events == [] then r.lastDb
    else match events[|events| - 1]
      case RampStep(m, _) => AskedAt(r, m)
      case _ => Asked(r, events[..|events| - 1])
  }

  /** The gain as it stands while the fade-in goes on: the last one taken, or what the user set since. */
  function Standing(r: Ramp, db: real, events: seq<Event>): real {
    if events == [] then db
    else match events[|events| - 1]
      case RampStep(m, volume) =>
        if m.replies.gain then AskedAt(r, m)
        else if volume.Some? then volume.value
        else Standing(r, db, events[..|events| - 1])
      case VolumeMoved(moved) => moved
      case _ => Standing(r, db, events[..|events| - 1])
  }

  /** Step `i` finds the gain standing far from the one last asked for. */
  predicate InterruptedAt(r: Ramp, db: real, events: seq<Event>, i: nat) {
    i < |events| && events[i].RampStep? && UserMoved(Standing(r, db, events[..i]), Asked(r, events[..i]))
  }

  ghost predicate Uninterrupted(r: Ramp, db: real, events: seq<Event>) {
    forall i: nat :: !InterruptedAt(r, db, events, i)
  }

  predicate Unfinished(r: Ramp, events: seq<Event>) {
    forall i: nat :: i < |events| && events[i].RampStep? ==> !Finishes(r, events[i].m)
  }

  lemma AskedIsInRange(r: Ramp, m: Moment)
    requires MIN_DB <= r.targetDb <= MAX_DB
    ensures MIN_DB <= AskedAt(r, m) <= MAX_DB
    ensures Finishes(r, m) ==> AskedAt(r, m) == r.targetDb
    ensures !Finishes(r, m) && r.targetDb > RAMP_START_DB ==> AskedAt(r, m) < r.targetDb
  {
    var elapsed := ElapsedSeconds(m.us, r.startUs);
    RampClimbs(r.targetDb, elapsed, elapsed, r.seconds);
    if elapsed < r.seconds && r.targetDb > RAMP_START_DB {
      PartClimbs(r.targetDb - RAMP_START_DB, elapsed, elapsed, r.seconds);
    }
  }

  lemma UninterruptedPrefix(r: Ramp, db: real, events: seq<Event>)
    requires events != [] && Uninterrupted(r, db, events)
    ensures Uninterrupted(r, db, events[..|events| - 1])
  {
    var before := events[..|events| - 1];
    forall i: nat
      ensures !InterruptedAt(r, db, before, i)
    {
      assert i < |before| ==> before[..i] == events[..i];
      assert !InterruptedAt(r, db, events, i);
    }
  }

  /** A spared event leaves the ramp to its own steps and the gain to the user's. */
  lemma SparedStep(c: Clock, table: seq<AlarmEntry>, offset: nat, e: Event)
    requires Spares(FadeIn, c, table, offset, e)
    ensures var after := Step(c, table, offset, e);
            (c.ramp.None? || !e.RampStep? ==> after.ramp == c.ramp && after.masterDb == VolumeAfter(c.masterDb, e))
  {
  }

  /** Short of its end, and as long as no step finds the gain far off, the fade-in goes on. */
  lemma {:induction false} FadeInGoesOn(c: Clock, table: seq<AlarmEntry>, offset: nat, events: seq<Event>, r: Ramp)
    requires c.ramp == Some(r) && MIN_DB <= r.targetDb <= MAX_DB && SparesAll(FadeIn, c, table, offset, events)
    requires Unfinished(r, events) && Uninterrupted(r, c.masterDb, events)
    ensures Run(c, table, offset, events).ramp == Some(r.(lastDb := Asked(r, events)))
    ensures Run(c, table, offset, events).masterDb == Standing(r, c.masterDb, events)
  {
    if events != [] {
      var n := |events| - 1;
      SparesPrefix(FadeIn, c, table, offset, events);
      UninterruptedPrefix(r, c.masterDb, events);
      FadeInGoesOn(c, table, offset, events[..n], r);
      assert !InterruptedAt(r, c.masterDb, events, n);
      if events[n].RampStep? {
        AskedIsInRange(r, events[n].m);
      } else {
        SparedStep(Run(c, table, offset, events[..n]), table, offset, events[n]);
      }
    }
  }

  lemma UserVolumeGrows(db: real, events: seq<Event>, i: nat)
    requires i < |events|
    ensures UserVolume(db, events[i..])
            == VolumeAfter(UserVolume(db, events[..|events| - 1][i..]), events[|events| - 1])
  {
    assert events[i..][..|events| - 1 - i] == events[..|events| - 1][i..];
  }

  /** Step `i` is the first to find the gain far off, and the fade-in has not ended before. */
  ghost predicate FirstFarOff(r: Ramp, db: real, events: seq<Event>, i: nat) {
    InterruptedAt(r, db, events, i) && Uninterrupted(r, db, events[..i]) && Unfinished(r, events[..i])
  }

  lemma FirstFarOffPrefix(r: Ramp, db: real, events: seq<Event>, i: nat)
    requires FirstFarOff(r, db, events, i) && i < |events| - 1
    ensures FirstFarOff(r, db, events[..|events| - 1], i)
    ensures Standing(r, db, events[..|events| - 1][..i]) == Standing(r, db, events[..i])
  {
    assert events[..|events| - 1][..i] == events[..i];
  }

  lemma DroppedAtOnce(c: Clock, table: seq<AlarmEntry>, offset: nat, events: seq<Event>, r: Ramp)
    requires c.ramp == Some(r) && MIN_DB <= r.targetDb <= MAX_DB && SparesAll(FadeIn, c, table, offset, events)
    requires events != [] && FirstFarOff(r, c.masterDb, events, |events| - 1)
    ensures Run(c, table, offset, events).ramp.None?
    ensures Run(c, table, offset, events).masterDb
            == VolumeAfter(Standing(r, c.masterDb, events[..|events| - 1]), events[|events| - 1])
  {
    SparesPrefix(FadeIn, c, table, offset, events);
    FadeInGoesOn(c, table, offset, events[..|events| - 1], r);
  }

  /** Once a step has found the gain far off, it is the user's for the rest of the run. */
  lemma {:induction false} FadeInIsDropped(c: Clock, table: seq<AlarmEntry>, offset: nat, events: seq<Event>, r: Ramp,
                                           i: nat)
    requires c.ramp == Some(r) && MIN_DB <= r.targetDb <= MAX_DB && SparesAll(FadeIn, c, table, offset, events)
    requires FirstFarOff(r, c.masterDb, events, i)
    ensures Run(c, table, offset, events).ramp.None?
    ensures Run(c, table, offset, events).masterDb == UserVolume(Standing(r, c.masterDb, events[..i]), events[i..])
  {
    var n := |events| - 1;
    var before := events[..n];
    UserVolumeGrows(Standing(r, c.masterDb, events[..i]), events, i);
    if i == n {
      DroppedAtOnce(c, table, offset, events, r);
      assert before[i..] == [];
    } else {
      SparesPrefix(FadeIn, c, table, offset, events);
      FirstFarOffPrefix(r, c.masterDb, events, i);
      FadeInIsDropped(c, table, offset, before, r, i);
      SparedStep(Run(c, table, offset, before), table, offset, events[n]);
    }
  }

  /** The run ends with the step that brings the fade-in to its end, if nothing has before. */
  predicate EndsFadeIn(r: Ramp, events: seq<Event>) {
    && events != [] && events[|events| - 1].RampStep? && Finishes(r, events[|events| - 1].m)
    && Unfinished(r, events[..|events| - 1])
  }

  /**
   * The gain a fade-in ends on, whatever gain it starts from, whichever gain writes fail and
   * whatever the user does: its target or, with the last write refused, the gain as it stood; and if
   * some step found the gain far off, the gain as it stood there or what the user has set since.
   */
  lemma FadeInEndsOn(c: Clock, table: seq<AlarmEntry>, offset: nat, events: seq<Event>, r: Ramp)
    returns (dropped: Option<nat>)
    requires c.ramp == Some(r) && MIN_DB <= r.targetDb <= MAX_DB && SparesAll(FadeIn, c, table, offset, events)
    requires EndsFadeIn(r, events)
    ensures Run(c, table, offset, events).ramp.None?
    ensures dropped.None? <==> Uninterrupted(r, c.masterDb, events)
    ensures dropped.None? ==> Run(c, table, offset, events).masterDb == Standing(r, c.masterDb, events)
    ensures dropped.Some? ==>
              && FirstFarOff(r, c.masterDb, events, dropped.value)
              && Run(c, table, offset, events).masterDb
                 == UserVolume(Standing(r, c.masterDb, events[..dropped.value]), events[dropped.value..])
  {
    dropped := FirstDrop(r, c.masterDb, events);
    if dropped.None? {
      FadeInComesThrough(c, table, offset, events, r);
    } else {
      FadeInIsDropped(c, table, offset, events, r, dropped.value);
    }
  }

  lemma FirstDrop(r: Ramp, db: real, events: seq<Event>) returns (dropped: Option<nat>)
    requires EndsFadeIn(r, events)
    ensures dropped.None? <==> Uninterrupted(r, db, events)
    ensures dropped.Some? ==> FirstFarOff(r, db, events, dropped.value)
  {
    dropped := None;
    if !Uninterrupted(r, db, events) {
      var i := FirstInterrupted(r, db, events);
      assert events[..|events| - 1][..i] == events[..i];
      dropped := Some(i);
    }
  }

  lemma FadeInComesThrough(c: Clock, table: seq<AlarmEntry>, offset: nat, events: seq<Event>, r: Ramp)
    requires c.ramp == Some(r) && MIN_DB <= r.targetDb <= MAX_DB && SparesAll(FadeIn, c, table, offset, events)
    requires EndsFadeIn(r, events) && Uninterrupted(r, c.masterDb, events)
    ensures Run(c, table, offset, events).ramp.None?
    ensures Run(c, table, offset, events).masterDb == Standing(r, c.masterDb, events)
  {
    var n := |events| - 1;
    SparesPrefix(FadeIn, c, table, offset, events);
    UninterruptedPrefix(r, c.masterDb, events);
    FadeInGoesOn(c, table, offset, events[..n], r);
    assert !InterruptedAt(r, c.masterDb, events, n);
    AskedIsInRange(r, events[n].m);
  }

  lemma FirstInterrupted(r: Ramp, db: real, events: seq<Event>) returns (i: nat)
    requires !Uninterrupted(r, db, events)
    ensures InterruptedAt(r, db, events, i) && Uninterrupted(r, db, events[..i])
  {
    i :| InterruptedAt(r, db, events, i);
    while !Uninterrupted(r, db, events[..i])
      invariant InterruptedAt(r, db, events, i)
      decreases i
    {
      var k: nat :| InterruptedAt(r, db, events[..i], k);
      assert events[..i][..k] == events[..k];
      i := k;
    }
  }

  lemma {:induction false} StandsBelow(r: Ramp, db: real, events: seq<Event>)
    requires MIN_DB <= r.targetDb <= MAX_DB && r.targetDb > RAMP_START_DB && db != r.targetDb
    requires Unfinished(r, events) && VolumesAre(events, AllBut(r.targetDb))
    ensures Standing(r, db, events) != r.targetDb
  {
    if events != [] {
      var n := |events| - 1;
      StandsBelow(r, db, events[..n]);
      assert VolumeIs(events[n], AllBut(r.targetDb));
      if events[n].RampStep? {
        AskedIsInRange(r, events[n].m);
      }
    }
  }

  lemma {:induction false} UserVolumeIsNot(db: real, events: seq<Event>, targetDb: real)
    requires db != targetDb && VolumesAre(events, AllBut(targetDb))
    ensures UserVolume(db, events) != targetDb
  {
    if events != [] {
      UserVolumeIsNot(db, events[..|events| - 1], targetDb);
      assert VolumeIs(events[|events| - 1], AllBut(targetDb));
    }
  }

  /**
   * From any gain but its target, and unless the user happens to set just that, a fade-in ends on
   * its target exactly when its last write is taken and no step finds the gain standing further than
   * `USER_MOVE_DB` from the one last asked for.
   */
  lemma FadeInArrivesIff(c: Clock, table: seq<AlarmEntry>, offset: nat, events: seq<Event>, r: Ramp)
    requires c.ramp == Some(r) && MIN_DB <= r.targetDb <= MAX_DB && SparesAll(FadeIn, c, table, offset, events)
    requires r.targetDb > RAMP_START_DB && c.masterDb != r.targetDb && EndsFadeIn(r, events)
    requires VolumesAre(events, AllBut(r.targetDb))
    ensures Run(c, table, offset, events).masterDb == r.targetDb
            <==> events[|events| - 1].m.replies.gain && Uninterrupted(r, c.masterDb, events)
  {
    var dropped := FadeInEndsOn(c, table, offset, events, r);
    if dropped.None? {
      StandsOnTargetIff(r, c.masterDb, events);
    } else {
      var i := dropped.value;
      StandsBelow(r, c.masterDb, events[..i]);
      UserVolumeIsNot(Standing(r, c.masterDb, events[..i]), events[i..], r.targetDb);
    }
  }

  lemma StandsOnTargetIff(r: Ramp, db: real, events: seq<Event>)
    requires MIN_DB <= r.targetDb <= MAX_DB && r.targetDb > RAMP_START_DB && db != r.targetDb
    requires EndsFadeIn(r, events) && VolumesAre(events, AllBut(r.targetDb))
    ensures Standing(r, db, events) == r.targetDb <==> events[|events| - 1].m.replies.gain
  {
    var n := |events| - 1;
    AskedIsInRange(r, events[n].m);
    StandsBelow(r, db, events[..n]);
    assert VolumeIs(events[n], AllBut(r.targetDb));
  }

  // ---- One refused write ----------------------------------------------------

  /** Step `k` is the only one whose gain write is refused. */
  predicate OnlyRefused(events: seq<Event>, k: nat) {
    && k < |events| && events[k].RampStep? && !events[k].m.replies.gain
    && forall i: nat :: i < |events| && i != k && events[i].RampStep? ==> events[i].m.replies.gain
  }

  /** With all writes taken the gain stands where it was last asked to. */
  lemma {:induction false} StandsAsAsked(r: Ramp, events: seq<Event>)
    requires GainsTaken(events) && VolumesAre(events, Never())
    ensures Standing(r, r.lastDb, events) == Asked(r, events)
  {
    if events != [] {
      StandsAsAsked(r, events[..|events| - 1]);
      assert VolumeIs(events[|events| - 1], Never());
    }
  }

  predicate SteppedSince(events: seq<Event>, k: nat) {
    exists i: nat :: k < i < |events| && events[i].RampStep?
  }

  /** After the refused write the gain lags behind until the next step. */
  lemma {:induction false} LagsOneStep(r: Ramp, events: seq<Event>, k: nat)
    requires OnlyRefused(events, k) && VolumesAre(events, Never())
    ensures if SteppedSince(events, k) then Standing(r, r.lastDb, events) == Asked(r, events)
            else Asked(r, events) == AskedAt(r, events[k].m)
                 && Standing(r, r.lastDb, events) == Standing(r, r.lastDb, events[..k])
  {
    var n := |events| - 1;
    assert VolumeIs(events[n], Never());
    if k < n {
      var before := events[..n];
      LagsOneStep(r, before, k);
      assert before[..k] == events[..k];
      if i: nat :| k < i < |before| && before[i].RampStep? {
        assert events[i].RampStep?;
      }
      assert SteppedSince(events, k) <==> SteppedSince(before, k) || events[n].RampStep?;
    }
  }

  /**
   * In a fade-in the user leaves alone, one refused gain write keeps it from its target exactly when
   * it is the last one, or a step of more than `USER_MOVE_DB`, which the next step takes for the user.
   */
  lemma OneRefusedWrite(c: Clock, table: seq<AlarmEntry>, offset: nat, events: seq<Event>, r: Ramp, k: nat)
    requires c.ramp == Some(r) && MIN_DB <= r.targetDb <= MAX_DB && SparesAll(FadeIn, c, table, offset, events)
    requires r.targetDb > RAMP_START_DB && c.masterDb == r.lastDb != r.targetDb && EndsFadeIn(r, events)
    requires VolumesAre(events, Never()) && OnlyRefused(events, k)
    ensures Run(c, table, offset, events).masterDb == r.targetDb
            <==> k < |events| - 1 && !UserMoved(Asked(r, events[..k]), AskedAt(r, events[k].m))
  {
    NeverIsAllBut(events, r.targetDb);
    FadeInArrivesIff(c, table, offset, events, r);
    if k < |events| - 1 {
      assert SteppedSince(events, k);
      InterruptedAfterLag(r, events, k);
    }
  }

  /** Two refused writes in a row, each of less than `USER_MOVE_DB` and neither the last, end a fade-in at its start. */
  lemma TwoSmallRefusals(c: Clock, table: seq<AlarmEntry>, offset: nat, taken: Replies, refused: Replies)
    requires c.ramp == Some(Ramp(0, 100, -5.0, RAMP_START_DB)) && c.masterDb == RAMP_START_DB
    requires taken.gain && !refused.gain
    ensures var events := [RampStep(Moment(1000000, refused), None), RampStep(Moment(2000000, refused), None),
                           RampStep(Moment(3000000, taken), None)];
            var after := Run(c, table, offset, events);
            after.ramp.None? && after.masterDb == RAMP_START_DB
  {
    var a, b := RampStep(Moment(1000000, refused), None), RampStep(Moment(2000000, refused), None);
    var events := [a, b, RampStep(Moment(3000000, taken), None)];
    assert events[..2] == [a, b];
    RunOfTwo(c, table, offset, a, b);
    assert AlarmRampDb(-5.0, 1, 100) == -44.6 && AlarmRampDb(-5.0, 2, 100) == -44.2;
    assert Run(c, table, offset, [a, b]).ramp == Some(Ramp(0, 100, -5.0, -44.2));
  }

  lemma NeverIsAllBut(events: seq<Event>, targetDb: real)
    requires VolumesAre(events, Never())
    ensures VolumesAre(events, AllBut(targetDb))
  {
    forall i: nat | i < |events|
      ensures VolumeIs(events[i], AllBut(targetDb))
    {
      assert VolumeIs(events[i], Never());
    }
  }

  lemma InterruptedAfterLag(r: Ramp, events: seq<Event>, k: nat)
    requires OnlyRefused(events, k) && VolumesAre(events, Never()) && SteppedSince(events, k)
    ensures Uninterrupted(r, r.lastDb, events) <==> !UserMoved(Asked(r, events[..k]), AskedAt(r, events[k].m))
  {
    StandsAsAsked(r, events[..k]);
    forall i: nat
      ensures InterruptedAt(r, r.lastDb, events, i)
              <==> k < i < |events| && events[i].RampStep? && !SteppedSince(events[..i], k)
                   && UserMoved(Asked(r, events[..k]), AskedAt(r, events[k].m))
    {
      if i < |events| && events[i].RampStep? {
        if i <= k {
          StandsAsAsked(r, events[..i]);
        } else {
          LagsOneStep(r, events[..i], k);
          assert events[..i][..k] == events[..k];
        }
      }
    }
    var i := NextStep(events, k);
    assert UserMoved(Asked(r, events[..k]), AskedAt(r, events[k].m)) ==> InterruptedAt(r, r.lastDb, events, i);
  }

  lemma NextStep(events: seq<Event>, k: nat) returns (i: nat)
    requires SteppedSince(events, k)
    ensures k < i < |events| && events[i].RampStep? && !SteppedSince(events[..i], k)
  {
    i := k + 1;
    while !events[i].RampStep?
      invariant k < i < |events| && !SteppedSince(events[..i], k)
      invariant exists j: nat :: i <= j < |events| && events[j].RampStep?
      decreases |events| - i
    {
      i := i + 1;
    }
  }

  // ---- Deadlines ------------------------------------------------------------

  lemma RampKeepsDeadlines(c: Clock, m: Moment, volume: Option<real>)
    ensures var after := RampStepped(c, m, volume);
            after.power == c.power && after.sleepDeadlineUs == c.sleepDeadlineUs
            && after.alarmOffDeadlineUs == c.alarmOffDeadlineUs
            && after.lastCheckedMinute == c.lastCheckedMinute && after.log == c.log
  {
  }

  /** Off and nothing pending. */
  predicate Idle(c: Clock) {
    c.ramp.None? && c.sleepDeadlineUs == 0 && c.alarmOffDeadlineUs == 0
  }

  lemma ScheduleKeepsOff(c: Clock, table: seq<AlarmEntry>, offset: nat, m: Moment, r: Reads)
    requires Idle(c)
    requires NothingTurnedOn(table, ScheduleChecked(c, table, offset, m, r).log, |c.log|)
    ensures var after := ScheduleChecked(c, table, offset, m, r);
            && Idle(after) && (!c.webRadioOn ==> !after.webRadioOn)
            && (after.power == Standby <==> c.power == Standby || (|after.log| > |c.log| && m.replies.power))
  {
    QuietCheck(c, table, offset, m, r);
  }

  /**
   * A tick that finds a live deadline passed while the radio is on leaves no ramp and no deadline
   * and stops the web radio, and leaves the radio in standby exactly when one of the power writes
   * it asks for is taken; unless a row due in the same tick turns the radio on.
   */
  lemma DeadlineTickTurnsOff(c: Clock, table: seq<AlarmEntry>, offset: nat, tick: Tick)
    requires c.power == On && Expired(c, tick.deadline.us)
    requires NothingTurnedOn(table, TickedOnce(c, table, offset, tick).log, |c.log|)
    ensures var after := TickedOnce(c, table, offset, tick);
            && Idle(after)
            && (tick.deadline.replies.store ==> !after.webRadioOn)
            && (after.power == Standby <==>
                tick.deadline.replies.power || (|after.log| > |c.log| && tick.schedule.replies.power))
  {
    RampKeepsDeadlines(c, tick.ramp, tick.volume);
    var off := DeadlinesChecked(RampStepped(c, tick.ramp, tick.volume), tick.deadline);
    assert off == TurnedOff(RampStepped(c, tick.ramp, tick.volume), tick.deadline);
    ScheduleKeepsOff(off, table, offset, tick.schedule, tick.clock);
  }

  /**
   * Whatever volume the user sets, the sleep timer outlives everything but a new sleep request, a
   * check while off or past a deadline, and a row that turns the radio off; a duration outlives a
   * sleep request too, but no row.
   */
  lemma {:induction false} DeadlinesWait(matter: Matter, c: Clock, table: seq<AlarmEntry>, offset: nat,
                                         events: seq<Event>)
    requires matter != FadeIn && SparesAll(matter, c, table, offset, events)
    ensures var after := Run(c, table, offset, events);
            if matter == SleepTimer then after.sleepDeadlineUs == c.sleepDeadlineUs
            else after.alarmOffDeadlineUs == c.alarmOffDeadlineUs
  {
    if events != [] {
      SparesPrefix(matter, c, table, offset, events);
      DeadlinesWait(matter, c, table, offset, events[..|events| - 1]);
    }
  }

  /** Spared, the radio stays on unless the user switches it off. */
  lemma {:induction false} PowerStaysOn(matter: Matter, c: Clock, table: seq<AlarmEntry>, offset: nat,
                                        events: seq<Event>)
    requires c.power == On && SparesAll(matter, c, table, offset, events)
    requires forall i: nat :: i < |events| ==> events[i] != PowerSwitched(Standby)
    ensures Run(c, table, offset, events).power == On
  {
    if events != [] {
      SparesPrefix(matter, c, table, offset, events);
      PowerStaysOn(matter, c, table, offset, events[..|events| - 1]);
    }
  }

  /** Once off, the radio stays off until the user or a row turns it on, whatever else happens. */
  lemma {:induction false} OffStaysOff(c: Clock, table: seq<AlarmEntry>, offset: nat, events: seq<Event>)
    requires c.ramp.None? && c.power == Standby
    requires NothingTurnedOn(table, Run(c, table, offset, events).log, |c.log|)
    requires forall i: nat :: i < |events| ==> events[i] != PowerSwitched(On)
    ensures Run(c, table, offset, events).ramp.None? && Run(c, table, offset, events).power == Standby
  {
    if events != [] {
      var before := events[..|events| - 1];
      LogGrows(c, table, offset, before);
      NothingTurnedOnBefore(c, table, offset, events);
      OffStaysOff(c, table, offset, before);
      if events[|events| - 1].ScheduleCheck? {
        QuietCheck(Run(c, table, offset, before), table, offset, events[|events| - 1].m, events[|events| - 1].clock);
      }
    }
  }

  lemma ExpiredTurnsOff(c: Clock, m: Moment)
    requires c.power == On && Expired(c, m.us)
    ensures Idle(DeadlinesChecked(c, m)) && (DeadlinesChecked(c, m).power == Standby <==> m.replies.power)
  {
  }

  /**
   * A sleep timer over a whole run: whatever spares it in between, the first check at or past its
   * deadline that finds the radio on ends everything pending, and the radio is off exactly when the
   * power write is taken.
   */
  lemma SleepTimerTurnsOff(c: Clock, table: seq<AlarmEntry>, offset: nat, minutes: nat, us: nat,
                           waiting: seq<Event>, m: Moment)
    requires minutes > 0 && m.us >= us + minutes * 60 * US_PER_SECOND
    requires var armed := Step(c, table, offset, SleepSet(minutes, us));
             SparesAll(SleepTimer, armed, table, offset, waiting) && Run(armed, table, offset, waiting).power == On
    ensures var armed := Step(c, table, offset, SleepSet(minutes, us));
            var after := Run(armed, table, offset, waiting + [DeadlineCheck(m)]);
            Idle(after) && (after.power == Standby <==> m.replies.power)
  {
    var armed := Step(c, table, offset, SleepSet(minutes, us));
    DeadlinesWait(SleepTimer, armed, table, offset, waiting);
    RunOfOneMore(armed, table, offset, waiting, DeadlineCheck(m));
    ExpiredTurnsOff(Run(armed, table, offset, waiting), m);
  }

  // ---- What a check does ----------------------------------------------------

  /** The check goes ahead, and row `i` is the first that matches its local time. */
  ghost predicate ActsOn(c: Clock, table: seq<AlarmEntry>, offset: nat, r: Reads, i: nat) {
    var now := LocalAt(offset, r.localRead / 60);
    && r.localRead >= VALID_EPOCH && r.minuteRead / 60 != c.lastCheckedMinute
    && i < |table| && AlarmMatches(table[i], now) && forall j: nat :: j < i ==> !AlarmMatches(table[j], now)
  }

  ghost predicate NothingMatches(table: seq<AlarmEntry>, offset: nat, r: Reads) {
    forall j: nat :: j < |table| ==> !AlarmMatches(table[j], LocalAt(offset, r.localRead / 60))
  }

  lemma CheckActs(c: Clock, table: seq<AlarmEntry>, offset: nat, m: Moment, r: Reads, i: nat)
    requires ActsOn(c, table, offset, r, i)
    ensures Step(c, table, offset, ScheduleCheck(m, r)) == Acted(Noted(c, r, i), table[i], m)
  {
    FirstIsDue(table, LocalAt(offset, r.localRead / 60), i);
  }

  /**
   * A check whose row turns the radio on starts the row's source at the foot of its ramp, switches
   * on, wakes the speaker and arms the row's duration, each as far as its service agrees.
   */
  lemma CheckTurnsOn(c: Clock, table: seq<AlarmEntry>, offset: nat, m: Moment, r: Reads, i: nat)
    requires ActsOn(c, table, offset, r, i) && table[i].action == TurnOn && MIN_DB <= table[i].volumeDb <= MAX_DB
    ensures var on := Step(c, table, offset, ScheduleCheck(m, r));
            var e := table[i];
            var startDb := if e.volumeDb <= -45.0 || e.fadeInSeconds == 0 then e.volumeDb else -45.0;
            && on.ramp == Some(Ramp(m.us, e.fadeInSeconds, e.volumeDb, startDb))
            && on.masterDb == (if m.replies.gain then startDb
                               else if e.source == Preset && m.replies.tuned && m.replies.presetDb.Some?
                               then m.replies.presetDb.value else c.masterDb)
            && on.power == (if m.replies.power then On else c.power)
            && on.webRadioOn == (if m.replies.store then e.source == WebRadio else c.webRadioOn)
            && on.url == (if e.source == WebRadio && m.replies.store then e.url else c.url)
            && on.preset == (if e.source == Preset && m.replies.tuned then e.preset else c.preset)
            && on.linked == (c.linked || (m.replies.linkSeen && m.replies.relinks))
            && on.alarmOffDeadlineUs == (if e.durationMinutes == 0 then 0
                                         else m.us + e.durationMinutes * 60 * 1000000)
            && on.sleepDeadlineUs == c.sleepDeadlineUs
            && on.lastCheckedMinute == r.minuteRead / 60 && on.log == c.log + [Action(r.localRead / 60, i)]
  {
    var e := table[i];
    CheckActs(c, table, offset, m, r, i);
    RampFoot(e.volumeDb, e.fadeInSeconds);
    SourceAndGain(Noted(c, r, i), e, m.replies, AlarmRampDb(e.volumeDb, 0, e.fadeInSeconds));
  }

  lemma SourceAndGain(c: Clock, e: AlarmEntry, r: Replies, db: real)
    requires MIN_DB <= db <= MAX_DB
    ensures var started := WithMaster(SourceStarted(c, e, r), db, r);
            started == c.(masterDb := if r.gain then db
                                      else if e.source == Preset && r.tuned && r.presetDb.Some? then r.presetDb.value
                                      else c.masterDb,
                          webRadioOn := if r.store then e.source == WebRadio else c.webRadioOn,
                          url := if e.source == WebRadio && r.store then e.url else c.url,
                          preset := if e.source == Preset && r.tuned then e.preset else c.preset)
  {
  }

  lemma RampFoot(targetDb: real, seconds: nat)
    ensures AlarmRampDb(targetDb, 0, seconds) == if targetDb <= -45.0 || seconds == 0 then targetDb else -45.0
  {
    if targetDb > RAMP_START_DB && seconds > 0 {
      PartOf(targetDb - RAMP_START_DB, 0, seconds);
    }
  }

  /** A check whose row turns the radio off ends all that is pending, and leaves volume and stations alone. */
  lemma CheckTurnsOff(c: Clock, table: seq<AlarmEntry>, offset: nat, m: Moment, r: Reads, i: nat)
    requires ActsOn(c, table, offset, r, i) && table[i].action == TurnOff
    ensures Step(c, table, offset, ScheduleCheck(m, r))
            == Noted(c, r, i).(ramp := None, sleepDeadlineUs := 0, alarmOffDeadlineUs := 0,
                               power := if m.replies.power then Standby else c.power,
                               webRadioOn := c.webRadioOn && !m.replies.store)
  {
    CheckActs(c, table, offset, m, r, i);
  }

  /** Any other check does nothing: before the clock is set, in a minute already checked, or with no row that matches. */
  lemma CheckPasses(c: Clock, table: seq<AlarmEntry>, offset: nat, m: Moment, r: Reads)
    requires r.localRead < VALID_EPOCH || r.minuteRead / 60 == c.lastCheckedMinute || NothingMatches(table, offset, r)
    ensures Step(c, table, offset, ScheduleCheck(m, r))
            == if r.localRead < VALID_EPOCH then c else c.(lastCheckedMinute := r.minuteRead / 60)
  {
  }

  // ---- A wake-up from end to end --------------------------------------------

  /** The radio just woken by row `i`. */
  ghost predicate Woken(on: Clock, c: Clock, table: seq<AlarmEntry>, offset: nat, m: Moment, r: Reads, i: nat) {
    && ActsOn(c, table, offset, r, i) && table[i].action == TurnOn && MIN_DB <= table[i].volumeDb <= MAX_DB
    && on == Step(c, table, offset, ScheduleCheck(m, r))
  }

  /**
   * From the check on, with every gain write taken and the volume left alone, the gain climbs to the
   * row's volume, step by step and never down.
   */
  lemma WakeUpReachesVolume(c: Clock, table: seq<AlarmEntry>, offset: nat, m: Moment, r: Reads, i: nat, on: Clock,
                            events: seq<Event>)
    requires Woken(on, c, table, offset, m, r, i) && m.replies.gain
    requires events != [] && SparesAll(FadeIn, on, table, offset, events) && Paced(events, m.us)
    requires GainsTaken(events) && VolumesAre(events, Never())
    ensures var e := table[i];
            var last := LastRampStep(events);
            var after := Run(on, table, offset, events);
            && Run(on, table, offset, events[..|events| - 1]).masterDb <= after.masterDb <= e.volumeDb
            && (last.Some? && last.value >= m.us + e.fadeInSeconds * 1000000
                ==> after.masterDb == e.volumeDb && after.ramp.None?)
  {
    CheckTurnsOn(c, table, offset, m, r, i);
    RampFoot(table[i].volumeDb, table[i].fadeInSeconds);
    RampRunClimbs(on, table, offset, events, m.us, table[i].fadeInSeconds, table[i].volumeDb);
  }

  /**
   * Whichever gain writes fail, that of the turn-on among them, and whatever the user does: from the
   * check on, a fade-in ends on the row's volume exactly when the last write is taken and no step
   * finds the gain standing further than `USER_MOVE_DB` from the one last asked for.
   */
  lemma WakeUpArrivesIff(c: Clock, table: seq<AlarmEntry>, offset: nat, m: Moment, r: Reads, i: nat, on: Clock,
                         events: seq<Event>)
    requires Woken(on, c, table, offset, m, r, i) && table[i].volumeDb > RAMP_START_DB && on.ramp.Some?
    requires SparesAll(FadeIn, on, table, offset, events) && EndsFadeIn(on.ramp.value, events)
    requires on.masterDb != table[i].volumeDb && VolumesAre(events, AllBut(table[i].volumeDb))
    ensures Run(on, table, offset, events).masterDb == table[i].volumeDb
            <==> events[|events| - 1].m.replies.gain && Uninterrupted(on.ramp.value, on.masterDb, events)
  {
    CheckTurnsOn(c, table, offset, m, r, i);
    FadeInArrivesIff(on, table, offset, events, on.ramp.value);
  }

  /** A turn-on whose own gain write fails leaves the old volume, when that is far off: there is no fade-in. */
  lemma FailedStartHasNoFadeIn(c: Clock, table: seq<AlarmEntry>, offset: nat, m: Moment, r: Reads, i: nat, on: Clock,
                               events: seq<Event>)
    requires Woken(on, c, table, offset, m, r, i) && !m.replies.gain && table[i].source == WebRadio
    requires UserMoved(c.masterDb, AlarmRampDb(table[i].volumeDb, 0, table[i].fadeInSeconds))
    requires events != [] && events[0].RampStep? && SparesAll(FadeIn, on, table, offset, events)
    ensures Run(on, table, offset, events).ramp.None?
    ensures Run(on, table, offset, events).masterDb == UserVolume(c.masterDb, events)
  {
    CheckTurnsOn(c, table, offset, m, r, i);
    RampFoot(table[i].volumeDb, table[i].fadeInSeconds);
    assert events[..0] == [] && events[0..] == events;
    assert FirstFarOff(on.ramp.value, on.masterDb, events, 0);
    FadeInIsDropped(on, table, offset, events, on.ramp.value, 0);
  }

  /**
   * A row with a duration, from the check on: whatever spares it in between, the first check at or
   * past its end that finds the radio on ends everything pending, and the radio is off exactly when
   * the power write is taken.
   */
  lemma DurationTurnsOff(c: Clock, table: seq<AlarmEntry>, offset: nat, m: Moment, r: Reads, i: nat, on: Clock,
                         waiting: seq<Event>, last: Moment)
    requires Woken(on, c, table, offset, m, r, i)
    requires table[i].durationMinutes > 0 && last.us >= m.us + table[i].durationMinutes * 60 * 1000000
    requires SparesAll(Duration, on, table, offset, waiting) && Run(on, table, offset, waiting).power == On
    ensures var after := Run(on, table, offset, waiting + [DeadlineCheck(last)]);
            Idle(after) && (after.power == Standby <==> last.replies.power)
  {
    CheckTurnsOn(c, table, offset, m, r, i);
    DeadlinesWait(Duration, on, table, offset, waiting);
    RunOfOneMore(on, table, offset, waiting, DeadlineCheck(last));
    ExpiredTurnsOff(Run(on, table, offset, waiting), last);
  }

  // ---- Timers to the microsecond --------------------------------------------

  /** No deadline but `until` is pending (none at all when it is 0), and no check comes at or past it. */
  ghost predicate Early(e: Event, table: seq<AlarmEntry>, offset: nat, until: nat) {
    match e
    case DeadlineCheck(m) => until == 0 || m.us < until
    case ScheduleCheck(_, r) => NothingMatches(table, offset, r)
    case SleepSet(_, _) => false
    case PowerSwitched(power) => power == On
    case _ => true
  }

  ghost predicate AllEarly(events: seq<Event>, table: seq<AlarmEntry>, offset: nat, until: nat) {
    forall i: nat :: i < |events| ==> Early(events[i], table, offset, until)
  }

  /** One timer runs, the sleep timer or the duration. */
  predicate OneTimer(c: Clock, until: nat) {
    && c.power == On
    && ((c.sleepDeadlineUs == until && c.alarmOffDeadlineUs == 0)
        || (c.sleepDeadlineUs == 0 && c.alarmOffDeadlineUs == until))
  }

  lemma EarlyKeepsTimer(c: Clock, table: seq<AlarmEntry>, offset: nat, e: Event, until: nat)
    requires OneTimer(c, until) && Early(e, table, offset, until)
    ensures OneTimer(Step(c, table, offset, e), until)
  {
    if e.ScheduleCheck? {
      CheckPasses(c, table, offset, e.m, e.clock);
    }
  }

  /** Until its time a timer leaves the radio on; the first check from then on is the one that turns it off. */
  lemma {:induction false} TimerIsExact(c: Clock, table: seq<AlarmEntry>, offset: nat, waiting: seq<Event>, m: Moment,
                                        until: nat)
    requires OneTimer(c, until) && AllEarly(waiting, table, offset, until)
    ensures OneTimer(Run(c, table, offset, waiting), until)
    ensures Run(c, table, offset, waiting + [DeadlineCheck(m)]).power == Standby
            <==> until != 0 && m.us >= until && m.replies.power
  {
    if waiting != [] {
      var n := |waiting| - 1;
      TimerIsExact(c, table, offset, waiting[..n], m, until);
      EarlyKeepsTimer(Run(c, table, offset, waiting[..n]), table, offset, waiting[n], until);
    }
    RunOfOneMore(c, table, offset, waiting, DeadlineCheck(m));
    OneTimerFires(Run(c, table, offset, waiting), m, until);
  }

  lemma OneTimerFires(c: Clock, m: Moment, until: nat)
    requires OneTimer(c, until)
    ensures DeadlinesChecked(c, m).power == Standby <==> until != 0 && m.us >= until && m.replies.power
  {
  }

  /** A sleep timer of so many minutes turns the radio off at the first check that many minutes on; one of none, never. */
  lemma SleepTimerIsExact(c: Clock, table: seq<AlarmEntry>, offset: nat, minutes: nat, us: nat, waiting: seq<Event>,
                          m: Moment)
    requires c.power == On && c.alarmOffDeadlineUs == 0
    requires AllEarly(waiting, table, offset, if minutes == 0 then 0 else us + minutes * 60 * 1000000)
    ensures Run(c, table, offset, [SleepSet(minutes, us)] + waiting).power == On
    ensures Run(c, table, offset, [SleepSet(minutes, us)] + waiting + [DeadlineCheck(m)]).power == Standby
            <==> minutes != 0 && m.us >= us + minutes * 60 * 1000000 && m.replies.power
  {
    var arm := SleepSet(minutes, us);
    var until := if minutes == 0 then 0 else us + minutes * 60 * 1000000;
    TimerIsExact(Step(c, table, offset, arm), table, offset, waiting, m, until);
    RunFromSecond(c, table, offset, arm, waiting);
    RunFromSecond(c, table, offset, arm, waiting + [DeadlineCheck(m)]);
    assert [arm] + waiting + [DeadlineCheck(m)] == [arm] + (waiting + [DeadlineCheck(m)]);
  }

  lemma {:induction false} RunFromSecond(c: Clock, table: seq<AlarmEntry>, offset: nat, first: Event, rest: seq<Event>)
    ensures Run(c, table, offset, [first] + rest) == Run(Step(c, table, offset, first), table, offset, rest)
  {
    if rest == [] {
      RunOfOneMore(c, table, offset, [], first);
      assert [first] + rest == [] + [first];
    } else {
      var n := |rest| - 1;
      RunFromSecond(c, table, offset, first, rest[..n]);
      assert ([first] + rest)[..n + 1] == [first] + rest[..n];
    }
  }

  /** So does a row's duration, from the check that turned the radio on. */
  lemma DurationIsExact(c: Clock, table: seq<AlarmEntry>, offset: nat, m: Moment, r: Reads, i: nat, on: Clock,
                        waiting: seq<Event>, last: Moment)
    requires Woken(on, c, table, offset, m, r, i) && m.replies.power && c.sleepDeadlineUs == 0
    requires AllEarly(waiting, table, offset, if table[i].durationMinutes == 0 then 0
                                              else m.us + table[i].durationMinutes * 60 * 1000000)
    ensures Run(on, table, offset, waiting).power == On
    ensures Run(on, table, offset, waiting + [DeadlineCheck(last)]).power == Standby
            <==> table[i].durationMinutes != 0 && last.us >= m.us + table[i].durationMinutes * 60 * 1000000
                 && last.replies.power
  {
    CheckTurnsOn(c, table, offset, m, r, i);
    TimerIsExact(on, table, offset, waiting, last, on.alarmOffDeadlineUs);
  }

  /** Switching off by hand, for a check long, forgets both timers and nothing else. */
  lemma StandbyForgets(c: Clock, table: seq<AlarmEntry>, offset: nat, off: Moment, on: Moment)
    ensures Run(c, table, offset, [PowerSwitched(Standby), DeadlineCheck(off)] + [PowerSwitched(On), DeadlineCheck(on)])
            == c.(power := On, sleepDeadlineUs := 0, alarmOffDeadlineUs := 0)
  {
    var a, b := [PowerSwitched(Standby), DeadlineCheck(off)], [PowerSwitched(On), DeadlineCheck(on)];
    RunOfTwo(c, table, offset, a[0], a[1]);
    RunOfOneMore(c, table, offset, a, b[0]);
    RunOfOneMore(c, table, offset, a + [b[0]], b[1]);
    assert a + [b[0]] + [b[1]] == a + b;
  }

  // ---- The gain stays in range ----------------------------------------------

  predicate GainInRange(db: real) {
    -96.0 <= db <= 12.0
  }

  /** What the user and the presets set is in range. */
  predicate SetsInRange(e: Event) {
    match e
    case VolumeMoved(db) => GainInRange(db)
    case RampStep(_, volume) => volume.Some? ==> GainInRange(volume.value)
    case ScheduleCheck(m, _) => m.replies.presetDb.Some? ==> GainInRange(m.replies.presetDb.value)
    case _ => true
  }

  /** Whatever volumes the rows ask for, the task itself never takes the gain out of range. */
  lemma {:induction false} GainStaysInRange(c: Clock, table: seq<AlarmEntry>, offset: nat, events: seq<Event>)
    requires GainInRange(c.masterDb) && forall i: nat :: i < |events| ==> SetsInRange(events[i])
    ensures GainInRange(Run(c, table, offset, events).masterDb)
  {
    if events != [] {
      var n := |events| - 1;
      GainStaysInRange(c, table, offset, events[..n]);
      StepStaysInRange(Run(c, table, offset, events[..n]), table, offset, events[n]);
    }
  }

  lemma StepStaysInRange(c: Clock, table: seq<AlarmEntry>, offset: nat, e: Event)
    requires GainInRange(c.masterDb) && SetsInRange(e)
    ensures GainInRange(Step(c, table, offset, e).masterDb)
  {
    if e.ScheduleCheck? {
      var due := Due(table, LocalAt(offset, e.clock.localRead / 60));
      if Checks(c.lastCheckedMinute, e.clock) && due.Some? {
        ActingStaysInRange(Noted(c, e.clock, due.value), table[due.value], e.m);
      }
    }
  }

  lemma ActingStaysInRange(c: Clock, due: AlarmEntry, m: Moment)
    requires GainInRange(c.masterDb) && (m.replies.presetDb.Some? ==> GainInRange(m.replies.presetDb.value))
    ensures GainInRange(Acted(c, due, m).masterDb)
  {
  }
}
