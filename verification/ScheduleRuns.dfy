/** Whole runs of the once-a-second schedule check against the calendar. */
module ScheduleRuns {
  import opened Base
  import opened AlarmSchedule

  /** The first second a clock that has been set can show. */
  const VALID_EPOCH := 1704067200

  /** What one check reads: `std::time` is called twice, for the minute and for the local time. */
  datatype Reads = Reads(minuteRead: nat, localRead: nat)

  /** A row acted on, and the minute since the epoch whose local time selected it. */
  datatype Action = Action(minute: nat, index: nat)

  // ---- Local time -----------------------------------------------------------

  /** `struct tm` counts weekdays from Sunday, the table from Monday. */
  function WeekdayFromTm(tmWday: nat): (weekday: nat)
    requires tmWday < 7
    ensures weekday < 7 && tmWday == (weekday + 1) % 7
  {
    (tmWday + 6) % 7
  }

  /** Local time of a minute since the epoch (a Thursday) at a fixed offset. */
  function LocalAt(offset: nat, minute: nat): LocalTime {
    var day := (minute + offset) / MINUTES_PER_DAY;
    var clock := (minute + offset) % MINUTES_PER_DAY;
    WallTime(WeekdayFromTm((4 + day) % 7), clock / 60, clock % 60)
  }

  lemma LocalAtFields(offset: nat, minute: nat)
    ensures IsMinute(LocalAt(offset, minute), 3, minute + offset)
  {
    TmWeekday((minute + offset) / MINUTES_PER_DAY);
  }

  lemma TmWeekday(day: nat)
    ensures WeekdayFromTm((4 + day) % 7) == (3 + day) % 7
  {
    SameWeekday(6, 4 + day);
    SameRemainder(3 + day, 1);
  }

  lemma SameMinute(a: LocalTime, b: LocalTime, weekday: nat, total: nat)
    requires IsMinute(a, weekday, total) && IsMinute(b, weekday, total)
    ensures a == b
  {
  }

  /** Without an offset the epoch is Thursday midnight, and the clock runs from there. */
  lemma EpochIsThursday(minute: nat)
    ensures LocalAt(0, 0) == WallTime(3, 0, 0) && LocalAt(0, minute) == Advance(WallTime(3, 0, 0), minute)
  {
    LocalAtAdvances(0, 0, minute);
  }

  /** An offset is so many minutes more. */
  lemma OffsetAdds(offset: nat, minute: nat)
    ensures LocalAt(offset, minute) == LocalAt(0, minute + offset)
  {
  }

  lemma NextLocalMinute(offset: nat, minute: nat)
    ensures LocalAt(offset, minute + 1) == OneMinuteLater(LocalAt(offset, minute))
  {
    LocalAtFields(offset, minute);
    LocalAtFields(offset, minute + 1);
    NextMinute(LocalAt(offset, minute), 3, minute + offset);
    SameMinute(LocalAt(offset, minute + 1), OneMinuteLater(LocalAt(offset, minute)), 3, minute + 1 + offset);
  }

  /** The wall clock is the carried clock. */
  lemma {:induction false} LocalAtAdvances(offset: nat, minute: nat, k: nat)
    ensures LocalAt(offset, minute + k) == Advance(LocalAt(offset, minute), k)
  {
    if k > 0 {
      LocalAtAdvances(offset, minute, k - 1);
      NextLocalMinute(offset, minute + k - 1);
    }
  }

  // ---- The schedule check over a run ---------------------------------------

  predicate Valid(r: Reads) {
    r.localRead >= VALID_EPOCH
  }

  /** The check goes ahead: the clock is set and this minute was not checked yet. */
  predicate Checks(last: nat, r: Reads) {
    Valid(r) && r.minuteRead / 60 != last
  }

  ghost function ActionAt(table: seq<AlarmEntry>, offset: nat, r: Reads): (actions: seq<Action>) {
    match Due(table, LocalAt(offset, r.localRead / 60))
    case Some(i) => [Action(r.localRead / 60, i)]
    case None => []
  }

  /** `gLastCheckedMinute` after the reads of a run. */
  function LastAfter(run: seq<Reads>): nat {
    if run == [] then 0
    else
      var before := LastAfter(run[..|run| - 1]);
      if Checks(before, run[|run| - 1]) then run[|run| - 1].minuteRead / 60 else before
  }

  ghost function ActionLog(table: seq<AlarmEntry>, offset: nat, run: seq<Reads>): seq<Action> {
    if run == [] then []
    else
      var before := run[..|run| - 1];
      ActionLog(table, offset, before)
      + if Checks(LastAfter(before), run[|run| - 1])
        then ActionAt(table, offset, run[|run| - 1]) else []
  }

  /** The actions a log holds for one minute, in order. */
  function ActionsIn(log: seq<Action>, minute: nat): seq<nat> {
    if log == [] then []
    else ActionsIn(log[..|log| - 1], minute)
         + if log[|log| - 1].minute == minute then [log[|log| - 1].index] else []
  }

  lemma {:induction false} ActionsInAppend(log: seq<Action>, more: seq<Action>, minute: nat)
    requires |more| <= 1
    ensures ActionsIn(log + more, minute) == ActionsIn(log, minute) + ActionsIn(more, minute)
  {
    if more == [] {
      assert log + more == log;
    } else {
      assert (log + more)[..|log + more| - 1] == log;
      assert more[..0] == [];
    }
  }

  /** A clock that never runs backwards, and is not first set between the two reads of one check. */
  ghost predicate Clocked(run: seq<Reads>) {
    && (forall i: nat :: i < |run| ==>
          && run[i].minuteRead <= run[i].localRead
          && (Valid(run[i]) ==> run[i].minuteRead >= VALID_EPOCH))
    && (forall i: nat, j: nat :: i < j < |run| ==> run[i].localRead <= run[j].minuteRead)
  }

  /** Some check of this run reads its minute before a minute boundary and its local time after. */
  ghost predicate Straddles(run: seq<Reads>) {
    exists n: nat :: StraddlesAt(run, n)
  }

  ghost predicate StraddlesAt(run: seq<Reads>, n: nat) {
    n < |run| && Checks(LastAfter(run[..n]), run[n]) && run[n].minuteRead / 60 != run[n].localRead / 60
  }

  ghost predicate Visited(run: seq<Reads>, minute: nat) {
    exists n: nat :: n < |run| && Valid(run[n]) && run[n].minuteRead / 60 == minute
  }

  /** The rows due at one minute: the first that matches, or none. */
  ghost function DueRows(table: seq<AlarmEntry>, offset: nat, minute: nat): seq<nat> {
    match Due(table, LocalAt(offset, minute))
    case Some(i) => [i]
    case None => []
  }

  /** What the table asks for: in each visited minute the first matching row, once, and nothing else. */
  ghost function Wanted(table: seq<AlarmEntry>, offset: nat, run: seq<Reads>, minute: nat): seq<nat> {
    if Visited(run, minute) then DueRows(table, offset, minute) else []
  }

  ghost predicate ActsAsWanted(table: seq<AlarmEntry>, offset: nat, run: seq<Reads>) {
    forall minute: nat :: ActionsIn(ActionLog(table, offset, run), minute) == Wanted(table, offset, run, minute)
  }

  /** `gLastCheckedMinute` is the minute of the latest valid read. */
  lemma {:induction false} LastIsLatest(run: seq<Reads>)
    requires Clocked(run)
    ensures |run| > 0 && Valid(run[|run| - 1]) ==> LastAfter(run) == run[|run| - 1].minuteRead / 60
    ensures (forall n: nat :: n < |run| ==> !Valid(run[n])) ==> LastAfter(run) == 0
  {
    if run != [] {
      LastIsLatest(run[..|run| - 1]);
    }
  }

  /** A minute already checked is never checked again, and no later than the last one. */
  lemma CheckedMinuteIsNew(run: seq<Reads>, n: nat, m: nat)
    requires Clocked(run) && m < n < |run| && Valid(run[m])
    requires Checks(LastAfter(run[..n]), run[n])
    ensures run[m].minuteRead / 60 < run[n].minuteRead / 60
  {
  }

  /** With no straddled minute every visited minute gets exactly its action. */
  lemma {:induction false} ActsWhenNotStraddled(table: seq<AlarmEntry>, offset: nat, run: seq<Reads>)
    requires Clocked(run) && !Straddles(run)
    ensures ActsAsWanted(table, offset, run)
  {
    if run != [] {
      var n := |run| - 1;
      var before := run[..n];
      forall k: nat
        ensures !StraddlesAt(before, k)
      {
        assert k < n ==> before[..k] == run[..k];
        assert !StraddlesAt(run, k);
      }
      ActsWhenNotStraddled(table, offset, before);
      assert !StraddlesAt(run, n);
      forall minute: nat
        ensures ActionsIn(ActionLog(table, offset, run), minute) == Wanted(table, offset, run, minute)
      {
        OneMoreCheck(table, offset, run, minute);
      }
    }
  }

  lemma OneMoreCheck(table: seq<AlarmEntry>, offset: nat, run: seq<Reads>, minute: nat)
    requires Clocked(run) && |run| > 0 && !StraddlesAt(run, |run| - 1)
    requires ActionsIn(ActionLog(table, offset, run[..|run| - 1]), minute)
             == Wanted(table, offset, run[..|run| - 1], minute)
    ensures ActionsIn(ActionLog(table, offset, run), minute) == Wanted(table, offset, run, minute)
  {
    OneMoreLogged(table, offset, run, minute);
    OneMoreWanted(table, offset, run, minute);
  }

  /** One more check adds to a minute's actions only what its local time selects. */
  lemma OneMoreLogged(table: seq<AlarmEntry>, offset: nat, run: seq<Reads>, minute: nat)
    requires |run| > 0
    ensures var last := run[|run| - 1];
            var before := run[..|run| - 1];
            ActionsIn(ActionLog(table, offset, run), minute)
            == ActionsIn(ActionLog(table, offset, before), minute)
               + if Checks(LastAfter(before), last) && last.localRead / 60 == minute
                 then DueRows(table, offset, minute) else []
  {
    var last := run[|run| - 1];
    var before := run[..|run| - 1];
    var more := if Checks(LastAfter(before), last) then ActionAt(table, offset, last) else [];
    ActionsInAppend(ActionLog(table, offset, before), more, minute);
    assert more != [] ==> more[..0] == [];
  }

  lemma OneMoreWanted(table: seq<AlarmEntry>, offset: nat, run: seq<Reads>, minute: nat)
    requires Clocked(run) && |run| > 0
    ensures var last := run[|run| - 1];
            var before := run[..|run| - 1];
            Wanted(table, offset, run, minute)
            == Wanted(table, offset, before, minute)
               + if Checks(LastAfter(before), last) && last.minuteRead / 60 == minute
                 then DueRows(table, offset, minute) else []
  {
    var n := |run| - 1;
    var before := run[..n];
    if Valid(run[n]) && run[n].minuteRead / 60 == minute {
      if LastAfter(before) == minute {
        VisitedBefore(run, minute);
      } else {
        forall m: nat | m < n && Valid(before[m])
          ensures before[m].minuteRead / 60 != minute
        {
          CheckedMinuteIsNew(run, n, m);
        }
        assert Visited(run, minute);
      }
    } else {
      VisitedSame(run, minute);
    }
  }

  lemma VisitedBefore(run: seq<Reads>, minute: nat)
    requires Clocked(run) && |run| > 0
    requires var last := run[|run| - 1];
             Valid(last) && last.minuteRead / 60 == minute && LastAfter(run[..|run| - 1]) == minute
    ensures Visited(run[..|run| - 1], minute) && Visited(run, minute)
  {
    var before := run[..|run| - 1];
    LastIsLatest(before);
    LastWasVisited(before);
    var n: nat :| n < |before| && Valid(before[n]) && before[n].minuteRead / 60 == minute;
    assert run[n] == before[n];
  }

  lemma {:induction false} LastWasVisited(run: seq<Reads>)
    ensures LastAfter(run) == 0 || Visited(run, LastAfter(run))
  {
    if run != [] {
      var before := run[..|run| - 1];
      LastWasVisited(before);
      if Checks(LastAfter(before), run[|run| - 1]) {
        assert run[|run| - 1].minuteRead / 60 == LastAfter(run);
      } else if LastAfter(before) != 0 {
        var n: nat :| n < |before| && Valid(before[n]) && before[n].minuteRead / 60 == LastAfter(before);
        assert run[n] == before[n];
      }
    }
  }

  lemma VisitedSame(run: seq<Reads>, minute: nat)
    requires |run| > 0
    requires !(Valid(run[|run| - 1]) && run[|run| - 1].minuteRead / 60 == minute)
    ensures Visited(run, minute) == Visited(run[..|run| - 1], minute)
  {
  }

  // ---- The exact condition --------------------------------------------------

  /** A table with one row, for one minute of the week. */
  function OnlyAt(t: LocalTime): (table: seq<AlarmEntry>) {
    [AlarmRow(true, TurnOff, t.hour, t.minute, 1 << t.weekday, Preset, 0, "", 0.0, 0, 0)]
  }

  lemma OnlyAtDue(t: LocalTime, now: LocalTime)
    ensures Due(OnlyAt(t), now) == if now == t then Some(0) else None
  {
  }

  lemma FirstStraddle(run: seq<Reads>) returns (n: nat)
    requires Straddles(run)
    ensures StraddlesAt(run, n) && forall k: nat :: k < n ==> !StraddlesAt(run, k)
  {
    n :| StraddlesAt(run, n);
    while exists k: nat :: k < n && StraddlesAt(run, k)
      invariant StraddlesAt(run, n)
      decreases n
    {
      var k: nat :| k < n && StraddlesAt(run, k);
      n := k;
    }
  }

  lemma OtherMinute(run: seq<Reads>, n: nat, m: nat)
    requires Clocked(run) && StraddlesAt(run, n) && m < |run| && Checks(LastAfter(run[..m]), run[m])
    requires forall i: nat :: i < n ==> !StraddlesAt(run, i)
    ensures run[m].localRead / 60 != run[n].minuteRead / 60
  {
    if m < n {
      assert !StraddlesAt(run, m);
      CheckedMinuteIsNew(run, n, m);
    } else {
      assert run[n].localRead <= run[m].localRead;
      LaterMinute(run[n].minuteRead, run[n].localRead, run[m].localRead);
    }
  }

  lemma LaterMinute(a: nat, b: nat, c: nat)
    requires a <= b <= c && a / 60 != b / 60
    ensures a / 60 < c / 60
  {
  }

  /** No check goes by the minute whose own check was the first to be spent on a later one. */
  lemma {:induction false} StraddledMinuteIsSkipped(run: seq<Reads>, n: nat, k: nat)
    requires Clocked(run) && StraddlesAt(run, n) && k <= |run|
    requires forall m: nat :: m < n ==> !StraddlesAt(run, m)
    ensures ChecksOf(run[..k], run[n].minuteRead / 60) == 0
  {
    if k > 0 {
      StraddledMinuteIsSkipped(run, n, k - 1);
      assert run[..k][..k - 1] == run[..k - 1];
      if Checks(LastAfter(run[..k - 1]), run[k - 1]) {
        OtherMinute(run, n, k - 1);
      }
    }
  }

  /** So no tick of the run acts in it. */
  lemma StraddledMinuteIsMissed(table: seq<AlarmEntry>, offset: nat, run: seq<Reads>, n: nat)
    requires Clocked(run) && StraddlesAt(run, n)
    requires forall m: nat :: m < n ==> !StraddlesAt(run, m)
    ensures ActionsIn(ActionLog(table, offset, run), run[n].minuteRead / 60) == []
  {
    StraddledMinuteIsSkipped(run, n, |run|);
    assert run[..|run|] == run;
    ActsOncePerCheck(table, offset, run, run[n].minuteRead / 60);
  }

  /** Straddled, some table is acted on wrongly. */
  lemma MissesWhenStraddled(offset: nat, run: seq<Reads>) returns (table: seq<AlarmEntry>)
    requires Clocked(run) && Straddles(run)
    ensures !ActsAsWanted(table, offset, run)
  {
    var n := FirstStraddle(run);
    var minute := run[n].minuteRead / 60;
    table := OnlyAt(LocalAt(offset, minute));
    StraddledMinuteIsMissed(table, offset, run, n);
    OnlyAtDue(LocalAt(offset, minute), LocalAt(offset, minute));
    assert Visited(run, minute);
  }

  /** The schedule is kept for every table exactly when no check straddles a minute boundary. */
  lemma ScheduleIsKeptIffNotStraddled(offset: nat, run: seq<Reads>)
    requires Clocked(run)
    ensures (forall table: seq<AlarmEntry> :: ActsAsWanted(table, offset, run)) <==> !Straddles(run)
  {
    if Straddles(run) {
      var table := MissesWhenStraddled(offset, run);
    } else {
      forall table: seq<AlarmEntry>
        ensures ActsAsWanted(table, offset, run)
      {
        ActsWhenNotStraddled(table, offset, run);
      }
    }
  }

  // ---- Table by table -------------------------------------------------------

  /** How many checks of the run go by the local time of this minute. */
  function ChecksOf(run: seq<Reads>, minute: nat): nat {
    if run == [] then 0
    else
      var before := run[..|run| - 1];
      ChecksOf(before, minute)
      + if Checks(LastAfter(before), run[|run| - 1]) && run[|run| - 1].localRead / 60 == minute then 1 else 0
  }

  function Repeated(rows: seq<nat>, times: nat): seq<nat> {
    if times == 0 then [] else Repeated(rows, times - 1) + rows
  }

  lemma {:induction false} RepeatedSize(rows: seq<nat>, times: nat)
    ensures |Repeated(rows, times)| == times * |rows|
  {
    if times > 0 {
      RepeatedSize(rows, times - 1);
    }
  }

  /** A minute's row acts once for each check that goes by its local time, straddled or not. */
  lemma {:induction false} ActsOncePerCheck(table: seq<AlarmEntry>, offset: nat, run: seq<Reads>, minute: nat)
    ensures ActionsIn(ActionLog(table, offset, run), minute)
            == Repeated(DueRows(table, offset, minute), ChecksOf(run, minute))
  {
    if run != [] {
      ActsOncePerCheck(table, offset, run[..|run| - 1], minute);
      OneMoreLogged(table, offset, run, minute);
      var acted := ActionsIn(ActionLog(table, offset, run[..|run| - 1]), minute);
      assert acted + [] == acted;
    }
  }

  /** Each minute with a row due is gone by once if some check read it, and not at all otherwise. */
  ghost predicate DueMinutesCheckedOnce(table: seq<AlarmEntry>, offset: nat, run: seq<Reads>) {
    forall minute: nat :: DueRows(table, offset, minute) != [] ==>
                            ChecksOf(run, minute) == if Visited(run, minute) then 1 else 0
  }

  lemma ActsRightlyIff(table: seq<AlarmEntry>, offset: nat, run: seq<Reads>, minute: nat)
    ensures ActionsIn(ActionLog(table, offset, run), minute) == Wanted(table, offset, run, minute)
            <==> (DueRows(table, offset, minute) != [] ==>
                    ChecksOf(run, minute) == if Visited(run, minute) then 1 else 0)
  {
    var rows, times := DueRows(table, offset, minute), ChecksOf(run, minute);
    ActsOncePerCheck(table, offset, run, minute);
    RepeatedSize(rows, times);
    assert |rows| <= 1;
    if times == 1 {
      assert Repeated(rows, 0) + rows == rows;
    }
  }

  /** One table is kept over a run exactly when its due minutes are gone by as they should. */
  lemma TableIsKeptIff(table: seq<AlarmEntry>, offset: nat, run: seq<Reads>)
    ensures ActsAsWanted(table, offset, run) <==> DueMinutesCheckedOnce(table, offset, run)
  {
    forall minute: nat
      ensures ActionsIn(ActionLog(table, offset, run), minute) == Wanted(table, offset, run, minute)
              <==> (DueRows(table, offset, minute) != [] ==>
                      ChecksOf(run, minute) == if Visited(run, minute) then 1 else 0)
    {
      ActsRightlyIff(table, offset, run, minute);
    }
  }

  /** The other half of a straddle: the later minute's row acts early, and again at its own check. */
  lemma StraddleActsTwice(offset: nat, first: Reads, second: Reads, minute: nat)
    requires Clocked([first, second]) && Valid(first) && StraddlesAt([first, second], 0)
    requires first.localRead / 60 == second.minuteRead / 60 == second.localRead / 60 == minute
    ensures ActionsIn(ActionLog(OnlyAt(LocalAt(offset, minute)), offset, [first, second]), minute) == [0, 0]
  {
    assert [first, second][..0] == [];
    BothCheck(first, second, minute);
    ActsOncePerCheck(OnlyAt(LocalAt(offset, minute)), offset, [first, second], minute);
    OnlyAtDue(LocalAt(offset, minute), LocalAt(offset, minute));
    assert Repeated([0], 0) == [] && Repeated([0], 1) == [0];
  }

  /** Such a run: one second before a minute ends, the second read a second later. */
  lemma StraddlingRun() returns (first: Reads, second: Reads)
    ensures Clocked([first, second]) && Valid(first) && StraddlesAt([first, second], 0)
    ensures first.localRead / 60 == second.minuteRead / 60 == second.localRead / 60
  {
    first, second := Reads(VALID_EPOCH + 59, VALID_EPOCH + 60), Reads(VALID_EPOCH + 61, VALID_EPOCH + 61);
    assert [first, second][..0] == [];
    assert Checks(LastAfter([]), first);
  }

  lemma BothCheck(first: Reads, second: Reads, minute: nat)
    requires Checks(0, first) && Valid(second) && first.minuteRead / 60 != minute
    requires first.localRead / 60 == second.minuteRead / 60 == second.localRead / 60 == minute
    ensures ChecksOf([first, second], minute) == 2
  {
    assert [first][..0] == [];
    assert LastAfter([first]) == first.minuteRead / 60 && ChecksOf([first], minute) == 1;
    assert [first, second][..1] == [first];
  }

  // ---- When the next action comes -------------------------------------------

  /** What the soonest row says about each minute up to its own. */
  lemma DueUntilNext(table: seq<AlarmEntry>, offset: nat, minute: nat, next: Upcoming, k: nat)
    requires IsSoonest(table, LocalAt(offset, minute), Some(next)) && k <= next.minutes
    ensures DueRows(table, offset, minute + k) == if k < next.minutes then [] else [next.index]
  {
    LocalAtAdvances(offset, minute, k);
    assert k < next.minutes ==> Due(table, Advance(LocalAt(offset, minute), k)) == None;
  }

  lemma QuietUntilNext(table: seq<AlarmEntry>, offset: nat, minute: nat, next: Upcoming)
    requires IsSoonest(table, LocalAt(offset, minute), Some(next))
    ensures DueRows(table, offset, minute + next.minutes) == [next.index]
    ensures forall later: nat :: minute <= later < minute + next.minutes ==> DueRows(table, offset, later) == []
  {
    DueUntilNext(table, offset, minute, next, next.minutes);
    forall later: nat | minute <= later < minute + next.minutes
      ensures DueRows(table, offset, later) == []
    {
      DueUntilNext(table, offset, minute, next, later - minute);
    }
  }

  /**
   * The next action comes when the status page says: with every minute checked, nothing happens
   * for `next.minutes` minutes and then exactly row `next.index` acts.
   */
  lemma NextActionIsOnTime(table: seq<AlarmEntry>, offset: nat, run: seq<Reads>, minute: nat, next: Upcoming)
    requires Clocked(run) && !Straddles(run)
    requires IsSoonest(table, LocalAt(offset, minute), Some(next))
    ensures forall later: nat :: minute <= later < minute + next.minutes
                                 ==> ActionsIn(ActionLog(table, offset, run), later) == []
    ensures Visited(run, minute + next.minutes)
            ==> ActionsIn(ActionLog(table, offset, run), minute + next.minutes) == [next.index]
  {
    ActsWhenNotStraddled(table, offset, run);
    QuietUntilNext(table, offset, minute, next);
  }
}
