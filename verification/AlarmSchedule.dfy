/** Weekly alarm table: which row is due, and which row is next. */
module AlarmSchedule {
  import opened Base

  const MINUTES_PER_DAY := 1440
  const MINUTES_PER_WEEK := 10080

  datatype AlarmAction = TurnOn | TurnOff

  datatype AlarmSource = Preset | WebRadio

  datatype AlarmRow = AlarmRow(
    enabled: bool,
    action: AlarmAction,
    hour: nat,
    minute: nat,
    days: bv8,              // one bit a weekday, Monday's lowest
    source: AlarmSource,
    preset: nat,
    url: string,
    volumeDb: real,
    durationMinutes: nat,
    fadeInSeconds: nat)

  /** A row as the JSON parser lets it into the table. */
  type AlarmEntry = e: AlarmRow | e.hour < 24 && e.minute < 60
    witness AlarmRow(true, TurnOn, 7, 0, 0x7F, Preset, 0, "", -20.0, 0, 30)

  datatype WallTime = WallTime(weekday: nat, hour: nat, minute: nat)

  type LocalTime = t: WallTime | t.weekday < 7 && t.hour < 24 && t.minute < 60
    witness WallTime(0, 0, 0)

  datatype Upcoming = Upcoming(index: nat, minutes: nat)

  // ---- Calendar -------------------------------------------------------------

  /** The next minute of the week, carrying into hour, day and week. */
  function OneMinuteLater(t: LocalTime): LocalTime {
    if t.minute < 59 then t.(minute := t.minute + 1)
    else if t.hour < 23 then WallTime(t.weekday, t.hour + 1, 0)
    else WallTime((t.weekday + 1) % 7, 0, 0)
  }

  function Advance(t: LocalTime, m: nat): LocalTime {
    if m == 0 then t else OneMinuteLater(Advance(t, m - 1))
  }

  function MinuteOfDay(t: LocalTime): (m: nat)
    ensures m < MINUTES_PER_DAY
  {
    t.hour * 60 + t.minute
  }

  lemma DayRolls(total: nat)
    ensures total % MINUTES_PER_DAY == MINUTES_PER_DAY - 1
            ==> (total + 1) % MINUTES_PER_DAY == 0 && (total + 1) / MINUTES_PER_DAY == total / MINUTES_PER_DAY + 1
    ensures total % MINUTES_PER_DAY != MINUTES_PER_DAY - 1
            ==> (total + 1) % MINUTES_PER_DAY == total % MINUTES_PER_DAY + 1
                && (total + 1) / MINUTES_PER_DAY == total / MINUTES_PER_DAY
  {
  }

  lemma WeekdayRolls(days: nat)
    ensures (days % 7 + 1) % 7 == (days + 1) % 7
  {
  }

  /** Minute `r` of day `q` becomes minute `r2` of day `q2`; days count from a `weekday`. */
  lemma OneMinuteRolls(t: LocalTime, weekday: nat, q: nat, r: nat, q2: nat, r2: nat)
    requires MinuteOfDay(t) == r && t.weekday == (weekday + q) % 7
    requires if r == MINUTES_PER_DAY - 1 then q2 == q + 1 && r2 == 0 else q2 == q && r2 == r + 1
    ensures MinuteOfDay(OneMinuteLater(t)) == r2 && OneMinuteLater(t).weekday == (weekday + q2) % 7
  {
    WeekdayRolls(weekday + q);
  }

  /** `t` is minute `total` of a count that starts with a day on `weekday`. */
  predicate IsMinute(t: LocalTime, weekday: nat, total: nat) {
    MinuteOfDay(t) == total % MINUTES_PER_DAY && t.weekday == (weekday + total / MINUTES_PER_DAY) % 7
  }

  lemma NextMinute(t: LocalTime, weekday: nat, total: nat)
    requires IsMinute(t, weekday, total)
    ensures IsMinute(OneMinuteLater(t), weekday, total + 1)
  {
    DayRolls(total);
    OneMinuteRolls(t, weekday, total / MINUTES_PER_DAY, total % MINUTES_PER_DAY,
                   (total + 1) / MINUTES_PER_DAY, (total + 1) % MINUTES_PER_DAY);
  }

  lemma FirstMinute(t: LocalTime)
    ensures IsMinute(t, t.weekday, MinuteOfDay(t))
  {
  }

  /** The carried clock in closed form. */
  lemma {:induction false} AdvanceClosed(t: LocalTime, m: nat)
    ensures IsMinute(Advance(t, m), t.weekday, MinuteOfDay(t) + m)
  {
    if m == 0 {
      FirstMinute(t);
    } else {
      AdvanceClosed(t, m - 1);
      NextMinute(Advance(t, m - 1), t.weekday, MinuteOfDay(t) + m - 1);
    }
  }

  lemma {:induction false} AdvanceAdds(t: LocalTime, a: nat, b: nat)
    ensures Advance(Advance(t, a), b) == Advance(t, a + b)
  {
    if b > 0 {
      AdvanceAdds(t, a, b - 1);
    }
  }

  // ---- One row --------------------------------------------------------------

  predicate FiresOnDay(e: AlarmEntry, weekday: nat)
    requires weekday < 7
  {
    e.days & (1 << weekday) != 0
  }

  predicate AlarmMatches(e: AlarmEntry, now: LocalTime) {
    e.enabled && e.hour == now.hour && e.minute == now.minute && FiresOnDay(e, now.weekday)
  }

  /** `r` is the first minute from `now` at which the row fires, over all time to come. */
  ghost predicate IsFirstFiring(e: AlarmEntry, now: LocalTime, r: Option<nat>) {
    match r
    case None => forall k: nat :: !AlarmMatches(e, Advance(now, k))
    case Some(m) =>
      && AlarmMatches(e, Advance(now, m))
      && forall k: nat :: k < m ==> !AlarmMatches(e, Advance(now, k))
  }

  /** The weekday mask is empty exactly when no weekday fires. */
  lemma EmptyMask(e: AlarmEntry)
    ensures e.days & 0x7F == 0 <==> forall d: nat :: d < 7 ==> !FiresOnDay(e, d)
  {
    var days := e.days;
    assert days & 0x7F == 0 <==>
           days & 1 == 0 && days & 2 == 0 && days & 4 == 0 && days & 8 == 0
           && days & 16 == 0 && days & 32 == 0 && days & 64 == 0;
    assert FiresOnDay(e, 0) <==> days & 1 != 0;
    assert FiresOnDay(e, 1) <==> days & 2 != 0;
    assert FiresOnDay(e, 2) <==> days & 4 != 0;
    assert FiresOnDay(e, 3) <==> days & 8 != 0;
    assert FiresOnDay(e, 4) <==> days & 16 != 0;
    assert FiresOnDay(e, 5) <==> days & 32 != 0;
    assert FiresOnDay(e, 6) <==> days & 64 != 0;
  }

  /** The mask a table of weekdays, Monday first, is sent as. */
  function MaskOf(days: seq<bool>): bv8
    requires |days| == 7
  {
    (if days[0] then 1 else 0) | (if days[1] then 2 else 0) | (if days[2] then 4 else 0) | (if days[3] then 8 else 0)
    | (if days[4] then 16 else 0) | (if days[5] then 32 else 0) | (if days[6] then 64 else 0)
  }

  /** A row matches exactly at its own time on the weekdays of its mask. */
  lemma MatchesOnItsDays(e: AlarmEntry, days: seq<bool>, now: LocalTime)
    requires |days| == 7 && e.days & 0x7F == MaskOf(days)
    ensures AlarmMatches(e, now) <==>
              e.enabled && now.hour == e.hour && now.minute == e.minute && days[now.weekday]
  {
    BitsOfMask(e.days, days);
    assert e.days & (1 << now.weekday) != 0 <==> days[now.weekday];
  }

  lemma BitsOfMask(mask: bv8, days: seq<bool>)
    requires |days| == 7 && mask & 0x7F == MaskOf(days)
    ensures forall d: nat :: d < 7 ==> (mask & (1 << d) != 0 <==> days[d])
  {
    assert mask & 1 != 0 <==> days[0];
    assert mask & 2 != 0 <==> days[1];
    assert mask & 4 != 0 <==> days[2];
    assert mask & 8 != 0 <==> days[3];
    assert mask & 16 != 0 <==> days[4];
    assert mask & 32 != 0 <==> days[5];
    assert mask & 64 != 0 <==> days[6];
    forall d: nat | d < 7
      ensures mask & (1 << d) != 0 <==> days[d]
    {
      ShiftedBit(mask, d);
    }
  }

  lemma ShiftedBit(mask: bv8, d: nat)
    requires d < 7
    ensures mask & (1 << d) == mask & [1, 2, 4, 8, 16, 32, 64][d]
  {
    var one: bv8 := 1;
    assert one << 0 == 1 && one << 1 == 2 && one << 2 == 4 && one << 3 == 8
           && one << 4 == 16 && one << 5 == 32 && one << 6 == 64;
  }

  /** And every mask is that of some weekdays. */
  lemma EveryMaskIsDays(mask: bv8) returns (days: seq<bool>)
    ensures |days| == 7 && MaskOf(days) == mask & 0x7F
  {
    days := [mask & 1 != 0, mask & 2 != 0, mask & 4 != 0, mask & 8 != 0, mask & 16 != 0, mask & 32 != 0, mask & 64 != 0];
  }

  function DayAhead(now: LocalTime, days: nat): (weekday: nat)
    ensures weekday < 7
  {
    (now.weekday + days) % 7
  }

  /** A firing `k` minutes ahead falls on a firing day at the row's own time. */
  lemma MatchesAhead(e: AlarmEntry, now: LocalTime, k: nat)
    ensures AlarmMatches(e, Advance(now, k)) <==>
            var total := MinuteOfDay(now) + k;
            && e.enabled
            && total % MINUTES_PER_DAY == e.hour * 60 + e.minute
            && FiresOnDay(e, DayAhead(now, total / MINUTES_PER_DAY))
  {
    AdvanceClosed(now, k);
  }

  /** No firing day among the next `ahead`, except today when the row's time has passed. */
  ghost predicate NoneWithin(e: AlarmEntry, now: LocalTime, ahead: nat) {
    forall a: nat :: a < ahead && FiresOnDay(e, DayAhead(now, a))
                     ==> a * MINUTES_PER_DAY + e.hour * 60 + e.minute < MinuteOfDay(now)
  }

  lemma SameWeekday(weekday: nat, days: nat)
    ensures (weekday + days % 7) % 7 == (weekday + days) % 7
  {
    SameRemainder(weekday + days % 7, days / 7);
  }

  lemma SameRemainder(x: nat, weeks: nat)
    ensures (x + 7 * weeks) % 7 == x % 7
  {
    assert x + 7 * weeks == 7 * (x / 7 + weeks) + x % 7;
  }

  /** A firing before `ahead` whole days have passed was seen on one of those days. */
  lemma NoEarlierMatch(e: AlarmEntry, now: LocalTime, ahead: nat, k: nat)
    requires NoneWithin(e, now, ahead)
    requires MinuteOfDay(now) + k < ahead * MINUTES_PER_DAY + e.hour * 60 + e.minute
    ensures !AlarmMatches(e, Advance(now, k))
  {
    MatchesAhead(e, now, k);
    var total := MinuteOfDay(now) + k;
    var a := total / MINUTES_PER_DAY;
    assert total == a * MINUTES_PER_DAY + total % MINUTES_PER_DAY;
    if a < ahead && FiresOnDay(e, DayAhead(now, a)) {
      assert a * MINUTES_PER_DAY + e.hour * 60 + e.minute < MinuteOfDay(now);
    }
  }

  lemma FirstFiringAt(e: AlarmEntry, now: LocalTime, ahead: nat)
    requires e.enabled && ahead <= 7 && FiresOnDay(e, DayAhead(now, ahead))
    requires ahead * MINUTES_PER_DAY + e.hour * 60 + e.minute >= MinuteOfDay(now)
    requires NoneWithin(e, now, ahead)
    ensures var m := ahead * MINUTES_PER_DAY + e.hour * 60 + e.minute - MinuteOfDay(now);
            m < MINUTES_PER_WEEK && IsFirstFiring(e, now, Some(m))
  {
    var m := ahead * MINUTES_PER_DAY + e.hour * 60 + e.minute - MinuteOfDay(now);
    var total := MinuteOfDay(now) + m;
    assert total / MINUTES_PER_DAY == ahead && total % MINUTES_PER_DAY == e.hour * 60 + e.minute;
    MatchesAhead(e, now, m);
    forall k: nat | k < m
      ensures !AlarmMatches(e, Advance(now, k))
    {
      NoEarlierMatch(e, now, ahead, k);
    }
    if ahead == 7 {
      assert DayAhead(now, 0) == DayAhead(now, 7);
      assert FiresOnDay(e, DayAhead(now, 0));
    }
  }

  lemma NeverWhenOff(e: AlarmEntry, now: LocalTime)
    requires !e.enabled || e.days & 0x7F == 0
    ensures IsFirstFiring(e, now, None)
  {
    EmptyMask(e);
  }

  /** Eight days hold every weekday, today's only once its time has passed. */
  lemma SomeDayFires(e: AlarmEntry, now: LocalTime)
    requires e.days & 0x7F != 0
    ensures !NoneWithin(e, now, 8)
  {
    EmptyMask(e);
    var d: nat :| d < 7 && FiresOnDay(e, d);
    var ahead := if d > now.weekday then d - now.weekday else d + 7 - now.weekday;
    assert DayAhead(now, ahead) == d;
  }

  method MinutesUntil(e: AlarmEntry, now: LocalTime) returns (r: Option<nat>)
    ensures IsFirstFiring(e, now, r)
    ensures r.None? <==> !e.enabled || e.days & 0x7F == 0
    ensures r.Some? ==> r.value < MINUTES_PER_WEEK
  {
    if !e.enabled || e.days & 0x7F == 0 {
      NeverWhenOff(e, now);
      return None;
    }
    var nowMin := now.hour * 60 + now.minute;
    var atMin := e.hour * 60 + e.minute;
    var ahead := 0;
    while ahead <= 7
      invariant ahead <= 8
      invariant NoneWithin(e, now, ahead)
    {
      var day := DayAhead(now, ahead);
      var when := ahead * MINUTES_PER_DAY + atMin;
      if when >= nowMin && FiresOnDay(e, day) {
        FirstFiringAt(e, now, ahead);
        return Some(when - nowMin);
      }
      ahead := ahead + 1;
    }
    SomeDayFires(e, now);
    assert false;  // so the loop always returns
  }

  // ---- The table ------------------------------------------------------------

  /** The row that acts at minute `now`: the first that matches. */
  ghost function Due(table: seq<AlarmEntry>, now: LocalTime): (r: Option<nat>)
    ensures r.None? ==> forall i: nat :: i < |table| ==> !AlarmMatches(table[i], now)
    ensures r.Some? ==> r.value < |table| && AlarmMatches(table[r.value], now)
                        && forall i: nat :: i < r.value ==> !AlarmMatches(table[i], now)
  {
    if |table| == 0 then None
    else match Due(table[..|table| - 1], now)
      case Some(i) => Some(i)
      case None => if AlarmMatches(table[|table| - 1], now) then Some(|table| - 1) else None
  }

  lemma FirstIsDue(table: seq<AlarmEntry>, now: LocalTime, i: nat)
    requires i < |table| && AlarmMatches(table[i], now) && forall j: nat :: j < i ==> !AlarmMatches(table[j], now)
    ensures Due(table, now) == Some(i)
  {
  }

  method DueAlarm(table: seq<AlarmEntry>, now: LocalTime) returns (r: Option<nat>)
    ensures r == Due(table, now)
  {
    var i := 0;
    while i < |table|
      invariant i <= |table|
      invariant forall j: nat :: j < i ==> !AlarmMatches(table[j], now)
    {
      if AlarmMatches(table[i], now) {
        return Some(i);
      }
      i := i + 1;
    }
    return None;
  }

  /** `r` names the first minute from `now` at which any row is due, and that row. */
  ghost predicate IsSoonest(table: seq<AlarmEntry>, now: LocalTime, r: Option<Upcoming>) {
    match r
    case None => forall k: nat :: Due(table, Advance(now, k)) == None
    case Some(next) =>
      && Due(table, Advance(now, next.minutes)) == Some(next.index)
      && forall k: nat :: k < next.minutes ==> Due(table, Advance(now, k)) == None
  }

  /** What scanning the rows one by one keeps: `best` is the soonest of the rows seen. */
  lemma SoonestOfOneMore(table: seq<AlarmEntry>, i: nat, now: LocalTime,
                         best: Option<Upcoming>, minutes: Option<nat>)
    requires i < |table|
    requires IsSoonest(table[..i], now, best)
    requires IsFirstFiring(table[i], now, minutes)
    ensures IsSoonest(table[..i + 1], now,
                      if minutes.Some? && (best.None? || minutes.value < best.value.minutes)
                      then Some(Upcoming(i, minutes.value)) else best)
  {
    assert table[..i + 1][..i] == table[..i];
    assert forall k: nat :: Due(table[..i + 1], Advance(now, k)) ==
                            match Due(table[..i], Advance(now, k))
                            case Some(j) => Some(j)
                            case None => if AlarmMatches(table[i], Advance(now, k)) then Some(i) else None;
  }

  method NextAlarm(table: seq<AlarmEntry>, now: LocalTime) returns (best: Option<Upcoming>)
    ensures IsSoonest(table, now, best)
    ensures best.Some? ==> best.value.index < |table| && best.value.minutes < MINUTES_PER_WEEK
  {
    best := None;
    var i := 0;
    while i < |table|
      invariant i <= |table|
      invariant IsSoonest(table[..i], now, best)
      invariant best.Some? ==> best.value.index < i && best.value.minutes < MINUTES_PER_WEEK
    {
      var minutes := MinutesUntil(table[i], now);
      SoonestOfOneMore(table, i, now, best, minutes);
      if minutes.Some? && (best.None? || minutes.value < best.value.minutes) {
        best := Some(Upcoming(i, minutes.value));
      }
      i := i + 1;
    }
    assert table[..i] == table;
  }

  /** There is one answer: the specification of `NextAlarm` is a function. */
  lemma SoonestIsUnique(table: seq<AlarmEntry>, now: LocalTime, a: Option<Upcoming>, b: Option<Upcoming>)
    requires IsSoonest(table, now, a) && IsSoonest(table, now, b)
    ensures a == b
  {
  }

  /** Zero minutes away means due now, with the same row, and nothing else does. */
  lemma SoonestNowIsDue(table: seq<AlarmEntry>, now: LocalTime, next: Option<Upcoming>)
    requires IsSoonest(table, now, next)
    ensures forall i: nat :: next == Some(Upcoming(i, 0)) <==> Due(table, now) == Some(i)
  {
    assert Advance(now, 0) == now;
  }

  /** A minute later the same row is one minute nearer. */
  lemma SoonestCountsDown(table: seq<AlarmEntry>, now: LocalTime, next: Option<Upcoming>)
    requires IsSoonest(table, now, next)
    requires next.Some? ==> next.value.minutes > 0
    ensures IsSoonest(table, OneMinuteLater(now),
                      if next.None? then None
                      else Some(Upcoming(next.value.index, next.value.minutes - 1)))
  {
    var later := OneMinuteLater(now);
    assert Advance(now, 1) == later by {
      assert Advance(now, 0) == now;
    }
    forall k: nat
      ensures Advance(later, k) == Advance(now, k + 1)
    {
      AdvanceAdds(now, 1, k);
    }
  }
}
