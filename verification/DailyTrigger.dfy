/** `DailyTrigger::update` (src/sched/src/trigger.cpp): the search for the next day a task may run. */
module DailyTriggers {
  import opened CArithmetic
  import opened Calendar
  import opened DateTimes

  const DAY_TICKS: int := 864000000000

  /** Days counted from 15 October 1582, as tick counts count them. */
  function DayIndex(ticks: int): int {
    ticks / 864000000000
  }

  function CalendarDay(day: int): Date
    requires day >= 0
  {
    DateAfter(578101 + day)
  }

  function WeekdayOf(day: int): int {
    (578042 + day + 2) % 7
  }

  predicate Excluded(day: int, daysExcluded: seq<int>) {
    WeekdayOf(day) in daysExcluded
  }

  /** The first day from `start` on that is not excluded. */
  predicate IsFirstAllowed(day: int, start: int, daysExcluded: seq<int>) {
    && 0 <= start <= day && !Excluded(day, daysExcluded)
    && forall d :: start <= d < day ==> Excluded(d, daysExcluded)
  }

  predicate SomeDayAllowed(daysExcluded: seq<int>) {
    exists w :: 0 <= w < 7 && w !in daysExcluded
  }

  /** Of seven days in a row, one falls on each weekday. */
  lemma EveryWeekdayComes(start: int, w: int) returns (day: int)
    requires 0 <= w < 7
    ensures start <= day < start + 7 && WeekdayOf(day) == w
  {
    day := start + (w - WeekdayOf(start)) % 7;
  }

  /** When six days in a row are excluded and some weekday is not, the seventh day is allowed. */
  lemma SeventhDayAllowed(start: int, day: int, daysExcluded: seq<int>)
    requires SomeDayAllowed(daysExcluded) && start + 6 <= day
    requires forall d :: start <= d < day ==> Excluded(d, daysExcluded)
    ensures !Excluded(day, daysExcluded)
  {
    var w :| 0 <= w < 7 && w !in daysExcluded;
    var allowed := EveryWeekdayComes(start, w);
    assert !Excluded(allowed, daysExcluded);
  }

  /** The first allowed day is unique: the search result does not depend on the order of the exclusions. */
  lemma FirstAllowedIsUnique(a: int, b: int, start: int, daysExcluded: seq<int>)
    requires IsFirstAllowed(a, start, daysExcluded) && IsFirstAllowed(b, start, daysExcluded)
    ensures a == b
  {
  }

  lemma AllowedWeekday(day: int, start: int, daysExcluded: seq<int>)
    requires IsFirstAllowed(day, start, daysExcluded)
    ensures SomeDayAllowed(daysExcluded)
  {
    assert 0 <= WeekdayOf(day) < 7;
  }

  lemma DayAfterTicks(ticks: int)
    requires ticks >= 0
    ensures DayOfTicks(ticks) == CalendarDay(DayIndex(ticks))
    ensures WeekdayOfTicks(ticks) == WeekdayOf(DayIndex(ticks))
    ensures DayIndex(ticks + DAY_TICKS) == DayIndex(ticks) + 1
  {
    hide DateAfter;
    DivTwice(ticks, 10, 86400000000, 864000000000);
    DivUnique(ticks + DAY_TICKS, 864000000000, ticks / 864000000000 + 1, ticks % 864000000000);
  }

  // The search, with the weekdays the program sees

  /** The weekday of each day as `dayOfWeek` computes it at a time of day, given the error of the Julian day at every
      tick count. */
  function Seen(off: int -> real, rest: int): int -> int {
    (day: int) => WeekdayFrom(day * DAY_TICKS + rest, off(day * DAY_TICKS + rest))
  }

  /** One round over the exclusions: every one that is the day's weekday moves on to the next day. */
  function RoundFrom(seen: int -> int, day: int, daysExcluded: seq<int>): (next: int)
    ensures day <= next
    decreases |daysExcluded|
  {
    if daysExcluded == [] then day
    else RoundFrom(seen, if daysExcluded[0] == seen(day) then day + 1 else day, daysExcluded[1..])
  }

  function SearchFrom(seen: int -> int, day: int, daysExcluded: seq<int>, rounds: nat): (found: int)
    ensures day <= found
    decreases rounds
  {
    if rounds == 0 then day
    else
      var next := RoundFrom(seen, day, daysExcluded);
      if next == day then day else SearchFrom(seen, next, daysExcluded, rounds - 1)
  }

  lemma {:induction false} RoundPasses(seen: int -> int, day: int, daysExcluded: seq<int>, all: seq<int>)
    requires forall x :: x in daysExcluded ==> x in all
    ensures day <= RoundFrom(seen, day, daysExcluded) <= day + |daysExcluded|
    ensures forall d :: day <= d < RoundFrom(seen, day, daysExcluded) ==> seen(d) in all
    ensures RoundFrom(seen, day, daysExcluded) == day ==> seen(day) !in daysExcluded
    decreases |daysExcluded|
  {
    if daysExcluded != [] {
      RoundPasses(seen, if daysExcluded[0] == seen(day) then day + 1 else day, daysExcluded[1..], all);
      assert daysExcluded == [daysExcluded[0]] + daysExcluded[1..];
    }
  }

  lemma {:induction false} SearchPasses(seen: int -> int, day: int, daysExcluded: seq<int>, rounds: nat)
    ensures var found := SearchFrom(seen, day, daysExcluded, rounds);
            && day <= found <= day + rounds * |daysExcluded|
            && (forall d :: day <= d < found ==> seen(d) in daysExcluded)
            && (found < day + rounds ==> seen(found) !in daysExcluded)
    decreases rounds
  {
    RoundsAddUp(rounds, |daysExcluded|);
    if rounds > 0 {
      RoundPasses(seen, day, daysExcluded, daysExcluded);
      hide RoundFrom;
      var next := RoundFrom(seen, day, daysExcluded);
      if next != day {
        SearchPasses(seen, next, daysExcluded, rounds - 1);
        assert SearchFrom(seen, day, daysExcluded, rounds) == SearchFrom(seen, next, daysExcluded, rounds - 1);
      }
    }
  }

  lemma RoundsAddUp(rounds: nat, n: nat)
    ensures 0 <= rounds * n && (rounds > 0 ==> rounds * n == (rounds - 1) * n + n)
  {
    MulOrder(n, 0, rounds);
  }

  /** On the seven days from the start on, the program sees the right weekdays. */
  predicate SeesRight(seen: int -> int, start: int) {
    forall d :: start <= d < start + 7 ==> seen(d) == WeekdayOf(d)
  }

  /** Then six rounds find the first allowed day. */
  lemma SearchFindsFirst(seen: int -> int, start: int, daysExcluded: seq<int>)
    requires 0 <= start && SeesRight(seen, start) && SomeDayAllowed(daysExcluded)
    ensures IsFirstAllowed(SearchFrom(seen, start, daysExcluded, 6), start, daysExcluded)
  {
    hide WeekdayOf;
    SearchPasses(seen, start, daysExcluded, 6);
    var found := SearchFrom(seen, start, daysExcluded, 6);
    var w :| 0 <= w < 7 && w !in daysExcluded;
    var allowed := EveryWeekdayComes(start, w);
    assert found <= allowed;
    assert forall d :: start <= d < found ==> Excluded(d, daysExcluded);
    if found >= start + 6 {
      SeventhDayAllowed(start, found, daysExcluded);
    }
  }

  /** The weekdays of days in a row, in order. */
  function Weekdays(start: int, n: nat): (days: seq<int>)
    ensures |days| == n && forall i :: 0 <= i < n ==> days[i] == WeekdayOf(start + i)
  {
    seq(n, i requires 0 <= i < n => WeekdayOf(start + i))
  }

  lemma {:induction false} RoundOverRow(seen: int -> int, start: int, n: nat, more: seq<int>)
    requires forall d :: start <= d < start + n ==> seen(d) == WeekdayOf(d)
    ensures RoundFrom(seen, start, Weekdays(start, n) + more) == RoundFrom(seen, start + n, more)
    decreases n
  {
    hide WeekdayOf;
    var row := Weekdays(start, n) + more;
    if n == 0 {
      assert row == more;
    } else {
      assert row[0] == WeekdayOf(start) && row[1..] == Weekdays(start + 1, n - 1) + more;
      RoundOverRow(seen, start + 1, n - 1, more);
    }
  }

  lemma AllowedAfterRow(start: int, k: nat, wrong: int)
    requires k < 7 && wrong != WeekdayOf(start + k)
    ensures WeekdayOf(start + k) !in Weekdays(start, k) + [wrong] && 0 <= WeekdayOf(start + k) < 7
  {
    var row := Weekdays(start, k);
    forall i | 0 <= i < k ensures row[i] != WeekdayOf(start + k) {
      assert row[i] == WeekdayOf(start + i);
    }
  }

  lemma SearchesPast(seen: int -> int, start: int, k: nat)
    requires forall d :: start <= d < start + k ==> seen(d) == WeekdayOf(d)
    ensures SearchFrom(seen, start, Weekdays(start, k) + [seen(start + k)], 6) > start + k
  {
    hide WeekdayOf, Weekdays;
    var day, wrong := start + k, seen(start + k);
    var daysExcluded := Weekdays(start, k) + [wrong];
    RoundOverRow(seen, start, k, [wrong]);
    OneExcluded(seen, day, wrong);
    hide RoundFrom;
    SearchPasses(seen, day + 1, daysExcluded, 5);
    assert SearchFrom(seen, start, daysExcluded, 6) == SearchFrom(seen, day + 1, daysExcluded, 5);
  }

  lemma OneExcluded(seen: int -> int, day: int, weekday: int)
    requires seen(day) == weekday
    ensures RoundFrom(seen, day, [weekday]) == day + 1
  {
    assert RoundFrom(seen, day, [weekday]) == RoundFrom(seen, day + 1, []);
  }

  /** A weekday seen wrong for the first time leads past an allowed day, with some exclusions. */
  lemma WrongDayMissed(seen: int -> int, start: int, k: nat) returns (daysExcluded: seq<int>)
    requires 0 <= start && k < 7 && seen(start + k) != WeekdayOf(start + k)
    requires forall d :: start <= d < start + k ==> seen(d) == WeekdayOf(d)
    ensures SomeDayAllowed(daysExcluded)
    ensures !IsFirstAllowed(SearchFrom(seen, start, daysExcluded, 6), start, daysExcluded)
  {
    daysExcluded := Weekdays(start, k) + [seen(start + k)];
    SearchesPast(seen, start, k);
    AllowedAfterRow(start, k, seen(start + k));
    hide SearchFrom, WeekdayOf, Weekdays;
    assert !Excluded(start + k, daysExcluded);
  }

  /** Whatever is excluded, the search finds the first allowed day: that is so exactly if the program sees the right
      weekdays on the seven days from the start on. */
  lemma SearchIff(seen: int -> int, start: int)
    requires 0 <= start
    ensures (forall daysExcluded: seq<int> :: SomeDayAllowed(daysExcluded) ==>
               IsFirstAllowed(SearchFrom(seen, start, daysExcluded, 6), start, daysExcluded))
       <==> SeesRight(seen, start)
  {
    hide WeekdayOf, SearchFrom, IsFirstAllowed, SomeDayAllowed;
    if SeesRight(seen, start) {
      forall daysExcluded: seq<int> | SomeDayAllowed(daysExcluded)
        ensures IsFirstAllowed(SearchFrom(seen, start, daysExcluded, 6), start, daysExcluded)
      {
        SearchFindsFirst(seen, start, daysExcluded);
      }
    } else {
      var k := FirstWrong(seen, start);
      var daysExcluded := WrongDayMissed(seen, start, k);
    }
  }

  lemma FirstWrong(seen: int -> int, start: int) returns (k: nat)
    requires !SeesRight(seen, start)
    ensures k < 7 && seen(start + k) != WeekdayOf(start + k) && forall d :: start <= d < start + k ==> seen(d) == WeekdayOf(d)
  {
    hide WeekdayOf;
    k := 0;
    while seen(start + k) == WeekdayOf(start + k)
      invariant k < 7 && forall d :: start <= d < start + k ==> seen(d) == WeekdayOf(d)
      decreases 7 - k
    {
      k := k + 1;
    }
  }

  /** The error does not take a time of day over a midnight. */
  predicate StaysOn(off: int -> real, day: int, rest: int) {
    0.0 <= rest as real / 864000000000.0 + off(day * DAY_TICKS + rest) < 1.0
  }

  /** Which is a matter of the clock reading: at its time of day, no error takes one of the seven days over a
      midnight. */
  lemma SeesRightIff(off: int -> real, start: int, rest: int)
    requires 0 <= start && 0 <= rest < DAY_TICKS && forall ticks :: -1.0 < off(ticks) < 1.0
    ensures SeesRight(Seen(off, rest), start) <==> forall d :: start <= d < start + 7 ==> StaysOn(off, d, rest)
  {
    hide WeekdayOf, WeekdayFrom, StaysOn;
    forall d | start <= d < start + 7 ensures Seen(off, rest)(d) == WeekdayOf(d) <==> StaysOn(off, d, rest) {
      SeenRightIff(off, d, rest);
    }
  }

  lemma SeenRightIff(off: int -> real, d: int, rest: int)
    requires 0 <= d && 0 <= rest < DAY_TICKS && -1.0 < off(d * DAY_TICKS + rest) < 1.0
    ensures Seen(off, rest)(d) == WeekdayOf(d) <==> StaysOn(off, d, rest)
  {
    var ticks := d * DAY_TICKS + rest;
    DivUnique(ticks, 864000000000, d, rest);
    assert StaysInDay(ticks, off(ticks)) <==> StaysOn(off, d, rest);
    hide WeekdayOf, WeekdayFrom, WeekdayOfTicks, StaysInDay, StaysOn;
    WeekdayIff(ticks, off(ticks));
    DayAfterTicks(ticks);
  }

  lemma SeenAt(off: int -> real, ticks: int)
    ensures Seen(off, ticks % DAY_TICKS)(DayIndex(ticks)) == WeekdayFrom(ticks, off(ticks))
  {
    hide WeekdayFrom;
    TicksOfDay(ticks);
  }

  /** Room for every step the search can take before the end of year 9999. */
  predicate Schedulable(ticks: int, daysExcluded: seq<int>) {
    0 <= ticks && DayIndex(ticks) + 1 + 6 * |daysExcluded| < 3074017
  }

  lemma YearOfSchedule(day: int)
    requires 0 <= day < 3074017
    ensures IsDate(CalendarDay(day)) && 0 <= CalendarDay(day).year <= 9999
  {
    var d := DateAfter(578101 + day);
    DayNumberOfDateAfter(578101 + day);
    hide DateAfter;
    DayOfMarchYearNext(d);
    MarchYearBound(MarchYear(d), DayOfMarchYear(d));
  }

  lemma MarchYearBound(year: int, doy: int)
    requires doy >= 1 && doy + YearStart(year) < 578042 + 3074017
    ensures year <= 9998
  {
  }

  lemma TicksOfDay(ticks: int)
    ensures ticks == DayIndex(ticks) * DAY_TICKS + ticks % DAY_TICKS
    ensures (ticks + DAY_TICKS) % DAY_TICKS == ticks % DAY_TICKS
  {
    DivUnique(ticks + DAY_TICKS, 864000000000, ticks / 864000000000 + 1, ticks % 864000000000);
  }

  lemma StepFits(ticks: int)
    requires 0 <= ticks && DayIndex(ticks) < 3074017
    ensures ticks + 10 * 86400000000 < 0x8000_0000_0000_0000 && DayIndex(ticks) >= 0
  {
  }

  lemma TicksBound(ticks: int, daysExcluded: seq<int>)
    requires Schedulable(ticks, daysExcluded)
    ensures ticks + 10 * 86400000000 < 0x8000_0000_0000_0000 && DayIndex(ticks) >= 0
  {
  }

  class DailyTrigger {
    var createdAt: DateTime
    var scheduleAt: DateTime
    var timeOfDay: DateTime
    var daysExcluded: seq<int>

    constructor (createdAt: DateTime, scheduleAt: DateTime, timeOfDay: DateTime, daysExcluded: seq<int>)
      ensures this.createdAt == createdAt && this.scheduleAt == scheduleAt && this.timeOfDay == timeOfDay
      ensures this.daysExcluded == daysExcluded
    {
      this.createdAt, this.scheduleAt, this.timeOfDay, this.daysExcluded := createdAt, scheduleAt, timeOfDay, daysExcluded;
    }

    /** `update`. The two clock readings are parameters, `nowTicks` for `now` and `nextTicks` for `next`, and so is the
        error of the Julian day. The expired schedule of a trigger that is already running moves on from tomorrow, any
        other from today. The schedule moves to the day that six rounds come to; if the weekdays are seen
        right, that is the first allowed day, whatever the order and the duplicates of the exclusions, if any weekday
        is allowed at all. */
    method Update(nowTicks: int64, nextTicks: int64, off: int -> real)
      requires scheduleAt != timeOfDay
      requires Schedulable(nextTicks, daysExcluded) && timeOfDay.Time().IsTime()
      modifies scheduleAt
      ensures var expired := old(createdAt.utcTime != scheduleAt.utcTime) && nowTicks > old(scheduleAt.utcTime);
              var start := DayIndex(nextTicks) + (if expired then 1 else 0);
              var seen := Seen(off, nextTicks % DAY_TICKS);
              && scheduleAt.Time() == timeOfDay.Time() && 0 <= start
              && scheduleAt.Day() == CalendarDay(SearchFrom(seen, start, daysExcluded, 6))
              && (SeesRight(seen, start) ==>
                   (SomeDayAllowed(daysExcluded)
                    <==> exists day :: IsFirstAllowed(day, start, daysExcluded) && scheduleAt.Day() == CalendarDay(day)))
    {
      hide CalendarDay, DateAfter, IsDate, DayOfTicks, WeekdayOf, DayIndex, TimeOfDay.Micros, Ticks, SpanTime, Quotient,
           DateTime.IsOf, DateOfTicks, Seen, SearchFrom, SeesRight;
      var next := new DateTime.At(nextTicks);
      TicksBound(nextTicks, daysExcluded);
      DayAfterTicks(nextTicks);
      var initial := createdAt.utcTime == scheduleAt.utcTime;
      if !initial && nowTicks > scheduleAt.utcTime {
        next.Add(86400000000);
      }
      ghost var start, seen := DayIndex(next.utcTime), Seen(off, nextTicks % DAY_TICKS);
      Search(next, off);
      DayAfterTicks(next.utcTime);
      SearchPasses(seen, start, daysExcluded, 6);
      if SeesRight(seen, start) && SomeDayAllowed(daysExcluded) {
        SearchFindsFirst(seen, start, daysExcluded);
      }
      forall day | IsFirstAllowed(day, start, daysExcluded) ensures SomeDayAllowed(daysExcluded) {
        AllowedWeekday(day, start, daysExcluded);
      }
      YearOfSchedule(DayIndex(next.utcTime));
      scheduleAt.Assign(next.year, next.month, next.day, timeOfDay.hour, timeOfDay.minute, timeOfDay.second,
                        timeOfDay.millisecond, timeOfDay.microsecond);
    }

    /** The six-round loop of `update`. */
    method Search(next: DateTime, off: int -> real)
      requires 0 <= next.utcTime && DayIndex(next.utcTime) + 6 * |daysExcluded| < 3074017
      requires next.Day() == DayOfTicks(next.utcTime)
      modifies next
      ensures 0 <= next.utcTime && 0 <= DayIndex(next.utcTime) < 3074017 && next.Day() == DayOfTicks(next.utcTime)
      ensures next.utcTime % DAY_TICKS == old(next.utcTime) % DAY_TICKS
      ensures DayIndex(next.utcTime)
           == SearchFrom(Seen(off, old(next.utcTime) % DAY_TICKS), DayIndex(old(next.utcTime)), daysExcluded, 6)
    {
      hide DateAfter, DayOfTicks, WeekdayOf, DayIndex, TimeOfDay.Micros, Seen, RoundFrom;
      ghost var start, rest := DayIndex(next.utcTime), next.utcTime % DAY_TICKS;
      ghost var seen := Seen(off, rest);
      StepFits(next.utcTime);
      var match_ := false;
      var i := 0;
      while i < 6
        invariant 0 <= i <= 6 && 0 <= next.utcTime && next.Day() == DayOfTicks(next.utcTime)
        invariant next.utcTime % DAY_TICKS == rest && 0 <= start <= DayIndex(next.utcTime) <= start + i * |daysExcluded|
        invariant SearchFrom(seen, DayIndex(next.utcTime), daysExcluded, 6 - i) == SearchFrom(seen, start, daysExcluded, 6)
      {
        MulOrder(|daysExcluded|, i + 1, 6);
        Distribute(|daysExcluded|, i, 1);
        match_ := Round(next, off);
        if !match_ {
          break;
        }
        i := i + 1;
      }
      MulOrder(|daysExcluded|, i, 6);
    }

    /** One round: walks through the exclusions once, moving on whenever one of them is today's weekday. */
    method Round(next: DateTime, off: int -> real) returns (found: bool)
      requires 0 <= next.utcTime && DayIndex(next.utcTime) + |daysExcluded| < 3074017
      requires next.Day() == DayOfTicks(next.utcTime)
      modifies next
      ensures 0 <= next.utcTime && next.Day() == DayOfTicks(next.utcTime)
      ensures next.utcTime % DAY_TICKS == old(next.utcTime) % DAY_TICKS
      ensures DayIndex(next.utcTime) == RoundFrom(Seen(off, old(next.utcTime) % DAY_TICKS), DayIndex(old(next.utcTime)), daysExcluded)
      ensures DayIndex(old(next.utcTime)) <= DayIndex(next.utcTime) <= DayIndex(old(next.utcTime)) + |daysExcluded|
      ensures found <==> DayIndex(next.utcTime) > DayIndex(old(next.utcTime))
    {
      hide DateAfter, DayOfTicks, WeekdayOf, WeekdayOfTicks, WeekdayFrom, DayIndex, TimeOfDay.Micros, Seen, StaysInDay, DateOfTicks,
           DateTime.IsOf;
      ghost var start, rest := DayIndex(next.utcTime), next.utcTime % DAY_TICKS;
      ghost var seen := Seen(off, rest);
      found := false;
      var x := 0;
      assert daysExcluded[0..] == daysExcluded;
      while x < |daysExcluded|
        invariant 0 <= x <= |daysExcluded| && 0 <= next.utcTime && next.Day() == DayOfTicks(next.utcTime)
        invariant next.utcTime % DAY_TICKS == rest && start <= DayIndex(next.utcTime) <= start + x
        invariant RoundFrom(seen, DayIndex(next.utcTime), daysExcluded[x..]) == RoundFrom(seen, start, daysExcluded)
        invariant found <==> DayIndex(next.utcTime) > start
      {
        DayAfterTicks(next.utcTime);
        TicksOfDay(next.utcTime);
        SeenAt(off, next.utcTime);
        assert daysExcluded[x..][0] == daysExcluded[x] && daysExcluded[x..][1..] == daysExcluded[x + 1..];
        var weekday := next.DayOfWeek(off(next.utcTime));
        if daysExcluded[x] == weekday {
          found := true;
          StepFits(next.utcTime);
          next.Add(86400000000);
        }
        x := x + 1;
      }
    }
  }

  // A late reading

  /** The error of the nearest double. */
  function DoubleError(ticks: int): real {
    Nearest(JulianDay(ticks)) - JulianDay(ticks)
  }

  /** With Mondays excluded, a reading ten microseconds before midnight of a Sunday, which is allowed, leads to the
      Monday. */
  lemma LateUpdate()
    ensures var start, rest := DayIndex(LATE_READING), LATE_READING % DAY_TICKS;
            var found := SearchFrom(Seen(DoubleError, rest), start, [1], 6);
            && !Excluded(start, [1]) && IsFirstAllowed(start, start, [1]) && found > start
            && !SeesRight(Seen(DoubleError, rest), start)
  {
    var start, rest := DayIndex(LATE_READING), LATE_READING % DAY_TICKS;
    var seen := Seen(DoubleError, rest);
    LateSeen();
    hide WeekdayFrom, Seen, DoubleError, DayIndex, WeekdayOf;
    OneExcluded(seen, start, 1);
    SearchPasses(seen, start + 1, [1], 5);
  }

  lemma LateSeen()
    ensures var start := DayIndex(LATE_READING);
            Seen(DoubleError, LATE_READING % DAY_TICKS)(start) == 1 && WeekdayOf(start) == 0 && start >= 0
  {
    var ticks: int := LATE_READING;
    LateReading();
    assert ticks >= 0 && WeekdayOfTicks(ticks) == 0 && WeekdayFrom(ticks, DoubleError(ticks)) == 1;
    hide WeekdayFrom, WeekdayOfTicks, Seen, DoubleError, WeekdayOf, JulianDay, Nearest;
    SeenAt(DoubleError, ticks);
    DayAfterTicks(ticks);
  }
}
