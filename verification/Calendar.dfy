/** The calendar: seconds since 2000-01-01 0:00 and the broken-down clock, in both directions. */
module Calendar {
  import opened Bytes

  // ----- The calendar itself -----

  /** Every fourth year, counted from 2000, is a leap year. */
  function YearDays(y: nat): nat {
    if y % 4 == 0 then 366 else 365
  }

  function MonthDays(y: nat, m: nat): nat
    requires 1 <= m <= 12
  {
    if m == 2 then (if y % 4 == 0 then 29 else 28)
    else if m == 4 || m == 6 || m == 9 || m == 11 then 30
    else 31
  }

  /** Days from 2000-01-01 to the first day of year `y`. */
  function DaysToYear(y: nat): nat {
    if y == 0 then 0 else DaysToYear(y - 1) + YearDays(y - 1)
  }

  /** Days from the start of year `y` to the first of month `m`; `m == 13` is the whole year. */
  function DaysToMonth(y: nat, m: nat): nat
    requires 1 <= m <= 13
  {
    if m == 1 then 0 else DaysToMonth(y, m - 1) + MonthDays(y, m - 1)
  }

  lemma YearIsItsMonths(y: nat)
    ensures DaysToMonth(y, 13) == YearDays(y)
  {
    DaysToMonthIs(y, 12);
  }

  datatype Clock = Clock(year: byte, month: byte, day: byte, hour: byte, minute: byte, second: byte) {
    /** A date of the calendar and a time of the day. */
    predicate Valid() {
      && 1 <= month <= 12 && 1 <= day <= MonthDays(year, month)
      && hour < 24 && minute < 60 && second < 60
    }

    /** Days since 2000-01-01. */
    function DayNumber(): nat
      requires Valid()
    {
      DaysToYear(year) + DaysToMonth(year, month) + day - 1
    }

    function Seconds(): nat
      requires Valid()
    {
      86400 * DayNumber() + 3600 * hour + 60 * minute + second
    }
  }

  // ----- SysClockToUTime -----

  const DaysBeforeMonth: seq<nat> := [0, 31, 59, 90, 120, 151, 181, 212, 243, 273, 304, 334]

  /** `SysClockToUTime`, for every content of the clock's bytes. */
  function ToUTime(c: Clock): int {
    var leaps := if c.year != 0 then (c.year - 1) / 4 + 1 else 0;
    var day := c.year * 365 + leaps;
    var day := if c.month > 2 && c.year % 4 == 0 then day + 1 else day;
    var day := if c.month != 0 && c.month < 13 then day + DaysBeforeMonth[c.month - 1] else day;
    var day := if c.day != 0 then day + c.day - 1 else day;
    ((day * 1440 + c.hour * 60) + c.minute) * 60 + c.second
  }

  lemma {:induction false} DaysToYearIs(y: nat)
    ensures DaysToYear(y) == y * 365 + (if y != 0 then (y - 1) / 4 + 1 else 0)
  {
    if y != 0 {
      DaysToYearIs(y - 1);
    }
  }

  lemma DaysToMonthIs(y: nat, m: nat)
    requires 1 <= m <= 12
    ensures DaysToMonth(y, m) == DaysBeforeMonth[m - 1] + if m > 2 && y % 4 == 0 then 1 else 0
  {
    if m > 1 {
      DaysToMonthIs(y, m - 1);
    }
  }

  /** The closed formula counts the seconds of the calendar. */
  lemma ToUTimeCounts(c: Clock)
    requires c.Valid()
    ensures ToUTime(c) == c.Seconds()
  {
    DaysToYearIs(c.year);
    DaysToMonthIs(c.year, c.month);
  }

  // ----- One clock for one time -----

  lemma {:induction false} DaysToYearMono(y: nat, z: nat)
    requires y < z
    ensures DaysToYear(y) + YearDays(y) <= DaysToYear(z)
    decreases z
  {
    if y + 1 < z {
      DaysToYearMono(y, z - 1);
    }
  }

  lemma {:induction false} DaysToMonthMono(y: nat, m: nat, n: nat)
    requires 1 <= m < n <= 13
    ensures DaysToMonth(y, m) + MonthDays(y, m) <= DaysToMonth(y, n)
    decreases n
  {
    if m + 1 < n {
      DaysToMonthMono(y, m, n - 1);
    }
  }

  /** Within its year. */
  lemma DayInYear(c: Clock)
    requires c.Valid()
    ensures DaysToYear(c.year) <= c.DayNumber() < DaysToYear(c.year) + YearDays(c.year)
  {
    YearIsItsMonths(c.year);
    DaysToMonthMono(c.year, c.month, 13);
  }

  /** Earlier, field by field. */
  predicate Before(c: Clock, d: Clock) {
    c.year < d.year || (c.year == d.year &&
    (c.month < d.month || (c.month == d.month &&
    (c.day < d.day || (c.day == d.day &&
    (c.hour < d.hour || (c.hour == d.hour &&
    (c.minute < d.minute || (c.minute == d.minute && c.second < d.second)))))))))
  }

  lemma BeforeIsLess(c: Clock, d: Clock)
    requires c.Valid() && d.Valid() && Before(c, d)
    ensures ToUTime(c) < ToUTime(d)
  {
    ToUTimeCounts(c);
    ToUTimeCounts(d);
    DayInYear(c);
    DayInYear(d);
    if c.year < d.year {
      DaysToYearMono(c.year, d.year);
    } else if c.month < d.month {
      DaysToMonthMono(c.year, c.month, d.month);
    }
  }

  function Difference(c: Clock, d: Clock): int {
    ToUTime(c) - ToUTime(d)
  }

  /** `SysClockDifference` orders clocks, and is zero for equal ones only. */
  lemma DifferenceOrders(c: Clock, d: Clock)
    requires c.Valid() && d.Valid()
    ensures Difference(c, d) < 0 <==> Before(c, d)
    ensures Difference(c, d) > 0 <==> Before(d, c)
    ensures Difference(c, d) == 0 <==> c == d
  {
    if Before(c, d) {
      BeforeIsLess(c, d);
    } else if Before(d, c) {
      BeforeIsLess(d, c);
    }
  }

  /** Different clocks are different times. */
  lemma OneClock(c: Clock, d: Clock)
    requires c.Valid() && d.Valid() && ToUTime(c) == ToUTime(d)
    ensures c == d
  {
    DifferenceOrders(c, d);
  }

  /** No 32-bit overflow for dates of the years 2000 to 2067. */
  lemma FitsInt32(c: Clock)
    requires c.Valid() && c.year <= 67
    ensures 0 <= ToUTime(c) < 0x8000_0000
  {
    ToUTimeCounts(c);
    DayInYear(c);
    DaysToYearIs(c.year);
  }

  // ----- UTimeToSysClock -----

  /** `UTimeToSysClock`: the one valid clock that converts back to `utime`, and its day of the week. */
  method UTimeToSysClock(utime: int32) returns (c: Clock, week: byte)
    requires utime >= 0
    ensures c.Valid() && ToUTime(c) == utime && c.year <= 68
    ensures week == (c.DayNumber() + 6) % 7
  {
    var rest: nat := utime;
    var second, minute, hour: byte := rest % 60, rest / 60 % 60, rest / 60 / 60 % 24;
    rest := rest / 60 / 60 / 24;
    ghost var days := rest;
    assert utime == 86400 * days + 3600 * hour + 60 * minute + second;
    week := (rest + 6) % 7;
    var year: byte, uc: nat;
    year, rest := SplitYear(rest);
    var month: byte;
    month, rest := SplitMonth(year, rest);
    var day: byte := rest + 1;
    c := Clock(year, month, day, hour, minute, second);
    assert c.DayNumber() == days;
    ToUTimeCounts(c);
  }

  /** The year of a day: whole fours of years by division, the rest by a loop. */
  method SplitYear(days: nat) returns (year: byte, rest: nat)
    requires days < 25000
    ensures days == DaysToYear(year) + rest && rest < YearDays(year) && year <= 68
  {
    var four := days / 1461;
    rest := days - four * 1461;
    var uc, max := 0, 366;
    DaysToYearIs(4 * four);
    while rest >= max
      invariant 0 <= uc <= 3 && max == YearDays(4 * four + uc)
      invariant days == DaysToYear(4 * four + uc) + rest
      invariant rest < 1461 - (if uc == 0 then 0 else 365 * uc + 1)
    {
      rest := rest - max;
      max := 365;
      uc := uc + 1;
    }
    DaysToYearIs(4 * four + uc);
    year := 4 * four + uc;
  }

  /** The month of a day of the year. */
  method SplitMonth(year: byte, days: nat) returns (month: byte, rest: nat)
    requires days < YearDays(year)
    ensures 1 <= month <= 12 && days == DaysToMonth(year, month) + rest && rest < MonthDays(year, month)
  {
    YearIsItsMonths(year);
    assert DaysToMonth(year, 13) == DaysToMonth(year, 12) + 31;
    month, rest := 1, days;
    var max := 31;
    while rest >= max
      invariant 1 <= month <= 12 && max == MonthDays(year, month)
      invariant days == DaysToMonth(year, month) + rest
    {
      month := month + 1;
      rest := rest - max;
      if month == 2 {
        max := if year % 4 == 0 then 29 else 28;
      } else if month < 8 {
        max := if month % 2 == 1 then 31 else 30;
      } else {
        max := if month % 2 == 1 then 30 else 31;
      }
    }
  }

  // ----- The clock of a time -----

  lemma {:induction false} HasYear(days: nat, y: nat) returns (year: nat)
    requires days >= DaysToYear(y)
    ensures DaysToYear(year) <= days < DaysToYear(year) + YearDays(year)
    decreases days - DaysToYear(y)
  {
    if days < DaysToYear(y + 1) {
      year := y;
    } else {
      year := HasYear(days, y + 1);
    }
  }

  lemma {:induction false} HasMonth(y: nat, days: nat, m: nat) returns (month: nat)
    requires 1 <= m <= 12 && DaysToMonth(y, m) <= days < YearDays(y)
    ensures 1 <= month <= 12 && DaysToMonth(y, month) <= days < DaysToMonth(y, month) + MonthDays(y, month)
    decreases 12 - m
  {
    YearIsItsMonths(y);
    assert DaysToMonth(y, m + 1) == DaysToMonth(y, m) + MonthDays(y, m);
    if days < DaysToMonth(y, m + 1) {
      month := m;
    } else {
      month := HasMonth(y, days, m + 1);
    }
  }

  lemma HasDate(days: nat) returns (y: nat, m: nat, d: nat)
    requires days < 25000
    ensures y <= 68 && 1 <= m <= 12 && 1 <= d <= MonthDays(y, m)
    ensures days == DaysToYear(y) + DaysToMonth(y, m) + d - 1
  {
    y := HasYear(days, 0);
    DaysToYearIs(y);
    m := HasMonth(y, days - DaysToYear(y), 1);
    d := days - DaysToYear(y) - DaysToMonth(y, m) + 1;
  }

  /** Every 32-bit time has its clock. */
  lemma HasClock(t: nat)
    requires t < 0x8000_0000
    ensures exists c: Clock :: c.Valid() && ToUTime(c) == t
  {
    hide DaysToYear, DaysToMonth, ToUTime;
    var days, rest := t / 86400, t % 86400;
    var y, m, d := HasDate(days);
    var hour, minute, second := rest / 3600, rest % 3600 / 60, rest % 60;
    assert rest == 3600 * hour + 60 * minute + second;
    var c := Clock(y, m, d, hour, minute, second);
    assert c.Valid() && c.DayNumber() == days;
    ToUTimeCounts(c);
  }

  /** The clock of a time; there is only one. */
  ghost function ClockOf(t: int): (c: Clock)
    requires 0 <= t < 0x8000_0000
    ensures c.Valid() && ToUTime(c) == t
  {
    HasClock(t);
    var c: Clock :| c.Valid() && ToUTime(c) == t;
    c
  }

  /** The conversions are inverse to each other. */
  lemma ClockRoundTrip(c: Clock)
    requires c.Valid() && ToUTime(c) < 0x8000_0000
    ensures ToUTime(c) >= 0 && ClockOf(ToUTime(c)) == c
  {
    ToUTimeCounts(c);
    OneClock(c, ClockOf(ToUTime(c)));
  }

  // ----- UTimeAdd -----

  const MINUTE: int := 0
  const HOUR: int := 1
  const DAY: int := 2
  const MONTH: int := 3

  /** Days from 2000-01-01 to the first day of month number `n`, January 2000 being month 0. */
  function FirstOf(n: nat): nat {
    DaysToYear(n / 12) + DaysToMonth(n / 12, n % 12 + 1)
  }

  function MonthNumber(c: Clock): nat
    requires c.Valid()
  {
    12 * c.year + c.month - 1
  }

  lemma NextFirst(n: nat)
    ensures FirstOf(n + 1) == FirstOf(n) + MonthDays(n / 12, n % 12 + 1)
  {
    hide DaysToYear, DaysToMonth, MonthDays, YearDays;
    var y, m := n / 12, n % 12 + 1;
    assert n == 12 * y + m - 1;
    NextMonth(y, m);
    if m < 12 {
      assert (n + 1) / 12 == y && (n + 1) % 12 == m;
    } else {
      assert (n + 1) / 12 == y + 1 && (n + 1) % 12 == 0;
    }
  }

  lemma NextMonth(y: nat, m: nat)
    requires 1 <= m <= 12
    ensures m < 12 ==> DaysToMonth(y, m + 1) == DaysToMonth(y, m) + MonthDays(y, m)
    ensures m == 12 ==> DaysToYear(y + 1) + DaysToMonth(y + 1, 1) == DaysToYear(y) + DaysToMonth(y, m) + MonthDays(y, m)
  {
    YearIsItsMonths(y);
  }

  lemma {:induction false} FirstOfMono(m: nat, n: nat)
    requires m <= n
    ensures FirstOf(m) + 28 * (n - m) <= FirstOf(n) <= FirstOf(m) + 31 * (n - m)
    decreases n
  {
    hide FirstOf;
    if m < n {
      FirstOfMono(m, n - 1);
      NextFirst(n - 1);
    }
  }

  lemma YearLimit(n: nat)
    requires FirstOf(n) < 25000
    ensures n / 12 <= 68
  {
    DaysToYearIs(n / 12);
  }

  /** Seconds of one unit that is not the month; whatever is not a minute or an hour counts as a day. */
  function Unit(mod: int): (r: nat)
    ensures r > 0
  {
    if mod == MINUTE then 60 else if mod == HOUR then 3600 else 86400
  }

  /** `time` plus `dev` units. Months are counted from the month `time` is in. */
  ghost function AddTime(time: int, mod: int, dev: int): int
    requires mod >= MONTH ==> 0 <= time < 0x8000_0000
  {
    if mod < MONTH then time + Unit(mod) * dev
    else
      var n := MonthNumber(ClockOf(time));
      time + 86400 * (FirstOf(n + if dev > 0 then dev else 0) - FirstOf(n))
  }

  /** A time is not before the first of its month. */
  lemma StartsInMonth(c: Clock)
    requires c.Valid()
    ensures 86400 * FirstOf(MonthNumber(c)) <= ToUTime(c)
  {
    var n := MonthNumber(c);
    assert n / 12 == c.year && n % 12 + 1 == c.month;
    ToUTimeCounts(c);
  }

  method UTimeAdd(time: int32, mod: int32, dev: int32) returns (rtn: int32)
    requires mod >= MONTH ==> time >= 0
    requires -0x8000_0000 <= AddTime(time, mod, dev) < 0x8000_0000
    requires mod < MONTH ==> -0x8000_0000 <= Unit(mod) * dev < 0x8000_0000
    ensures rtn == AddTime(time, mod, dev)
  {
    hide FirstOf, ToUTime, MonthDays;
    var addup: int32;
    if mod < MONTH {
      addup := Unit(mod) * dev;
    } else {
      var clk, _ := UTimeToSysClock(time);
      OneClock(clk, ClockOf(time));
      StartsInMonth(clk);
      addup := MonthsAhead(clk, dev);
    }
    rtn := time + addup;
  }

  /** The month loop of `UTimeAdd`: the length of `dev` months from the clock's month on. */
  method MonthsAhead(clk: Clock, dev: int32) returns (addup: int32)
    requires clk.Valid()
    requires var n := MonthNumber(clk);
             86400 * FirstOf(n + if dev > 0 then dev else 0) < 0x8000_0000 + 86400 * FirstOf(n)
             && FirstOf(n + if dev > 0 then dev else 0) < 25000
    ensures var n := MonthNumber(clk);
            addup == 86400 * (FirstOf(n + if dev > 0 then dev else 0) - FirstOf(n))
  {
    hide FirstOf;
    ghost var n := MonthNumber(clk);
    ghost var end := n + if dev > 0 then dev else 0;
    var month, year: byte := clk.month, clk.year;
    var i := 0;
    addup := 0;
    while i < dev
      invariant n <= n + i <= end
      invariant 1 <= month <= 12 && n + i == 12 * year + month - 1
      invariant addup == 86400 * (FirstOf(n + i) - FirstOf(n))
    {
      NextFirst(n + i);
      FirstOfMono(n, n + i);
      FirstOfMono(n + i + 1, end);
      YearLimit(n + i + 1);
      var days := if month == 2 then (if year % 4 == 0 then 29 else 28)
                  else if month < 8 then (if month % 2 == 1 then 31 else 30)
                  else (if month % 2 == 1 then 30 else 31);
      assert days == MonthDays(year, month);
      assert (n + i) / 12 == year && (n + i) % 12 + 1 == month;
      addup := addup + days * 1440 * 60;
      month := month + 1;
      if month > 12 {
        month := 1;
        year := year + 1;
      }
      i := i + 1;
    }
  }

  /** The same time of the next day. */
  predicate NextDate(c: Clock, d: Clock) {
    && c.Valid() && d.Valid() && d.hour == c.hour && d.minute == c.minute && d.second == c.second
    && if d.day != 1 then d.year == c.year && d.month == c.month && d.day == c.day + 1
       else c.day == MonthDays(c.year, c.month) && 12 * d.year + d.month == 12 * c.year + c.month + 1
  }

  lemma NextDateIsDayLater(c: Clock, d: Clock)
    requires NextDate(c, d)
    ensures ToUTime(d) == ToUTime(c) + 86400
  {
    hide ToUTime, DaysToYear, DaysToMonth, MonthDays;
    ToUTimeCounts(c);
    ToUTimeCounts(d);
    NextMonth(c.year, c.month);
  }

  /** The next hour of the clock. */
  predicate NextHour(c: Clock, d: Clock) {
    && c.Valid() && d.Valid()
    && if d.hour != 0 then d == c.(hour := d.hour) && d.hour == c.hour + 1
       else c.hour == 23 && NextDate(c, d.(hour := 23))
  }

  /** The next minute of the clock. */
  predicate NextMinute(c: Clock, d: Clock) {
    && c.Valid() && d.Valid()
    && if d.minute != 0 then d == c.(minute := d.minute) && d.minute == c.minute + 1
       else c.minute == 59 && NextHour(c, d.(minute := 59))
  }

  lemma TimeMovesWithFields(c: Clock, hour: byte, minute: byte)
    ensures ToUTime(c.(hour := hour, minute := minute)) == ToUTime(c) + 3600 * (hour - c.hour) + 60 * (minute - c.minute)
  {
  }

  lemma NextHourIsHourLater(c: Clock, d: Clock)
    requires NextHour(c, d)
    ensures ToUTime(d) == ToUTime(c) + 3600
  {
    if d.hour == 0 {
      NextDateIsDayLater(c, d.(hour := 23));
    }
    hide ToUTime, NextDate, Clock.Valid;
    TimeMovesWithFields(c, d.hour, c.minute);
    TimeMovesWithFields(d, 23, d.minute);
  }

  lemma NextMinuteIsMinuteLater(c: Clock, d: Clock)
    requires NextMinute(c, d)
    ensures ToUTime(d) == ToUTime(c) + 60
  {
    if d.minute == 0 {
      NextHourIsHourLater(c, d.(minute := 59));
    }
    hide ToUTime, NextHour, Clock.Valid;
    TimeMovesWithFields(c, c.hour, d.minute);
    TimeMovesWithFields(d, d.hour, 59);
  }

  function Tomorrow(c: Clock): (d: Clock)
    requires c.Valid() && c.year < 255
    ensures NextDate(c, d)
  {
    if c.day < MonthDays(c.year, c.month) then c.(day := c.day + 1)
    else if c.month < 12 then c.(month := c.month + 1, day := 1)
    else c.(year := c.year + 1, month := 1, day := 1)
  }

  function HourOn(c: Clock): (d: Clock)
    requires c.Valid() && c.year < 255
    ensures NextHour(c, d)
  {
    if c.hour < 23 then c.(hour := c.hour + 1) else Tomorrow(c).(hour := 0)
  }

  function MinuteOn(c: Clock): (d: Clock)
    requires c.Valid() && c.year < 255
    ensures NextMinute(c, d)
  {
    if c.minute < 59 then c.(minute := c.minute + 1) else HourOn(c).(minute := 0)
  }

  lemma YearOfTime(c: Clock)
    requires c.Valid() && ToUTime(c) < 0x8000_0000
    ensures c.year <= 68
  {
    ToUTimeCounts(c);
    DayInYear(c);
    DaysToYearIs(c.year);
  }

  /** One minute, hour or day more, seen on the clock: its next minute, hour or day, and everything
      below that as it was. */
  lemma AddingOneMovesClock(time: nat, mod: int)
    requires mod < MONTH && AddTime(time, mod, 1) < 0x8000_0000
    ensures time < AddTime(time, mod, 1)
    ensures var c, d := ClockOf(time), ClockOf(AddTime(time, mod, 1));
            if mod == MINUTE then NextMinute(c, d) else if mod == HOUR then NextHour(c, d) else NextDate(c, d)
  {
    var c := ClockOf(time);
    YearOfTime(c);
    hide ToUTime, DaysToYear, DaysToMonth, MonthDays, NextDate, NextHour, NextMinute, Tomorrow, HourOn, MinuteOn;
    var d := if mod == MINUTE then MinuteOn(c) else if mod == HOUR then HourOn(c) else Tomorrow(c);
    if mod == MINUTE {
      NextMinuteIsMinuteLater(c, d);
    } else if mod == HOUR {
      NextHourIsHourLater(c, d);
    } else {
      NextDateIsDayLater(c, d);
    }
    NextIsValid(c, d);
    ClockRoundTrip(d);
  }

  lemma NextIsValid(c: Clock, d: Clock)
    requires NextMinute(c, d) || NextHour(c, d) || NextDate(c, d)
    ensures d.Valid()
  {
  }

  /** Several units are one after the other. */
  lemma AddTimeAddsUp(time: int, mod: int, a: int, b: int)
    requires mod < MONTH
    ensures AddTime(AddTime(time, mod, a), mod, b) == AddTime(time, mod, a + b) && AddTime(time, mod, 0) == time
  {
  }

  /** Adding months moves the date by whole months and keeps day and time of day, whenever the new
      month has that day; the first of a month stays a first. */
  lemma AddMonthsMovesDate(time: nat, dev: nat)
    requires time < 0x8000_0000 && AddTime(time, MONTH, dev) < 0x8000_0000
    requires var n := MonthNumber(ClockOf(time)) + dev;
             ClockOf(time).day <= MonthDays(n / 12, n % 12 + 1)
    ensures var c, n := ClockOf(time), MonthNumber(ClockOf(time)) + dev;
            AddTime(time, MONTH, dev) >= 0 && n / 12 < 256
            && ClockOf(AddTime(time, MONTH, dev)) == c.(year := n / 12, month := n % 12 + 1)
  {
    hide ToUTime, DaysToYear, DaysToMonth, MonthDays;
    var c := ClockOf(time);
    var m, n := MonthNumber(c), MonthNumber(c) + dev;
    StartsInMonth(c);
    FirstOfMono(m, n);
    YearLimit(n);
    var d := c.(year := n / 12, month := n % 12 + 1);
    assert m / 12 == c.year && m % 12 + 1 == c.month;
    assert d.DayNumber() - c.DayNumber() == FirstOf(n) - FirstOf(m);
    ToUTimeCounts(c);
    ToUTimeCounts(d);
    ClockRoundTrip(d);
  }
}
