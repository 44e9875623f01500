/** The grid on which a wall-clock timer fires: equal steps of minutes, hours or days, or of calendar
    months, from an origin on. */
module TimerGrid {
  import opened Arithmetic
  import opened Calendar

  /** A grid position as a time. Months are counted by month number, everything else in seconds. */
  function Point(mod: nat, o: nat): nat {
    if mod < MONTH then o else 86400 * FirstOf(o)
  }

  /** How far `dev` units move a grid position. */
  function Stride(mod: nat, dev: nat): (r: nat)
    ensures dev > 0 ==> r > 0
  {
    if mod < MONTH then Unit(mod) * dev else dev
  }

  /** The grid position `k` steps from `o`. */
  function Nth(o: nat, stride: nat, k: nat): nat {
    if k == 0 then o else Nth(o, stride, k - 1) + stride
  }

  /** The `k`-th time the timer is to fire. */
  function Slot(mod: nat, dev: nat, origin: nat, basetime: nat, k: nat): nat {
    Point(mod, Nth(origin, Stride(mod, dev), k)) + basetime
  }

  /** `t` is the first of the timer's slots after `now`. */
  ghost predicate LeastSlot(mod: nat, dev: nat, origin: nat, basetime: nat, now: int, t: int) {
    exists k: nat :: t == Slot(mod, dev, origin, basetime, k) && FirstAfter(mod, dev, origin, basetime, now, k)
  }

  ghost predicate FirstAfter(mod: nat, dev: nat, origin: nat, basetime: nat, now: int, k: nat) {
    && Slot(mod, dev, origin, basetime, k) > now
    && forall j: nat :: j < k ==> Slot(mod, dev, origin, basetime, j) <= now
  }

  lemma PointMono(mod: nat, o: nat, p: nat)
    requires o <= p
    ensures Point(mod, o) + (p - o) <= Point(mod, p)
  {
    hide FirstOf;
    if mod >= MONTH {
      FirstOfMono(o, p);
    }
  }

  /** The first grid position from `o` on whose slot is after `now`. */
  ghost function Next(mod: nat, stride: nat, o: nat, basetime: nat, now: int): (r: nat)
    requires stride > 0
    ensures r >= o && Point(mod, r) + basetime > now
    decreases now - Point(mod, o) - basetime + 1
  {
    if Point(mod, o) + basetime > now then o
    else
      PointMono(mod, o, o + stride);
      Next(mod, stride, o + stride, basetime, now)
  }

  /** One step before the position found the slot is not after `now`. */
  lemma {:induction false} NextIsTight(mod: nat, stride: nat, o: nat, basetime: nat, now: int)
    requires stride > 0
    ensures var r := Next(mod, stride, o, basetime, now);
            r == o || (r >= o + stride && Point(mod, r - stride) + basetime <= now)
    decreases now - Point(mod, o) - basetime + 1
  {
    hide FirstOf, Point;
    if Point(mod, o) + basetime <= now {
      PointMono(mod, o, o + stride);
      NextIsTight(mod, stride, o + stride, basetime, now);
    }
  }

  lemma NextHere(mod: nat, stride: nat, o: nat, basetime: nat, now: int)
    requires stride > 0 && Point(mod, o) + basetime > now
    ensures Next(mod, stride, o, basetime, now) == o
  {
  }

  /** From a slot that has passed, the search may as well begin one step further. */
  lemma NextSkips(mod: nat, stride: nat, o: nat, basetime: nat, now: int)
    requires stride > 0 && Point(mod, o) + basetime <= now
    ensures Next(mod, stride, o, basetime, now) == Next(mod, stride, o + stride, basetime, now)
  {
    PointMono(mod, o, o + stride);
  }

  lemma {:induction false} NthShift(o: nat, stride: nat, k: nat)
    ensures Nth(o, stride, k + 1) == Nth(o + stride, stride, k)
  {
    if k > 0 {
      NthShift(o, stride, k - 1);
    }
  }

  lemma {:induction false} NthMono(o: nat, stride: nat, j: nat, k: nat)
    requires j <= k
    ensures Nth(o, stride, j) <= Nth(o, stride, k)
    decreases k
  {
    if j < k {
      NthMono(o, stride, j, k - 1);
    }
  }

  lemma {:induction false} NextIndex(mod: nat, stride: nat, o: nat, basetime: nat, now: int) returns (k: nat)
    requires stride > 0
    ensures Next(mod, stride, o, basetime, now) == Nth(o, stride, k)
    decreases now - Point(mod, o) - basetime + 1
  {
    if Point(mod, o) + basetime > now {
      k := 0;
    } else {
      PointMono(mod, o, o + stride);
      k := NextIndex(mod, stride, o + stride, basetime, now);
      NthShift(o, stride, k);
      k := k + 1;
    }
  }

  lemma PointsBefore(mod: nat, stride: nat, o: nat, basetime: nat, now: int, k: nat, j: nat)
    requires stride > 0 && j < k && Next(mod, stride, o, basetime, now) == Nth(o, stride, k)
    ensures Point(mod, Nth(o, stride, j)) + basetime <= now
  {
    hide Point, Next;
    var r := Next(mod, stride, o, basetime, now);
    NextIsTight(mod, stride, o, basetime, now);
    NthMono(o, stride, j + 1, k);
    NthMono(o, stride, 0, j);
    PointMono(mod, Nth(o, stride, j), r - stride);
  }

  /** The search finds the least slot. */
  lemma NextIsLeast(mod: nat, dev: nat, origin: nat, basetime: nat, now: int)
    requires dev > 0
    ensures var r := Next(mod, Stride(mod, dev), origin, basetime, now);
            LeastSlot(mod, dev, origin, basetime, now, Point(mod, r) + basetime)
  {
    var k := NextIndex(mod, Stride(mod, dev), origin, basetime, now);
    forall j: nat | j < k
      ensures Slot(mod, dev, origin, basetime, j) <= now
    {
      PointsBefore(mod, Stride(mod, dev), origin, basetime, now, k, j);
    }
    hide Point, Next, Stride;
    assert FirstAfter(mod, dev, origin, basetime, now, k);
  }

  /** No slot is much later than `now`: a bound that needs no search. */
  lemma NextBound(mod: nat, dev: nat, origin: nat, basetime: nat, now: int)
    requires 0 < dev < 256 && mod <= MONTH && Point(mod, origin) <= now
    ensures var r := Next(mod, Stride(mod, dev), origin, basetime, now);
            Point(mod, r) + basetime <= now + basetime + 255 * 31 * 86400
  {
    hide FirstOf;
    var stride := Stride(mod, dev);
    var r := Next(mod, stride, origin, basetime, now);
    NextIsTight(mod, stride, origin, basetime, now);
    if r != origin {
      if mod == MONTH {
        FirstOfMono(r - stride, r);
      }
    }
  }

  // ----- Moving on the grid -----

  /** The grid position of a time that is on the grid. */
  ghost function Pos(mod: nat, t: nat): nat
    requires t < 0x8000_0000
  {
    if mod < MONTH then t else MonthNumber(ClockOf(t))
  }

  /** On the grid: for months, the first of a month at 0:00. */
  ghost predicate OnGrid(mod: nat, t: int) {
    0 <= t < 0x8000_0000 && t == Point(mod, Pos(mod, t))
  }

  lemma FirstDays(c: Clock)
    requires c.Valid()
    ensures FirstOf(MonthNumber(c)) == DaysToYear(c.year) + DaysToMonth(c.year, c.month)
    ensures FirstOf(12 * c.year) == DaysToYear(c.year) && DaysToMonth(c.year, 1) == 0
  {
    var n := MonthNumber(c);
    assert n / 12 == c.year && n % 12 + 1 == c.month;
    assert 12 * c.year / 12 == c.year && 12 * c.year % 12 == 0;
  }

  lemma FirstIsClock(y: nat, m: nat)
    requires m < 12 && y < 256 && 86400 * FirstOf(12 * y + m) < 0x8000_0000
    ensures ClockOf(86400 * FirstOf(12 * y + m)) == Clock(y, m + 1, 1, 0, 0, 0)
  {
    hide ToUTime, DaysToYear, DaysToMonth, FirstOf;
    var d := Clock(y, m + 1, 1, 0, 0, 0);
    FirstDays(d);
    ToUTimeCounts(d);
    ClockRoundTrip(d);
  }

  /** The first of month number `o` lies in that month. */
  lemma FirstsAreOnGrid(o: nat)
    requires 86400 * FirstOf(o) < 0x8000_0000
    ensures MonthNumber(ClockOf(86400 * FirstOf(o))) == o
  {
    hide FirstOf;
    YearLimit(o);
    FirstIsClock(o / 12, o % 12);
    assert 12 * (o / 12) + o % 12 == o;
  }

  lemma PointsAreOnGrid(mod: nat, o: nat)
    requires Point(mod, o) < 0x8000_0000
    ensures OnGrid(mod, Point(mod, o)) && Pos(mod, Point(mod, o)) == o
  {
    if mod >= MONTH {
      FirstsAreOnGrid(o);
    }
  }

  /** `UTimeAdd` moves along the grid. */
  lemma AddTimeMoves(mod: nat, dev: nat, o: nat)
    requires mod <= MONTH && 0 < dev && Point(mod, o) < 0x8000_0000
    ensures AddTime(Point(mod, o), mod, dev) == Point(mod, o + Stride(mod, dev))
  {
    if mod == MONTH {
      FirstsAreOnGrid(o);
    }
  }

  lemma UnitsFit(mod: nat, dev: nat)
    requires dev < 256
    ensures 0 <= Unit(mod) * dev < 0x8000_0000
  {
  }

  // ----- Where the grid starts -----

  /** The start of the year, month, day or hour that `now` is in: where a recalculation begins. */
  ghost function Origin(mod: nat, now: nat): nat
    requires now < 0x8000_0000
  {
    if mod == MONTH then 12 * ClockOf(now).year
    else if mod == DAY then 86400 * FirstOf(MonthNumber(ClockOf(now)))
    else if mod == HOUR then now - now % 86400
    else now - now % 3600
  }

  /** The clock fields that a recalculation clears. */
  function Truncated(mod: nat, c: Clock): Clock {
    var c := c.(minute := 0, second := 0);
    var c := if mod >= HOUR then c.(hour := 0) else c;
    var c := if mod >= DAY then c.(day := 1) else c;
    if mod >= MONTH then c.(month := 1) else c
  }

  /** Splitting off the time of the day. */
  lemma TimeOfDay(c: Clock)
    requires c.Valid()
    ensures var t := ToUTime(c);
            && t >= 0 && t - t % 86400 == 86400 * c.DayNumber()
            && t - t % 3600 == 86400 * c.DayNumber() + 3600 * c.hour
  {
    ToUTimeCounts(c);
    hide ToUTime, DaysToYear, DaysToMonth, MonthDays;
    var rest: nat := 60 * c.minute + c.second;
    WholeDays(ToUTime(c), c.DayNumber(), 3600 * c.hour + rest);
    WholeHours(ToUTime(c), 24 * c.DayNumber() + c.hour, rest);
  }

  lemma WholeDays(t: nat, d: nat, r: nat)
    requires t == 86400 * d + r && r < 86400
    ensures t - t % 86400 == 86400 * d
  {
  }

  lemma WholeHours(t: nat, h: nat, r: nat)
    requires t == 3600 * h + r && r < 3600
    ensures t - t % 3600 == 3600 * h
  {
  }

  /** Clearing them leads to the origin. */
  lemma TruncatedIsOrigin(mod: nat, c: Clock, now: nat)
    requires mod <= MONTH && now < 0x8000_0000 && c == ClockOf(now)
    ensures ToUTime(Truncated(mod, c)) == Point(mod, Origin(mod, now)) <= now
  {
    var d := Truncated(mod, c);
    TimeOfDay(c);
    ToUTimeCounts(d);
    FirstDays(c);
    hide ToUTime, DaysToYear, DaysToMonth, MonthDays, FirstOf;
    ToUTimeCounts(c);
  }

  /** A grid of minutes, hours or days lies on whole ones. */
  predicate OnUnits(mod: nat, o: nat) {
    mod < MONTH ==> o % Unit(mod) == 0
  }

  lemma OriginOnUnits(mod: nat, now: nat)
    requires mod <= MONTH && now < 0x8000_0000
    ensures OnUnits(mod, Origin(mod, now))
  {
    hide FirstOf, ToUTime;
    WholeUnits(now);
  }

  lemma WholeUnits(now: nat)
    ensures (now - now % 86400) % 3600 == 0 && (now - now % 3600) % 60 == 0
  {
    assert now - now % 86400 == 3600 * (24 * (now / 86400));
    assert now - now % 3600 == 60 * (60 * (now / 3600));
  }

  // ----- Hourly and daily timers -----

  /** Of the times that lie `basetime` after a multiple of `unit`, only one is in the next unit. */
  lemma OnePerUnit(mod: nat, r: nat, s: nat, basetime: nat, now: int)
    requires mod == HOUR || mod == DAY
    requires r % Unit(mod) == 0 && s % Unit(mod) == 0
    requires now < r + basetime <= now + Unit(mod) && now < s + basetime <= now + Unit(mod)
    ensures r == s
  {
  }

  lemma OneUnitOn(mod: nat, o: nat)
    requires o % Unit(mod) == 0
    ensures (o + Unit(mod)) % Unit(mod) == 0
  {
  }

  lemma {:induction false} UnitsOn(mod: nat, o: nat, dev: nat)
    requires OnUnits(mod, o)
    ensures OnUnits(mod, o + Stride(mod, dev))
  {
    if mod < MONTH {
      TimesUnit(Unit(mod), o / Unit(mod), dev);
    }
  }

  lemma TimesUnit(u: nat, q: nat, dev: nat)
    requires u > 0
    ensures (u * q + u * dev) % u == 0
  {
    Quotient(u * q + u * dev, u, q + dev, 0);
  }

  /** The search stays on them, whatever the interval. */
  lemma {:induction false} NextStaysOnUnits(mod: nat, dev: nat, o: nat, basetime: nat, now: int)
    requires dev > 0 && OnUnits(mod, o)
    ensures OnUnits(mod, Next(mod, Stride(mod, dev), o, basetime, now))
    decreases now - Point(mod, o) - basetime + 1
  {
    hide FirstOf, Unit, OnUnits, Stride, Next;
    var stride := Stride(mod, dev);
    if Point(mod, o) + basetime <= now {
      UnitsOn(mod, o, dev);
      PointMono(mod, o, o + stride);
      NextSkips(mod, stride, o, basetime, now);
      NextStaysOnUnits(mod, dev, o + stride, basetime, now);
    } else {
      NextHere(mod, stride, o, basetime, now);
    }
  }

  lemma {:induction false} NextOnUnits(mod: nat, o: nat, basetime: nat, now: int)
    requires (mod == HOUR || mod == DAY) && o % Unit(mod) == 0
    ensures Next(mod, Unit(mod), o, basetime, now) % Unit(mod) == 0
    ensures o + basetime <= now + Unit(mod) ==> Next(mod, Unit(mod), o, basetime, now) + basetime <= now + Unit(mod)
    decreases now - o - basetime + 1
  {
    hide FirstOf, Unit;
    NextIsTight(mod, Unit(mod), o, basetime, now);
    if o + basetime <= now {
      OneUnitOn(mod, o);
      NextOnUnits(mod, o + Unit(mod), basetime, now);
    }
  }

  /** For an hourly or daily timer with interval 1, going on from the last slot `tbase + basetime`
      and recalculating from the start of the day or month find the same slot, exactly if the first
      slot of that day or month is at most one interval ahead. */
  lemma CatchUpIsRecalculation(mod: nat, tbase: nat, basetime: nat, now: nat)
    requires (mod == HOUR || mod == DAY) && now < 0x8000_0000
    requires tbase % Unit(mod) == 0 && tbase + basetime <= now
    ensures Next(mod, Unit(mod), tbase, basetime, now) == Next(mod, Unit(mod), Origin(mod, now), basetime, now)
            <==> Origin(mod, now) + basetime <= now + Unit(mod)
  {
    hide Next, FirstOf, ToUTime;
    TruncatedIsOrigin(mod, ClockOf(now), now);
    OriginOnUnits(mod, now);
    var o := Origin(mod, now);
    hide Origin, Unit;
    NextOnUnits(mod, tbase, basetime, now);
    NextOnUnits(mod, o, basetime, now);
    if o + basetime <= now + Unit(mod) {
      OnePerUnit(mod, Next(mod, Unit(mod), tbase, basetime, now), Next(mod, Unit(mod), o, basetime, now), basetime, now);
    }
  }

  // ----- The offset within the interval -----

  /** `RTimerGetBase`: the part of the configured clock below the unit, in seconds. */
  function GetBase(mod: nat, baseclock: Clock): nat {
    var day, hour: nat := baseclock.day, baseclock.hour;
    var hour := if mod <= HOUR then 0 else hour;
    var day := if mod <= DAY then 0 else if day != 0 then day - 1 else day;
    day * 86400 + hour * 3600 + baseclock.minute * 60
  }

  /** The fields that count for the unit are in range; a day 0 stands for the first. */
  predicate Fits(mod: nat, b: Clock) {
    b.minute < 60 && (mod >= DAY ==> b.hour < 24) && (mod >= MONTH ==> b.day <= 31)
  }

  /** The clock `c` shows what was asked for by `b`, in the period that begins at `base`: the minute,
      from daily timers on the hour, and monthly the day, counted on into the next month if the month
      is too short for it. Seconds asked for are dropped. */
  predicate ShowsClock(mod: nat, b: Clock, base: Clock, c: Clock) {
    && base.Valid() && c.Valid()
    && c.second == 0
    && (mod >= HOUR ==> c.minute == b.minute)
    && (mod >= DAY ==> c.hour == b.hour)
    && (mod == MONTH ==>
          var day := if b.day == 0 then 1 else b.day;
          if day <= MonthDays(base.year, base.month) then
            c.year == base.year && c.month == base.month && c.day == day
          else
            MonthNumber(c) == MonthNumber(base) + 1 && c.day == day - MonthDays(base.year, base.month))
  }

  /** Every slot of a timer shows the clock it was asked for with. */
  lemma SlotShowsClock(mod: nat, b: Clock, o: nat)
    requires mod <= MONTH && Fits(mod, b) && OnUnits(mod, o) && Point(mod, o) + GetBase(mod, b) < 0x8000_0000
    ensures ShowsClock(mod, b, ClockOf(Point(mod, o)), ClockOf(Point(mod, o) + GetBase(mod, b)))
  {
    if mod == MONTH {
      hide *;
      MonthShowsClock(b, o);
    } else {
      hide FirstOf, ToUTime, DaysToYear, DaysToMonth, MonthDays, Clock.DayNumber, Clock.Valid;
      var c := ClockOf(Point(mod, o) + GetBase(mod, b));
      if mod == DAY {
        PartsOfTime(c, o / 86400, b.hour, b.minute);
      } else if mod == HOUR {
        PartsOfTime(c, o / 3600 / 24, o / 3600 % 24, b.minute);
      } else {
        var m := o / 60 + b.minute;
        PartsOfTime(c, m / 60 / 24, m / 60 % 24, m % 60);
      }
    }
  }

  lemma PartsOfTime(c: Clock, day: nat, hour: nat, minute: nat)
    requires c.Valid() && hour < 24 && minute < 60 && ToUTime(c) == 86400 * day + 3600 * hour + 60 * minute
    ensures c.hour == hour && c.minute == minute && c.second == 0
  {
    ToUTimeCounts(c);
    hide ToUTime, Clock.DayNumber;
    SameParts(c.DayNumber(), c.hour, c.minute, c.second, day, hour, minute);
  }

  lemma SameParts(day: nat, hour: nat, minute: nat, second: nat, day': nat, hour': nat, minute': nat)
    requires hour < 24 && minute < 60 && second < 60 && hour' < 24 && minute' < 60
    requires 86400 * day + 3600 * hour + 60 * minute + second == 86400 * day' + 3600 * hour' + 60 * minute'
    ensures hour == hour' && minute == minute' && second == 0
  {
    assert day == day';
    assert hour == hour';
  }

  /** A day of month number `o` and a time of the day. */
  lemma DateOfMonth(o: nat, c: Clock)
    requires c.Valid() && 12 * c.year + c.month == o + 1
    ensures ToUTime(c) == 86400 * (FirstOf(o) + c.day - 1) + 3600 * c.hour + 60 * c.minute + c.second
    ensures ToUTime(c) < 0x8000_0000 ==> ClockOf(ToUTime(c)) == c
  {
    FirstDays(c);
    ToUTimeCounts(c);
    if ToUTime(c) < 0x8000_0000 {
      ClockRoundTrip(c);
    }
  }

  /** The clock of a monthly timer's slot in a month. */
  function MonthlyClock(b: Clock, y: nat, m: nat): (c: Clock)
    requires Fits(MONTH, b) && y <= 68 && 1 <= m <= 12
    ensures ShowsClock(MONTH, b, Clock(y, m, 1, 0, 0, 0), c)
  {
    var day := if b.day == 0 then 1 else b.day;
    var n := MonthDays(y, m);
    if day <= n then Clock(y, m, day, b.hour, b.minute, 0)
    else Clock(y, m + 1, day - n, b.hour, b.minute, 0)
  }

  lemma MonthlyTime(b: Clock, o: nat)
    requires Fits(MONTH, b) && o / 12 <= 68
    ensures ToUTime(MonthlyClock(b, o / 12, o % 12 + 1)) == 86400 * FirstOf(o) + GetBase(MONTH, b)
  {
    var y, m, c := o / 12, o % 12 + 1, MonthlyClock(b, o / 12, o % 12 + 1);
    NextFirst(o);
    assert o == 12 * y + m - 1;
    hide FirstOf, ToUTime, MonthDays;
    DateOfMonth(if 12 * c.year + c.month == o + 1 then o else o + 1, c);
  }

  lemma MonthShowsClock(b: Clock, o: nat)
    requires Fits(MONTH, b) && 86400 * FirstOf(o) + GetBase(MONTH, b) < 0x8000_0000
    ensures ShowsClock(MONTH, b, ClockOf(Point(MONTH, o)), ClockOf(Point(MONTH, o) + GetBase(MONTH, b)))
  {
    YearLimit(o);
    assert Point(MONTH, o) == 86400 * FirstOf(o);
    hide FirstOf, ToUTime, Point, ShowsClock, MonthDays, MonthlyClock, GetBase, Fits;
    FirstIsClock(o / 12, o % 12);
    assert 12 * (o / 12) + o % 12 == o;
    MonthlyTime(b, o);
    var c := MonthlyClock(b, o / 12, o % 12 + 1);
    ShownIsValid(b, o / 12, o % 12 + 1);
    ClockRoundTrip(c);
  }

  lemma ShownIsValid(b: Clock, y: nat, m: nat)
    requires Fits(MONTH, b) && y <= 68 && 1 <= m <= 12
    ensures MonthlyClock(b, y, m).Valid()
  {
  }

  /** For a real clock it stays below one hour, one day or one month, so that hourly and daily timers
      with interval 1 may always be caught up step by step. */
  lemma BaseIsBelowUnit(mod: nat, c: Clock, tbase: nat, now: nat)
    requires (mod == HOUR || mod == DAY) && Fits(mod, c) && now < 0x8000_0000
    requires tbase % Unit(mod) == 0 && tbase + GetBase(mod, c) <= now
    ensures GetBase(mod, c) < Unit(mod)
    ensures Next(mod, Unit(mod), tbase, GetBase(mod, c), now)
            == Next(mod, Unit(mod), Origin(mod, now), GetBase(mod, c), now)
  {
    TruncatedIsOrigin(mod, ClockOf(now), now);
    CatchUpIsRecalculation(mod, tbase, GetBase(mod, c), now);
  }
}
