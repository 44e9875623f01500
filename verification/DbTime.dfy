/** The date format of the database: year, month, day and a quarter of an hour, stepped in place. */
module DbTime {
  import opened Bytes
  import opened Calendar

  const MonthMaxDays: seq<nat> := [0, 31, 28, 31, 30, 31, 30, 31, 31, 30, 31, 30, 31, 0, 0, 0]

  lemma SameDate(c: Clock, d: Clock)
    requires c.year == d.year && c.month == d.month && c.day == d.day
    ensures ToUTime(d) - ToUTime(c) == 3600 * (d.hour - c.hour) + 60 * (d.minute - c.minute) + (d.second - c.second)
  {
  }

  /** The four bytes of a `dbtime_t`. */
  class DbDate {
    var tick: byte
    var day: byte
    var month: byte
    var year: byte

    constructor (year: byte, month: byte, day: byte, tick: byte)
      ensures this.year == year && this.month == month && this.day == day && this.tick == tick
    {
      this.year, this.month, this.day, this.tick := year, month, day, tick;
    }

    predicate Valid()
      reads this
    {
      1 <= month <= 12 && 1 <= day <= MonthDays(year, month) && tick < 96
    }

    /** `DBTIME_SYSCLOCK`. */
    function ToClock(): (c: Clock)
      reads this
      ensures Valid() ==> c.Valid()
    {
      Clock(year, month, day, tick / 4, tick % 4 * 15, 0)
    }

    /** The converted time. */
    function UTime(): int
      reads this
    {
      ToUTime(ToClock())
    }

    /** One day later, 86400 seconds; only from the last day of year 255 the date runs over. */
    method AddOneDay()
      requires Valid()
      modifies `day, `month, `year
      ensures Valid()
      ensures old(year != 255 || month != 12 || day != 31) ==> UTime() == old(UTime()) + 86400
      ensures old(year == 255 && month == 12 && day == 31) ==> year == 0 && month == 1 && day == 1
    {
      hide ToUTime;
      ghost var was := ToClock();
      var maxdays := MonthMaxDays[month];
      if month == 2 && year % 4 == 0 {
        maxdays := maxdays + 1;
      }
      var next: nat := day + 1;
      if next > maxdays {
        day := 1;
        if month + 1 > 12 {
          month := 1;
          year := (year + 1) % 256;
        } else {
          month := month + 1;
        }
      } else {
        day := next;
      }
      if was.year != 255 || was.month != 12 || was.day != 31 {
        NextDateIsDayLater(was, ToClock());
      }
    }

    /** One day earlier. */
    method SubOneDay()
      requires Valid()
      modifies `day, `month, `year
      ensures Valid()
      ensures old(year != 0 || month != 1 || day != 1) ==> UTime() == old(UTime()) - 86400
      ensures old(year == 0 && month == 1 && day == 1) ==> year == 255 && month == 12 && day == 31
    {
      hide ToUTime;
      ghost var was := ToClock();
      day := day - 1;
      if day == 0 {
        month := month - 1;
        if month == 0 {
          month := 12;
          year := (year + 255) % 256;
        }
        var maxdays := MonthMaxDays[month];
        if month == 2 && year % 4 == 0 {
          maxdays := maxdays + 1;
        }
        day := maxdays;
      }
      if was.year != 0 || was.month != 1 || was.day != 1 {
        NextDateIsDayLater(ToClock(), was);
      }
    }

    /** The same day of the next month, be there such a day or not. */
    method AddOneMonth()
      requires 1 <= month <= 12
      modifies `month, `year
      ensures 1 <= month <= 12
      ensures 12 * year + month == old(12 * year + month) % 3072 + 1
    {
      if month + 1 > 12 {
        month := 1;
        year := (year + 1) % 256;
      } else {
        month := month + 1;
      }
    }

    method SubOneMonth()
      requires 1 <= month <= 12
      modifies `month, `year
      ensures 1 <= month <= 12
      ensures 12 * year + month == (old(12 * year + month) + 3070) % 3072 + 1
    {
      month := month - 1;
      if month == 0 {
        month := 12;
        year := (year + 255) % 256;
      }
    }

    /** One quarter of an hour later. */
    method AddOneTick()
      requires Valid()
      modifies this
      ensures Valid()
      ensures old(year != 255 || month != 12 || day != 31 || tick != 95) ==> UTime() == old(UTime()) + 900
      ensures old(year == 255 && month == 12 && day == 31 && tick == 95) ==>
                year == 0 && month == 1 && day == 1 && tick == 0
    {
      hide ToUTime;
      ghost var was := ToClock();
      if tick + 1 > 95 {
        tick := 0;
        SameDate(was, ToClock());
        AddOneDay();
      } else {
        tick := tick + 1;
        SameDate(was, ToClock());
      }
    }
  }
}
