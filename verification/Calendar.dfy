/** The date arithmetic of hxlib/time.c against a day-by-day count of the Gregorian calendar. */
module Calendar {
  import Division
  import opened Options

  // ---------------------------------------------------------------- the calendar itself

  datatype Date = Date(year: int, month: int, day: int)

  predicate Leap(y: int) { y % 4 == 0 && (y % 100 != 0 || y % 400 == 0) }

  function DaysInMonth(y: int, m: int): int
  {
    if m == 2 then (if Leap(y) then 29 else 28) else if m == 4 || m == 6 || m == 9 || m == 11 then 30 else 31
  }

  predicate ValidDate(d: Date) { 1 <= d.month <= 12 && 1 <= d.day <= DaysInMonth(d.year, d.month) }

  function NextDay(d: Date): Date
  {
    if d.day < DaysInMonth(d.year, d.month) then d.(day := d.day + 1)
    else if d.month < 12 then Date(d.year, d.month + 1, 1)
    else Date(d.year + 1, 1, 1)
  }

  /** n days later, one day at a time. */
  function After(d: Date, n: nat): Date { if n == 0 then d else NextDay(After(d, n - 1)) }

  // ---------------------------------------------------------------- ymdhms_to_unix

  /** The days since 1970-01-01 as the code computes them, in years that begin in March. */
  function UnixDays(y: int, m: int, d: int): int
  {
    var y := if m <= 2 then y - 1 else y;
    var era := Division.Quot(if y >= 0 then y else y - 399, 400);
    var yoe := y - era * 400;
    var doy := (153 * (m + if m > 2 then -3 else 9) + 2) / 5 + d - 1;
    var doe := yoe * 365 + yoe / 4 - yoe / 100 + doy;
    era * 146097 + doe - 719468
  }

  function UnixSeconds(y: int, m: int, d: int, hh: int, mm: int, ss: int): int
  {
    UnixDays(y, m, d) * 86400 + hh * 3600 + mm * 60 + ss
  }

  /** The first day of March of year y, less one. */
  function MarchBase(y: int): int { 365 * y + y / 4 - y / 100 + y / 400 - 719468 }

  lemma EraIsFloor(y: int)
    ensures Division.Quot(if y >= 0 then y else y - 399, 400) == y / 400
  {
  }

  lemma BaseOfEra(y: int, era: int, yoe: int)
    requires era == y / 400 && yoe == y - era * 400
    ensures era * 146097 + yoe * 365 + yoe / 4 - yoe / 100 - 719468 == MarchBase(y)
  {
    assert 0 <= yoe < 400;
    assert y / 4 == era * 100 + yoe / 4;
    assert y / 100 == era * 4 + yoe / 100;
  }

  lemma DaysFromMarch(y: int, m: int, d: int)
    requires 1 <= m <= 12
    ensures UnixDays(y, m, d) == MarchBase(if m <= 2 then y - 1 else y) + (153 * (m + if m > 2 then -3 else 9) + 2) / 5 + d - 1
  {
    var y' := if m <= 2 then y - 1 else y;
    EraIsFloor(y');
    BaseOfEra(y', y' / 400, y' - y' / 400 * 400);
  }

  lemma NextMarch(y: int)
    ensures MarchBase(y) == MarchBase(y - 1) + if Leap(y) then 366 else 365
  {
    assert y / 4 == (y - 1) / 4 + if y % 4 == 0 then 1 else 0;
    assert y / 100 == (y - 1) / 100 + if y % 100 == 0 then 1 else 0;
    assert y / 400 == (y - 1) / 400 + if y % 400 == 0 then 1 else 0;
  }

  /** The tables of time_pri.h: the days of the year before each month, less one. */
  const LP_DAYS: seq<int> := [-1, 30, 59, 90, 120, 151, 181, 212, 243, 273, 304, 334, 365]
  const DAYS: seq<int> := [-1, 30, 58, 89, 119, 150, 180, 211, 242, 272, 303, 333, 364]

  function Table(y: int): (r: seq<int>)
    ensures |r| == 13
  {
    if Leap(y) then LP_DAYS else DAYS
  }

  function YearStart(y: int): int { MarchBase(y - 1) + 306 }

  /** A date is as many days into its year as the tables say. */
  lemma DaysFromYear(y: int, m: int, d: int)
    requires 1 <= m <= 12
    ensures UnixDays(y, m, d) == YearStart(y) + Table(y)[m - 1] + d
  {
    DaysFromMarch(y, m, d);
    NextMarch(y);
  }

  lemma NextYear(y: int)
    ensures YearStart(y + 1) == YearStart(y) + if Leap(y) then 366 else 365
  {
    NextMarch(y);
  }

  lemma TableSteps(y: int, m: int)
    requires 1 <= m <= 12
    ensures Table(y)[m] == Table(y)[m - 1] + DaysInMonth(y, m)
    ensures Table(y)[12] == if Leap(y) then 365 else 364
  {
  }

  /** The number of a date, by the tables. */
  function Number(d: Date): int
    requires 1 <= d.month <= 12
  {
    YearStart(d.year) + Table(d.year)[d.month - 1] + d.day
  }

  lemma UnixIsNumber(d: Date)
    requires 1 <= d.month <= 12
    ensures UnixDays(d.year, d.month, d.day) == Number(d)
  {
    DaysFromYear(d.year, d.month, d.day);
  }

  lemma NextNumber(d: Date, n: Date)
    requires ValidDate(d) && n == NextDay(d)
    ensures ValidDate(n) && Number(n) == Number(d) + 1
  {
    TableSteps(d.year, d.month);
    NextYear(d.year);
  }

  /** The count grows by one from every day to the next, in every year. */
  lemma NextDayCounts(d: Date)
    requires ValidDate(d)
    ensures var n := NextDay(d);
      ValidDate(n) && UnixDays(n.year, n.month, n.day) == UnixDays(d.year, d.month, d.day) + 1
  {
    var n := NextDay(d);
    NextNumber(d, n);
    UnixIsNumber(d);
    UnixIsNumber(n);
  }

  /** So it is the number of days since the epoch. */
  lemma {:induction false} CountsFromEpoch(n: nat)
    ensures var d := After(Date(1970, 1, 1), n);
      ValidDate(d) && UnixDays(d.year, d.month, d.day) == n
  {
    if n > 0 {
      CountsFromEpoch(n - 1);
      NextDayCounts(After(Date(1970, 1, 1), n - 1));
    }
  }

  /** Different dates have different counts. */
  lemma DaysInjective(a: Date, b: Date)
    requires ValidDate(a) && ValidDate(b)
    requires UnixDays(a.year, a.month, a.day) == UnixDays(b.year, b.month, b.day)
    ensures a == b
  {
    UnixIsNumber(a);
    UnixIsNumber(b);
    NumberInjective(a, b);
  }

  lemma NumberInjective(a: Date, b: Date)
    requires ValidDate(a) && ValidDate(b) && Number(a) == Number(b)
    ensures a == b
  {
    NumberInYear(a);
    NumberInYear(b);
    if a.year < b.year {
      YearsGrow(a.year + 1, b.year);
    } else if b.year < a.year {
      YearsGrow(b.year + 1, a.year);
    }
    SameYear(a, b);
  }

  lemma NumberInYear(d: Date)
    requires ValidDate(d)
    ensures YearStart(d.year) <= Number(d) < YearStart(d.year + 1)
  {
    NextYear(d.year);
    TableWithin(d.year, d.month);
  }

  lemma TableWithin(y: int, m: int)
    requires 1 <= m <= 12
    ensures -1 <= Table(y)[m - 1] && Table(y)[m - 1] + DaysInMonth(y, m) < if Leap(y) then 366 else 365
  {
  }

  lemma {:induction false} YearsGrow(y: int, z: int)
    requires y <= z
    ensures YearStart(y) <= YearStart(z)
    decreases z - y
  {
    if y < z {
      NextYear(z - 1);
      YearsGrow(y, z - 1);
    }
  }

  lemma SameYear(a: Date, b: Date)
    requires ValidDate(a) && ValidDate(b) && a.year == b.year && Number(a) == Number(b)
    ensures a == b
  {
    if a.month < b.month {
      TablesGrow(a.year, a.month, b.month - 1);
    } else if b.month < a.month {
      TablesGrow(a.year, b.month, a.month - 1);
    }
  }

  lemma TablesGrow(y: int, m: int, n: int)
    requires 1 <= m <= n <= 12
    ensures Table(y)[m - 1] + DaysInMonth(y, m) == Table(y)[m] <= Table(y)[n]
  {
  }

  // ---------------------------------------------------------------- _gmtotime_t and gmtime, in 32-bit longs

  function Wrap32(x: int): (r: int)
    ensures -0x8000_0000 <= r < 0x8000_0000
    ensures -0x8000_0000 <= x < 0x8000_0000 ==> r == x
  {
    (x + 0x8000_0000) % 0x1_0000_0000 - 0x8000_0000
  }

  const DAY_SEC := 86400
  const YEAR_SEC := 31536000
  const FOUR_YEAR_SEC := 126230400
  const TIMEZONE := 8 * 3600

  lemma WrapStep(a: int, k: int, b: int)
    requires k == 1 || k == 24 || k == 60
    ensures Wrap32(Wrap32(a) * k + b) == Wrap32(a * k + b)
  {
    var q := (a + 0x8000_0000) / 0x1_0000_0000;
    assert Wrap32(a) == a - q * 0x1_0000_0000;
    var x := a * k + b + 0x8000_0000;
    if k == 1 {
      ModShift(x, q);
    } else if k == 24 {
      ModShift(x, 24 * q);
    } else {
      ModShift(x, 60 * q);
    }
  }

  lemma ModShift(x: int, q: int)
    ensures (x - q * 0x1_0000_0000) % 0x1_0000_0000 == x % 0x1_0000_0000
  {
    var d, r := x / 0x1_0000_0000, x % 0x1_0000_0000;
    assert x - q * 0x1_0000_0000 == (d - q) * 0x1_0000_0000 + r;
  }

  /** The day count in the years that _gmtotime_t accepts: every fourth year is a leap year. */
  lemma SimpleYears(y: int, m: int, d: int)
    requires 1970 <= y <= 2038 && 1 <= m <= 12
    ensures UnixDays(y, m, d) ==
            (y - 1970) * 365 + (y - 1901) / 4 - 17 + d + DAYS[m - 1] + if y % 4 == 0 && m > 2 then 1 else 0
  {
    DaysFromYear(y, m, d);
    SimpleStart(y);
  }

  lemma SimpleStart(y: int)
    requires 1970 <= y <= 2038
    ensures YearStart(y) == (y - 1970) * 365 + (y - 1901) / 4 - 17 && (Leap(y) <==> y % 4 == 0)
  {
    assert (y - 1) / 4 == (y - 1901) / 4 + 475;
    assert (y - 1) / 100 == (if y <= 2000 then 19 else 20) && (y - 1) / 400 == if y <= 2000 then 4 else 5;
  }

  lemma SimpleSeconds(yr: int, mo: int, dy: int, hr: int, mn: int, sc: int, days: int)
    requires 1970 <= yr <= 2038 && 1 <= mo <= 12
    requires days == (yr - 1970) * 365 + (yr - 1901) / 4 - 17 + dy + DAYS[mo - 1] + if yr % 4 == 0 && mo > 2 then 1 else 0
    ensures UnixSeconds(yr, mo, dy, hr, mn, sc) == days * 86400 + hr * 3600 + mn * 60 + sc
  {
    SimpleYears(yr, mo, dy);
  }

  /** The seconds since the epoch, moved by the fixed time zone and the daylight hour, in a 32-bit long. */
  method GmToTime(yr: int, mo: int, dy: int, hr: int, mn: int, sc: int) returns (t: int)
    requires 1 <= mo <= 12
    ensures !(1970 <= yr <= 2038) ==> t == -1
    ensures 1970 <= yr <= 2038 ==>
      var exact := UnixSeconds(yr, mo, dy, hr, mn, sc) + 25200;
      t == if Wrap32(exact) >= 0 then Wrap32(exact) else -1
  {
    var y := yr - 1900;
    if y < 70 || y > 138 {
      return -1;
    }
    var days := dy + DAYS[mo - 1];
    if y % 4 == 0 && mo > 2 {
      days := days + 1;
    }
    assert (y % 4 == 0 <==> yr % 4 == 0) && (y - 1) / 4 == (yr - 1901) / 4;
    days := (y - 70) * 365 + (y - 1) / 4 - 17 + days;
    SimpleSeconds(yr, mo, dy, hr, mn, sc, days);
    var tim := ShiftedSeconds(days, hr, mn, sc);
    t := if tim >= 0 then tim else -1;
  }

  /** The chain of 32-bit operations from days to shifted seconds wraps as if it had been done once, at the end. */
  method ShiftedSeconds(days: int, hr: int, mn: int, sc: int) returns (tim: int)
    ensures tim == Wrap32(days * 86400 + hr * 3600 + mn * 60 + sc + 25200)
  {
    var hours := Wrap32(days) * 24 + hr;
    WrapStep(days, 24, hr);
    var minutes := Wrap32(hours) * 60 + mn;
    WrapStep(days * 24 + hr, 60, mn);
    var seconds := Wrap32(minutes) * 60 + sc;
    ghost var m := (days * 24 + hr) * 60 + mn;
    WrapStep(m, 60, sc);
    tim := Wrap32(Wrap32(seconds) + TIMEZONE);
    tim := Shifted(m * 60 + sc, tim);
  }

  /** The last correction, by the daylight hour. */
  method Shifted(ghost exact: int, zoned: int) returns (tim: int)
    requires zoned == Wrap32(Wrap32(exact) + TIMEZONE)
    ensures tim == Wrap32(exact + 25200)
  {
    WrapStep(exact, 1, TIMEZONE);
    WrapStep(exact + TIMEZONE, 1, -3600);
    tim := Wrap32(zoned - 3600);
  }

  /** struct tm: years since 1900, months from 0. */
  datatype Tm = Tm(year: int, yday: int, mon: int, mday: int, wday: int, hour: int, min: int, sec: int)

  ghost predicate Describes(tm: Tm, t: int)
  {
    && ValidDate(Date(1900 + tm.year, tm.mon + 1, tm.mday))
    && 0 <= tm.hour < 24 && 0 <= tm.min < 60 && 0 <= tm.sec < 60
    && UnixSeconds(1900 + tm.year, tm.mon + 1, tm.mday, tm.hour, tm.min, tm.sec) == t
    && tm.yday == UnixDays(1900 + tm.year, tm.mon + 1, tm.mday) - UnixDays(1900 + tm.year, 1, 1)
  }

  /** 1970-01-01 was a Thursday. */
  function DayOfWeek(days: int): int { (days + 4) % 7 }

  predicate RightWeekday(tm: Tm) { tm.wday == DayOfWeek(UnixDays(1900 + tm.year, tm.mon + 1, tm.mday)) }

  lemma FourYears(n: int, k: int)
    requires 0 <= n <= 17 && 0 <= k <= 3
    ensures YearStart(1970 + 4 * n + k) == 1461 * n + 365 * k + (if k == 3 then 1 else 0)
    ensures Leap(1970 + 4 * n + k) <==> k == 2
  {
    var y := 1969 + 4 * n + k;
    assert y / 4 == 492 + n + (if k == 3 then 1 else 0);
    assert y / 100 == (if y < 2000 then 19 else 20) && y / 400 == if y < 2000 then 4 else 5;
  }

  /** The year within its cycle of four, and the seconds into that year. */
  method SplitYear(seconds: int) returns (year: int, left: int, isLeap: bool)
    requires 0 <= seconds < 0x8000_0000
    ensures 70 <= year <= 138 && 0 <= left < (if Leap(1900 + year) then 366 else 365) * DAY_SEC
    ensures YearStart(1900 + year) * DAY_SEC + left == seconds && isLeap == Leap(1900 + year)
  {
    var n := seconds / FOUR_YEAR_SEC;
    ghost var k := 0;
    left := seconds - n * FOUR_YEAR_SEC;
    year, isLeap := n * 4 + 70, false;
    if left >= YEAR_SEC {
      year, left, k := year + 1, left - YEAR_SEC, 1;
      if left >= YEAR_SEC {
        year, left, k := year + 1, left - YEAR_SEC, 2;
        if left >= YEAR_SEC + DAY_SEC {
          year, left, k := year + 1, left - (YEAR_SEC + DAY_SEC), 3;
        } else {
          isLeap := true;
        }
      }
    }
    FourYears(n, k);
  }

  /** The weekday that gmtime computes from all 64 bits, before it looks at the low 32 bits only. */
  function WeekdayOf(timer: int): int { Division.Rem(Wrap32(Wrap32(Division.Quot(timer, DAY_SEC)) + 4), 7) }

  /** gmtime describes exactly the moment that the low 32 bits are, with the weekday of the full day number, cut to 32 bits
      only then. So it describes the moment it is given, weekday included, if and only if that is within 31 bits. */
  method GmTime(timer: int) returns (r: Option<Tm>)
    ensures r == None <==> Wrap32(timer) < 0
    ensures r.Some? ==> Describes(r.value, Wrap32(timer)) && 70 <= r.value.year <= 138
    ensures r.Some? ==> r.value.wday == WeekdayOf(timer)
    ensures r.Some? && Describes(r.value, timer) <==> 0 <= timer < 0x8000_0000
    ensures 0 <= timer < 0x8000_0000 ==> RightWeekday(r.value)
  {
    var caltim := Wrap32(timer);
    if caltim < 0 {
      return None;
    }
    var year, left, isLeap := SplitYear(caltim);
    var yday := left / DAY_SEC;
    left := left - yday * DAY_SEC;
    var mon := FindMonth(1900 + year, if isLeap then LP_DAYS else DAYS, yday);
    var mday := yday - (if isLeap then LP_DAYS else DAYS)[mon];
    var hour, min, sec := TimeOfDay(left);
    var wday := WeekdayOf(timer);
    ghost var days := YearStart(1900 + year) + yday;
    Weekday(timer, days, left);
    var tm := Tm(year, yday, mon, mday, wday, hour, min, sec);
    DateOf(tm, days);
    DescribedBy(tm, days, left, caltim);
    r := Some(tm);
  }

  /** 1970-01-01 is day 0. */
  lemma EpochDay(y: int, m: int, d: int)
    requires y == 1970 && m == 1 && d == 1
    ensures ValidDate(Date(y, m, d)) && UnixDays(y, m, d) == 0
  {
    DaysFromYear(y, m, d);
  }

  lemma EpochDescribed(epoch: Tm, zero: int)
    requires epoch.year == 70 && epoch.yday == 0 && epoch.mon == 0 && epoch.mday == 1
    requires epoch.hour == 0 && epoch.min == 0 && epoch.sec == 0 && zero == 0
    ensures Describes(epoch, zero)
  {
    EpochDay(1900 + epoch.year, epoch.mon + 1, epoch.mday);
    DescribedBy(epoch, zero, zero, zero);
  }

  lemma SundayInLongs()
    ensures WeekdayOf(0x1_0000_0000) == 0 && Wrap32(0x1_0000_0000) == 0
  {
  }

  lemma LastHours(y: int, m: int, d: int, timer: int)
    requires y == 2106 && m == 2 && d == 7 && timer == 0x1_0000_0000
    ensures UnixSeconds(y, m, d, 6, 28, 16) == timer
  {
    DaysFromYear(y, m, d);
  }

  /** 2^32 seconds after the epoch it is 2106-02-07. What gmtime returns is 1970-01-01, day 0 and a Thursday, as a Sunday. */
  lemma BeyondLowBits(timer: int, tm: Tm)
    requires timer == 0x1_0000_0000 && Describes(tm, Wrap32(timer)) && tm.wday == WeekdayOf(timer)
    ensures UnixSeconds(2106, 2, 7, 6, 28, 16) == timer
    ensures tm == Tm(70, 0, 0, 1, 0, 0, 0, 0) && DayOfWeek(0) == 4
  {
    LastHours(2106, 2, 7, timer);
    SundayInLongs();
    OnlyEpoch(tm, Wrap32(timer));
  }

  lemma OnlyEpoch(tm: Tm, low: int)
    requires Describes(tm, low) && low == 0 && tm.wday == 0
    ensures tm == Tm(70, 0, 0, 1, 0, 0, 0, 0)
  {
    var epoch := Tm(70, 0, 0, 1, 0, 0, 0, 0);
    EpochDescribed(epoch, low);
    DescribedOnce(tm, epoch, low);
  }

  method TimeOfDay(seconds: int) returns (hour: int, min: int, sec: int)
    requires 0 <= seconds < DAY_SEC
    ensures 0 <= hour < 24 && 0 <= min < 60 && 0 <= sec < 60 && hour * 3600 + min * 60 + sec == seconds
  {
    hour := seconds / 3600;
    var left := seconds - hour * 3600;
    min := left / 60;
    sec := left - min * 60;
  }

  lemma DescribedBy(tm: Tm, days: int, seconds: int, t: int)
    requires ValidDate(Date(1900 + tm.year, tm.mon + 1, tm.mday)) && UnixDays(1900 + tm.year, tm.mon + 1, tm.mday) == days
    requires tm.yday == days - UnixDays(1900 + tm.year, 1, 1)
    requires 0 <= tm.hour < 24 && 0 <= tm.min < 60 && 0 <= tm.sec < 60
    requires tm.hour * 3600 + tm.min * 60 + tm.sec == seconds && t == days * DAY_SEC + seconds
    ensures Describes(tm, t)
    ensures RightWeekday(tm) == (tm.wday == DayOfWeek(days))
  {
  }

  lemma DateOf(tm: Tm, days: int)
    requires 0 <= tm.mon < 12 && days == YearStart(1900 + tm.year) + tm.yday
    requires tm.mday == tm.yday - Table(1900 + tm.year)[tm.mon]
    ensures UnixDays(1900 + tm.year, tm.mon + 1, tm.mday) == days
    ensures tm.yday == days - UnixDays(1900 + tm.year, 1, 1)
  {
    DaysFromYear(1900 + tm.year, tm.mon + 1, tm.mday);
    DaysFromYear(1900 + tm.year, 1, 1);
  }

  lemma Weekday(timer: int, days: int, left: int)
    requires 0 <= left < DAY_SEC
    ensures 0 <= timer < 0x8000_0000 && timer == days * DAY_SEC + left ==>
      WeekdayOf(timer) == DayOfWeek(days)
  {
    if 0 <= timer < 0x8000_0000 && timer == days * DAY_SEC + left {
      assert timer / DAY_SEC == days;
    }
  }

  /** The loop that looks for the month of a day of the year. */
  method FindMonth(y: int, mdays: seq<int>, yday: int) returns (mon: int)
    requires mdays == Table(y) && 0 <= yday <= mdays[12]
    ensures 0 <= mon < 12 && mdays[mon] < yday <= mdays[mon + 1]
    ensures 1 <= yday - mdays[mon] <= DaysInMonth(y, mon + 1)
  {
    mon := 1;
    while mdays[mon] < yday
      invariant 1 <= mon <= 12 && mdays[mon - 1] < yday
      decreases 12 - mon
    {
      mon := mon + 1;
    }
    mon := mon - 1;
    TableSteps(y, mon + 1);
  }

  /** The weekday advances by one, modulo 7, from every day to the next, in every year; day 0 is a Thursday. */
  lemma WeekdayAdvances(d: Date)
    requires ValidDate(d)
    ensures var n := NextDay(d);
      DayOfWeek(UnixDays(n.year, n.month, n.day)) == (DayOfWeek(UnixDays(d.year, d.month, d.day)) + 1) % 7
    ensures DayOfWeek(0) == 4
  {
    NextDayCounts(d);
    DayOfWeekSteps(UnixDays(d.year, d.month, d.day));
  }

  lemma DayOfWeekSteps(days: int)
    ensures DayOfWeek(days + 1) == (DayOfWeek(days) + 1) % 7 && 0 <= DayOfWeek(days) < 7
  {
  }

  /** So does the weekday of gmtime, from every moment within 31 bits to the same time of the next day. */
  lemma WeekdayOfAdvances(timer: int)
    requires 0 <= timer && timer + DAY_SEC < 0x8000_0000
    ensures WeekdayOf(timer + DAY_SEC) == (WeekdayOf(timer) + 1) % 7 && (timer < DAY_SEC ==> WeekdayOf(timer) == 4)
  {
    var days, left := timer / DAY_SEC, timer % DAY_SEC;
    Weekday(timer, days, left);
    Weekday(timer + DAY_SEC, days + 1, left);
    DayOfWeekSteps(days);
  }

  /** Two descriptions of one moment are the same, so gmtime gives back exactly what was encoded. */
  lemma DescribedOnce(a: Tm, b: Tm, t: int)
    requires Describes(a, t) && Describes(b, t)
    ensures a.(wday := 0) == b.(wday := 0)
  {
    var x := UnixDays(1900 + a.year, a.mon + 1, a.mday);
    var y := UnixDays(1900 + b.year, b.mon + 1, b.mday);
    assert x == y;
    DaysInjective(Date(1900 + a.year, a.mon + 1, a.mday), Date(1900 + b.year, b.mon + 1, b.mday));
  }

  method Encode(tm: Tm, ghost t: int) returns (u: int)
    requires Describes(tm, t) && 70 <= tm.year <= 138 && 0 <= t < 0x8000_0000
    ensures u == if t + 25200 < 0x8000_0000 then t + 25200 else -1
  {
    u := GmToTime(1900 + tm.year, tm.mon + 1, tm.mday, tm.hour, tm.min, tm.sec);
  }

  /** Encoding what gmtime describes gives the moment back, 25200 seconds on, unless that does not fit into 32 bits. */
  method DescribeThenEncode(t: int) returns (u: int)
    requires 0 <= t < 0x8000_0000
    ensures u == if t + 25200 < 0x8000_0000 then t + 25200 else -1
  {
    var tm := GmTime(t);
    u := Encode(tm.value, t);
  }

  /** Describing what has been encoded, 25200 seconds back, gives every field back. */
  method EncodeThenDescribe(tm: Tm, ghost t: int) returns (r: Option<Tm>)
    requires Describes(tm, t) && 70 <= tm.year <= 138 && 0 <= t && t + 25200 < 0x8000_0000
    ensures r.Some? && r.value.(wday := 0) == tm.(wday := 0)
  {
    var u := Encode(tm, t);
    r := GmTime(u - 25200);
    DescribedOnce(r.value, tm, t);
  }
}
