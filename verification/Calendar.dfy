/** Calendar arithmetic of lib-clib/src/time.cpp: seconds since 1970 to date fields and back. */
module Calendar {
  import opened Integers
  import opened Wrappers

  // ---- the calendar ----

  predicate IsLeap(year: int) {
    if year % 100 == 0 then year % 400 == 0 else year % 4 == 0
  }

  const DAYS_OF_MONTH: seq<nat> := [31, 28, 31, 30, 31, 30, 31, 31, 30, 31, 30, 31]

  function DaysOfMonth(month: int, year: int): (d: nat)
    requires 0 <= month < 12
    ensures 28 <= d <= 31
  {
    if month == 1 && IsLeap(year) then 29 else DAYS_OF_MONTH[month]
  }

  function DaysOfYear(year: int): nat {
    if IsLeap(year) then 366 else 365
  }

  /** Days from 1 January 1970 to 1 January of `year`. */
  ghost function BeforeYear(year: int): (d: nat)
    requires year >= 1970
  {
    if year == 1970 then 0 else BeforeYear(year - 1) + DaysOfYear(year - 1)
  }

  /** Days of `year` before the first of `month`. */
  ghost function BeforeMonth(month: int, year: int): (d: nat)
    requires 0 <= month <= 12
  {
    if month == 0 then 0 else BeforeMonth(month - 1, year) + DaysOfMonth(month - 1, year)
  }

  ghost predicate IsDate(year: int, month: int, day: int) {
    year >= 1970 && 0 <= month < 12 && 1 <= day <= DaysOfMonth(month, year)
  }

  /** Days since 1 January 1970. */
  ghost function DayNumber(year: int, month: int, day: int): int
    requires year >= 1970 && 0 <= month < 12
  {
    BeforeYear(year) + BeforeMonth(month, year) + day - 1
  }

  /** The Gregorian rule in closed form: leap years before `year`. */
  ghost function LeapsBefore(year: int): int {
    (year - 1) / 4 - (year - 1) / 100 + (year - 1) / 400
  }

  lemma LeapStep(year: int)
    ensures LeapsBefore(year + 1) == LeapsBefore(year) + if IsLeap(year) then 1 else 0
  {
    QuotientStep4(year);
    QuotientStep100(year);
    QuotientStep400(year);
    Divisors(year);
  }

  lemma QuotientStep4(y: int)
    ensures y / 4 == (y - 1) / 4 + if y % 4 == 0 then 1 else 0
  {
  }

  lemma QuotientStep100(y: int)
    ensures y / 100 == (y - 1) / 100 + if y % 100 == 0 then 1 else 0
  {
  }

  lemma QuotientStep400(y: int)
    ensures y / 400 == (y - 1) / 400 + if y % 400 == 0 then 1 else 0
  {
  }

  lemma Divisors(y: int)
    ensures y % 400 == 0 ==> y % 100 == 0
    ensures y % 100 == 0 ==> y % 4 == 0
  {
    if y % 400 == 0 {
      Hundreds(y / 400);
    }
    if y % 100 == 0 {
      Fours(y / 100);
    }
  }

  lemma Hundreds(q: int)
    ensures 400 * q % 100 == 0
  {
  }

  lemma Fours(q: int)
    ensures 100 * q % 4 == 0
  {
  }

  /** The summing loop agrees with the Gregorian rule. */
  lemma {:induction false} BeforeYearIsGregorian(year: int)
    requires year >= 1970
    ensures BeforeYear(year) == 365 * (year - 1970) + LeapsBefore(year) - LeapsBefore(1970)
  {
    hide LeapsBefore;
    if year > 1970 {
      BeforeYearIsGregorian(year - 1);
      LeapStep(year - 1);
    }
  }

  lemma BeforeMonthOfYear(year: int)
    ensures BeforeMonth(12, year) == DaysOfYear(year)
    ensures BeforeMonth(2, year) == 31 + DaysOfMonth(1, year)
  {
    assert BeforeMonth(1, year) == 31;
    assert BeforeMonth(2, year) == 31 + DaysOfMonth(1, year);
    assert BeforeMonth(4, year) == BeforeMonth(2, year) + 61;
    assert BeforeMonth(6, year) == BeforeMonth(4, year) + 61;
    assert BeforeMonth(8, year) == BeforeMonth(6, year) + 62;
    assert BeforeMonth(10, year) == BeforeMonth(8, year) + 61;
    assert BeforeMonth(12, year) == BeforeMonth(10, year) + 61;
  }

  /** The month loop in closed form: from March on, five months have 153 days. */
  lemma MonthsInClosedForm(month: int, year: int)
    requires 0 <= month <= 12
    ensures BeforeMonth(month, year) ==
            if month == 0 then 0
            else if month == 1 then 31
            else 31 + (if IsLeap(year) then 29 else 28) + (153 * (month - 2) + 2) / 5
  {
    assert BeforeMonth(1, year) == 31;
    assert BeforeMonth(2, year) == 31 + if IsLeap(year) then 29 else 28;
    assert BeforeMonth(3, year) == BeforeMonth(2, year) + 31;
    assert BeforeMonth(4, year) == BeforeMonth(2, year) + 61;
    assert BeforeMonth(5, year) == BeforeMonth(4, year) + 31;
    assert BeforeMonth(6, year) == BeforeMonth(4, year) + 61;
    assert BeforeMonth(7, year) == BeforeMonth(6, year) + 31;
    assert BeforeMonth(8, year) == BeforeMonth(6, year) + 62;
    assert BeforeMonth(9, year) == BeforeMonth(8, year) + 30;
    assert BeforeMonth(10, year) == BeforeMonth(8, year) + 61;
    assert BeforeMonth(11, year) == BeforeMonth(10, year) + 30;
    assert BeforeMonth(12, year) == BeforeMonth(10, year) + 61;
  }

  /** The lengths of the months, February apart: 31 and 30 days alternate, and July and August both have 31. */
  lemma MonthLengths(month: int, year: int)
    requires 0 <= month < 12
    ensures DaysOfMonth(month, year) ==
            if month == 1 then (if IsLeap(year) then 29 else 28) else 30 + (month + 1 + (month + 1) / 8) % 2
  {
  }

  /** So the day number is that of the Gregorian calendar, counted in years that begin in March: 719468 days lie
      between 1 March of the year 0 and 1 January 1970. */
  lemma DayNumberIsGregorian(year: int, month: int, day: int)
    requires year >= 1970 && 0 <= month < 12
    ensures var y, m := if month < 2 then year - 1 else year, (month + 10) % 12;
            DayNumber(year, month, day) == 365 * y + y / 4 - y / 100 + y / 400 + (153 * m + 2) / 5 + day - 1 - 719468
  {
    hide BeforeYear, BeforeMonth, IsLeap;
    BeforeYearIsGregorian(year);
    MonthsInClosedForm(month, year);
    LeapStep(year);
    LeapsAre(if month < 2 then year - 1 else year);
    hide LeapsBefore;
    if month < 2 {
      assert (month + 10) % 12 == month + 10;
    } else {
      assert (month + 10) % 12 == month - 2;
    }
  }

  lemma LeapsAre(y: int)
    ensures LeapsBefore(y + 1) == y / 4 - y / 100 + y / 400 && LeapsBefore(1970) == 477
  {
  }

  lemma {:induction false} MonthsAscend(m: int, n: int, year: int)
    requires 0 <= m < n <= 12
    ensures BeforeMonth(m, year) + DaysOfMonth(m, year) <= BeforeMonth(n, year)
    decreases n
  {
    if m < n - 1 {
      MonthsAscend(m, n - 1, year);
    }
  }

  lemma {:induction false} YearsAscend(y: int, z: int)
    requires 1970 <= y < z
    ensures BeforeYear(y) + DaysOfYear(y) <= BeforeYear(z)
    decreases z
  {
    if y < z - 1 {
      YearsAscend(y, z - 1);
    }
  }

  ghost predicate Earlier(y: int, m: int, d: int, y': int, m': int, d': int) {
    y < y' || (y == y' && (m < m' || (m == m' && d < d')))
  }

  /** Day numbers follow the calendar order. */
  lemma DaysAscend(y: int, m: int, d: int, y': int, m': int, d': int)
    requires IsDate(y, m, d) && IsDate(y', m', d') && Earlier(y, m, d, y', m', d')
    ensures DayNumber(y, m, d) < DayNumber(y', m', d')
  {
    hide DaysOfMonth, DaysOfYear;
    BeforeMonthOfYear(y);
    MonthsAscend(m, 12, y);
    if y < y' {
      YearsAscend(y, y');
    } else if m < m' {
      MonthsAscend(m, m', y);
    }
  }

  // ---- broken-down time ----

  datatype Fields = Fields(sec: int, min: int, hour: int, mday: int, mon: int, year: int, wday: int, yday: int)

  ghost predicate InRange(f: Fields) {
    && 0 <= f.sec < 60 && 0 <= f.min < 60 && 0 <= f.hour < 24
    && IsDate(1900 + f.year, f.mon, f.mday)
  }

  ghost function Seconds(f: Fields): int
    requires f.year >= 70 && 0 <= f.mon < 12
  {
    86400 * DayNumber(1900 + f.year, f.mon, f.mday) + 3600 * f.hour + 60 * f.min + f.sec
  }

  /** `f` is the time `t`: the fields add up to `t`, the day of the year and the weekday (1 January 1970 was a
      Thursday) belong to the date, and from 1970 on every field is in its range. Before 1970 the fields of the
      code are those of January 1970 with values that are zero or negative, and a day of at most 1. */
  ghost predicate IsTime(t: int, f: Fields) {
    && f.year >= 70 && 0 <= f.mon < 12
    && Seconds(f) == t
    && f.yday == BeforeMonth(f.mon, 1900 + f.year) + f.mday - 1
    && f.wday == Remainder(DayNumber(1900 + f.year, f.mon, f.mday) + 4, 7)
    && (t >= 0 ==> InRange(f) && 0 <= f.wday < 7 && 0 <= f.yday < DaysOfYear(1900 + f.year))
    && (t < 0 ==> f.year == 70 && f.mon == 0 && f.sec <= 0 && f.min <= 0 && f.hour <= 0 && f.mday <= 1)
  }

  class Tm {
    var sec: int
    var min: int
    var hour: int
    var mday: int
    var mon: int
    var year: int
    var wday: int
    var yday: int

    function Value(): Fields
      reads this
    {
      Fields(sec, min, hour, mday, mon, year, wday, yday)
    }
  }

  /** The year loop: subtracts whole years. */
  method FindYear(days: int) returns (year: int, rest: int)
    ensures year >= 1970 && rest == days - BeforeYear(year) && rest < DaysOfYear(year)
    ensures if days >= 0 then rest >= 0 else year == 1970
  {
    year, rest := 1970, days;
    while true
      invariant year >= 1970 && rest == days - BeforeYear(year)
      invariant if days >= 0 then rest >= 0 else year == 1970
      decreases rest
    {
      var daysOfYear := DaysOfYear(year);
      if rest < daysOfYear {
        break;
      }
      rest := rest - daysOfYear;
      year := year + 1;
    }
  }

  /** The month loop: subtracts whole months. */
  method FindMonth(yday: int, year: int) returns (month: int, rest: int)
    requires yday < DaysOfYear(year)
    ensures 0 <= month < 12 && rest == yday - BeforeMonth(month, year) && rest < DaysOfMonth(month, year)
    ensures if yday >= 0 then rest >= 0 else month == 0
  {
    BeforeMonthOfYear(year);
    month, rest := 0, yday;
    while true
      invariant 0 <= month < 12 && rest == yday - BeforeMonth(month, year)
      invariant if yday >= 0 then rest >= 0 else month == 0
      decreases 12 - month
    {
      var daysOfMonth := DaysOfMonth(month, year);
      if rest < daysOfMonth {
        break;
      }
      rest := rest - daysOfMonth;
      month := month + 1;
    }
  }

  /** gmtime, into the static structure; a null time gives null. */
  method Gmtime(time: Option<int>, tm: Tm) returns (r: Tm?)
    modifies tm
    ensures time.None? ==> r == null && tm.Value() == old(tm.Value())
    ensures time.Some? ==> r == tm && IsTime(time.value, tm.Value())
  {
    if time.None? {
      return null;
    }
    hide DaysOfMonth, DaysOfYear, BeforeYear, BeforeMonth, Remainder, Quotient, IsTime;
    var t := time.value;
    tm.sec := Remainder(t, 60);
    t := Quotient(t, 60);
    tm.min := Remainder(t, 60);
    t := Quotient(t, 60);
    tm.hour := Remainder(t, 24);
    t := Quotient(t, 24);
    ghost var days := t;
    tm.wday := Remainder(t + 4, 7);
    var year, month;
    year, t := FindYear(t);
    tm.year := year - 1900;
    tm.yday := t;
    month, t := FindMonth(t, year);
    tm.mon := month;
    tm.mday := t + 1;
    TimeAssembled(time.value, days, tm.Value());
    r := tm;
  }

  /** The fields computed one after the other make up the time. */
  lemma TimeAssembled(t: int, days: int, f: Fields)
    requires days == Quotient(Quotient(Quotient(t, 60), 60), 24) && f.year >= 70 && 0 <= f.mon < 12
    requires f.sec == Remainder(t, 60) && f.min == Remainder(Quotient(t, 60), 60) && f.hour == Remainder(Quotient(Quotient(t, 60), 60), 24)
    requires f.wday == Remainder(days + 4, 7)
    requires f.yday == days - BeforeYear(1900 + f.year) < DaysOfYear(1900 + f.year)
    requires f.mday - 1 == f.yday - BeforeMonth(f.mon, 1900 + f.year) < DaysOfMonth(f.mon, 1900 + f.year)
    requires if days >= 0 then f.yday >= 0 else f.year == 70
    requires if f.yday >= 0 then f.mday >= 1 else f.mon == 0
    ensures IsTime(t, f)
  {
    hide DaysOfMonth, DaysOfYear, BeforeYear, BeforeMonth, Remainder, Quotient;
    ClockFields(t);
    WeekdayInRange(days + 4);
    assert days == DayNumber(1900 + f.year, f.mon, f.mday);
    if t < 0 {
      BeforeSeventy(f, days);
    }
  }

  /** Day numbers of at most 0 fall on 1 January 1970 or, for the code, before it in the same month. */
  lemma BeforeSeventy(f: Fields, days: int)
    requires f.year >= 70 && 0 <= f.mon < 12 && days <= 0 && f.yday == days - BeforeYear(1900 + f.year)
    requires f.mday - 1 == f.yday - BeforeMonth(f.mon, 1900 + f.year)
    requires if days >= 0 then f.yday >= 0 else f.year == 70
    requires if f.yday >= 0 then f.mday >= 1 else f.mon == 0
    ensures f.year == 70 && f.mon == 0 && f.mday <= 1
  {
    if f.year > 70 {
      YearsAscend(1970, 1900 + f.year);
    }
    if f.mon > 0 {
      MonthsAscend(0, f.mon, 1900 + f.year);
    }
  }

  /** localtime: gmtime of the time shifted by the configured offset. */
  method Localtime(time: Option<int>, utcOffset: int, tm: Tm) returns (r: Tm?)
    modifies tm
    ensures time.None? ==> r == null && tm.Value() == old(tm.Value())
    ensures time.Some? ==> r == tm && IsTime(time.value + utcOffset, tm.Value())
  {
    if time.None? {
      return null;
    }
    r := Gmtime(Some(time.value + utcOffset), tm);
  }

  lemma WeekdayInRange(n: int)
    ensures n >= 0 ==> 0 <= Remainder(n, 7) < 7
  {
  }

  /** Splitting seconds into days and a time of day, with C's truncation. */
  lemma ClockFields(t: int)
    ensures var m, h, d := Quotient(t, 60), Quotient(Quotient(t, 60), 60), Quotient(Quotient(Quotient(t, 60), 60), 24);
            && t == 86400 * d + 3600 * Remainder(h, 24) + 60 * Remainder(m, 60) + Remainder(t, 60)
            && (t >= 0 ==> d >= 0 && 0 <= Remainder(h, 24) < 24 && 0 <= Remainder(m, 60) < 60 && 0 <= Remainder(t, 60) < 60)
            && (t < 0 ==> d <= 0 && Remainder(h, 24) <= 0 && Remainder(m, 60) <= 0 && Remainder(t, 60) <= 0)
  {
  }

  // ---- mktime ----

  /** The dates mktime accepts. It looks up month lengths with the year counted from 1900, so that 1900 + 100 is not
      a leap year to it. */
  ghost predicate Accepted(f: Fields) {
    && 70 <= f.year <= 139 && 0 <= f.mon <= 11
    && 1 <= f.mday <= DaysOfMonth(f.mon, f.year)
    && 0 <= f.hour <= 23 && 0 <= f.min <= 59 && 0 <= f.sec <= 59
  }

  ghost function MktimeValue(f: Fields): int {
    if !Accepted(f) then -1
    else
      86400 * (BeforeYear(1900 + f.year) + BeforeMonth(f.mon, f.year) + f.mday - 1) + 3600 * f.hour + 60 * f.min + f.sec
  }

  method Mktime(tm: Tm?) returns (result: int)
    ensures tm == null ==> result == -1
    ensures tm != null ==> result == MktimeValue(tm.Value())
  {
    result := 0;
    if tm == null {
      return -1;
    }
    if tm.year < 70 || tm.year > 139 {
      return -1;
    }
    var year := 1970;
    while year < 1900 + tm.year
      invariant 1970 <= year <= 1900 + tm.year && result == BeforeYear(year)
    {
      result := result + DaysOfYear(year);
      year := year + 1;
    }
    if tm.mon < 0 || tm.mon > 11 {
      return -1;
    }
    var month := 0;
    while month < tm.mon
      invariant 0 <= month <= tm.mon && result == BeforeYear(1900 + tm.year) + BeforeMonth(month, tm.year)
    {
      result := result + DaysOfMonth(month, tm.year);
      month := month + 1;
    }
    if tm.mday < 1 || tm.mday > DaysOfMonth(tm.mon, tm.year) {
      return -1;
    }
    result := result + tm.mday - 1;
    result := result * 24;
    if tm.hour < 0 || tm.hour > 23 {
      return -1;
    }
    result := result + tm.hour;
    result := result * 60;
    if tm.min < 0 || tm.min > 59 {
      return -1;
    }
    result := result + tm.min;
    result := result * 60;
    if tm.sec < 0 || tm.sec > 59 {
      return -1;
    }
    result := result + tm.sec;
  }

  /** Counting years from 1900 moves the leap rule at one year of the accepted range only: 2000. */
  lemma LeapRuleShifted(year: int)
    requires 70 <= year <= 139
    ensures IsLeap(year) <==> IsLeap(1900 + year) && year != 100
    ensures IsLeap(2000)
  {
  }

  /** After February 2000 mktime counts one day less. */
  lemma {:induction false} MonthsShifted(month: int, year: int)
    requires 70 <= year <= 139 && 0 <= month <= 12
    ensures BeforeMonth(month, year) == BeforeMonth(month, 1900 + year) - if year == 100 && month >= 2 then 1 else 0
  {
    LeapRuleShifted(year);
    if month > 0 {
      MonthsShifted(month - 1, year);
    }
  }

  /** The days mktime gets wrong. */
  ghost predicate LateIn2000(f: Fields) {
    f.year == 100 && f.mon >= 2
  }

  ghost predicate LeapDay2000(f: Fields) {
    f.year == 100 && f.mon == 1 && f.mday == 29
  }

  /** mktime of a time in range: the time itself, except in 2000 from 29 February on and after 2039. */
  lemma MktimeOfTime(t: int, f: Fields)
    requires IsTime(t, f)
    ensures MktimeValue(f) ==
            if t < 0 || f.year > 139 || LeapDay2000(f) then -1
            else if LateIn2000(f) then t - 86400
            else t
  {
    hide BeforeYear, BeforeMonth;
    if 70 <= f.year <= 139 {
      LeapRuleShifted(f.year);
      MonthsShifted(f.mon, f.year);
    }
    if t < 0 {
      NegativeField(t, f);
    }
  }

  /** Before 1970 some field is out of range. */
  lemma NegativeField(t: int, f: Fields)
    requires IsTime(t, f) && t < 0
    ensures f.sec < 0 || f.min < 0 || f.hour < 0 || f.mday < 1
  {
    assert BeforeYear(1970) == 0 && BeforeMonth(0, 1970) == 0;
  }

  lemma YearStarts()
    ensures BeforeYear(2000) == 10957 && BeforeYear(2001) == 11323 && BeforeYear(2038) == 24837 && BeforeYear(2040) == 25567
    ensures BeforeMonth(0, 2000) == 0 && BeforeMonth(1, 2000) == 31 && BeforeMonth(2, 2000) == 60
  {
    hide BeforeYear, BeforeMonth;
    BeforeYearIsGregorian(2000);
    BeforeYearIsGregorian(2001);
    BeforeYearIsGregorian(2038);
    BeforeYearIsGregorian(2040);
    FirstMonths();
  }

  lemma FirstMonths()
    ensures BeforeMonth(0, 2000) == 0 && BeforeMonth(1, 2000) == 31 && BeforeMonth(2, 2000) == 60
  {
    assert BeforeMonth(1, 2000) == 31;
  }

  /** The exact round trip: mktime undoes gmtime if and only if the time is not after 2039, not before 1970 (save
      for -1, the error value), and not between 29 February and 31 December 2000. */
  lemma RoundTripExact(t: int, f: Fields)
    requires IsTime(t, f)
    ensures MktimeValue(f) == t <==> t == -1 || (0 <= t < 2208988800 && !(951782400 <= t < 978307200))
  {
    MktimeOfTime(t, f);
    if t >= 0 {
      TimeBounds(t, f);
    }
  }

  /** The round trip fails: 29 February 2000 is refused, and 1 March 2000 comes back a day early. */
  lemma RoundTripFails()
    ensures var f := Fields(0, 0, 0, 29, 1, 100, 2, 59); IsTime(951782400, f) && MktimeValue(f) == -1
    ensures var f := Fields(0, 0, 0, 1, 2, 100, 3, 60); IsTime(951868800, f) && MktimeValue(f) == 951782400
  {
    hide IsTime, MktimeValue;
    LeapDayIs();
    FirstOfMarchIs();
    MktimeOfTime(951782400, Fields(0, 0, 0, 29, 1, 100, 2, 59));
    MktimeOfTime(951868800, Fields(0, 0, 0, 1, 2, 100, 3, 60));
  }

  lemma LeapDayIs()
    ensures IsTime(951782400, Fields(0, 0, 0, 29, 1, 100, 2, 59))
  {
    hide BeforeYear, BeforeMonth, DaysOfYear, DaysOfMonth;
    YearStarts();
    FebruaryOf2000(1);
    assert DayNumber(2000, 1, 29) == 11016;
  }

  lemma FirstOfMarchIs()
    ensures IsTime(951868800, Fields(0, 0, 0, 1, 2, 100, 3, 60))
  {
    hide BeforeYear, BeforeMonth, DaysOfYear, DaysOfMonth;
    YearStarts();
    FebruaryOf2000(2);
    assert DayNumber(2000, 2, 1) == 11017;
  }

  /** Where the exceptional dates lie on the time line. */
  lemma TimeBounds(t: int, f: Fields)
    requires IsTime(t, f) && t >= 0
    ensures f.year > 139 <==> t >= 2208988800
    ensures LeapDay2000(f) || LateIn2000(f) <==> 951782400 <= t < 978307200
  {
    hide BeforeYear, BeforeMonth, DaysOfMonth, DaysOfYear;
    var y := 1900 + f.year;
    YearStarts();
    DayInYear(y, f.mon, f.mday);
    if y < 2040 { YearsAscend(y, 2040); }
    if y < 2000 { YearsAscend(y, 2000); }
    if y > 2040 { YearsAscend(2040, y); }
    if y > 2001 { YearsAscend(2001, y); }
    if y == 2000 {
      if f.mon > 2 { MonthsAscend(2, f.mon, y); }
      FebruaryOf2000(f.mon);
    }
  }

  lemma FebruaryOf2000(month: int)
    requires 0 <= month < 12
    ensures month == 0 ==> DaysOfMonth(month, 2000) == 31
    ensures month == 1 ==> DaysOfMonth(month, 2000) == 29
    ensures month == 2 ==> DaysOfMonth(month, 2000) == 31
    ensures DaysOfYear(2000) == 366
  {
  }

  lemma DayInYear(y: int, m: int, d: int)
    requires IsDate(y, m, d)
    ensures BeforeMonth(m, y) + d - 1 < DaysOfYear(y)
  {
    hide DaysOfMonth, DaysOfYear;
    BeforeMonthOfYear(y);
    MonthsAscend(m, 12, y);
  }

  // ---- mktime is strictly increasing ----

  ghost predicate EarlierTime(f: Fields, g: Fields) {
    || Earlier(f.year, f.mon, f.mday, g.year, g.mon, g.mday)
    || ((f.year, f.mon, f.mday) == (g.year, g.mon, g.mday)
        && (f.hour < g.hour || (f.hour == g.hour && (f.min < g.min || (f.min == g.min && f.sec < g.sec)))))
  }

  /** Over all accepted fields, the year 2000 included, a later time has a larger value. */
  lemma MktimeAscends(f: Fields, g: Fields)
    requires Accepted(f) && Accepted(g) && EarlierTime(f, g)
    ensures 0 <= MktimeValue(f) < MktimeValue(g)
  {
    hide BeforeYear, BeforeMonth, DaysOfMonth, DaysOfYear, IsLeap;
    if Earlier(f.year, f.mon, f.mday, g.year, g.mon, g.mday) {
      BeforeMonthOfYear(f.year);
      MonthsAscend(f.mon, 12, f.year);
      LeapRuleShifted(f.year);
      YearLengths(f.year);
      if f.year < g.year {
        YearsAscend(1900 + f.year, 1900 + g.year);
      } else if f.mon < g.mon {
        MonthsAscend(f.mon, g.mon, f.year);
      }
    }
  }

  lemma YearLengths(year: int)
    requires 70 <= year <= 139
    ensures DaysOfYear(year) <= DaysOfYear(1900 + year)
  {
  }

  /** So different accepted times have different values. */
  lemma MktimeInjective(f: Fields, g: Fields)
    requires Accepted(f) && Accepted(g) && MktimeValue(f) == MktimeValue(g)
    ensures (f.year, f.mon, f.mday, f.hour, f.min, f.sec) == (g.year, g.mon, g.mday, g.hour, g.min, g.sec)
  {
    hide MktimeValue, Accepted;
    if EarlierTime(f, g) {
      MktimeAscends(f, g);
    } else if EarlierTime(g, f) {
      MktimeAscends(g, f);
    }
  }

  /** On the 32-bit target the value fits in a signed long exactly up to 19 January 2038, 03:14:07. */
  lemma FitsInLong(f: Fields)
    requires Accepted(f)
    ensures MktimeValue(f) <= 0x7FFF_FFFF <==> !EarlierTime(Fields(7, 14, 3, 19, 0, 138, 0, 0), f)
  {
    var last := Fields(7, 14, 3, 19, 0, 138, 0, 0);
    YearStarts();
    assert DaysOfMonth(0, 138) == 31 && BeforeMonth(0, 138) == 0;
    assert MktimeValue(last) == 0x7FFF_FFFF;
    if EarlierTime(last, f) {
      MktimeAscends(last, f);
    } else if EarlierTime(f, last) {
      MktimeAscends(f, last);
    }
  }

  // ---- gmtime undoes mktime ----

  /** The exact round trip the other way: gmtime of what mktime returns gives the accepted fields back if and only if
      they are not in March to December 2000. There it gives the fields of the day before. */
  lemma GmtimeUndoesMktime(f: Fields, g: Fields)
    requires Accepted(f) && IsTime(MktimeValue(f), g)
    ensures (f.year, f.mon, f.mday, f.hour, f.min, f.sec) == (g.year, g.mon, g.mday, g.hour, g.min, g.sec) <==> !LateIn2000(f)
    ensures LateIn2000(f) ==> Seconds(g) == Seconds(f) - 86400
  {
    hide BeforeYear, BeforeMonth;
    LeapRuleShifted(f.year);
    MonthsShifted(f.mon, f.year);
    if !LateIn2000(f) {
      SameTime(MktimeValue(f), f, g);
    }
  }

  /** A time has only one date and time of day. */
  lemma SameTime(t: int, f: Fields, g: Fields)
    requires InRange(f) && InRange(g) && Seconds(f) == Seconds(g) == t
    ensures (f.year, f.mon, f.mday, f.hour, f.min, f.sec) == (g.year, g.mon, g.mday, g.hour, g.min, g.sec)
  {
    hide DayNumber, IsLeap, DaysOfMonth;
    var d, e := DayNumber(1900 + f.year, f.mon, f.mday), DayNumber(1900 + g.year, g.mon, g.mday);
    assert d == e;
    if Earlier(1900 + f.year, f.mon, f.mday, 1900 + g.year, g.mon, g.mday) {
      DaysAscend(1900 + f.year, f.mon, f.mday, 1900 + g.year, g.mon, g.mday);
    } else if Earlier(1900 + g.year, g.mon, g.mday, 1900 + f.year, f.mon, f.mday) {
      DaysAscend(1900 + g.year, g.mon, g.mday, 1900 + f.year, f.mon, f.mday);
    }
  }
}
