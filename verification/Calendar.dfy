/** The calendar arithmetic of MpcTime, next to the calendar it is meant to implement:
    the Gregorian calendar and the "seconds since the Epoch" expression of
    section 4.16 of IEEE Std 1003.1-2017. */
module Calendar {
  import opened CInt

  /** The six fields of a clock. Fields are plain C ints, so any value is possible;
      -1 marks a field that is not set. */
  datatype Time = Time(year: int, month: int, day: int, hour: int, minute: int, second: int)

  // ----- the reference calendar

  predicate GregorianLeap(year: int) {
    year % 4 == 0 && (year % 100 != 0 || year % 400 == 0)
  }

  function GregorianMonthLength(month: int, year: int): int {
    if month == 2 then (if GregorianLeap(year) then 29 else 28)
    else if month in {4, 6, 9, 11} then 30
    else 31
  }

  /** Days of a common year before each month. */
  function DaysBefore(month: int): int {
    match month
    case 1 => 0 case 2 => 31 case 3 => 59 case 4 => 90 case 5 => 120 case 6 => 151
    case 7 => 181 case 8 => 212 case 9 => 243 case 10 => 273 case 11 => 304 case _ => 334
  }

  /** tm_yday of the standard: days since January 1. */
  function YearDay(year: int, month: int, day: int): int
    requires 1 <= month <= 12
  {
    DaysBefore(month) + (if month > 2 && GregorianLeap(year) then 1 else 0) + day - 1
  }

  /** The day terms of the standard's expression. */
  function PosixDays(year: int, month: int, day: int): int
    requires 1 <= month <= 12
  {
    var tmYear := year - 1900;
    YearDay(year, month, day) + (tmYear - 70) * 365
      + (tmYear - 69) / 4 - (tmYear - 1) / 100 + (tmYear + 299) / 400
  }

  /** Seconds since the Epoch, section 4.16 of IEEE Std 1003.1-2017. */
  function PosixSeconds(t: Time): int
    requires 1 <= t.month <= 12
  {
    t.second + t.minute * 60 + t.hour * 3600 + PosixDays(t.year, t.month, t.day) * 86400
  }

  // ----- what the source computes

  /** C's remainder is zero exactly when Dafny's is, and only zero is asked for. */
  predicate LeapYear(year: int) {
    var modFour := year % 4;
    var modHundred := year % 100;
    (modFour == 0 && modHundred != 0) || (modHundred == 0 && modHundred % 4 == 0)
  }

  function LastDayInMonth(month: int, year: int): int {
    match month
    case 1 => 31 case 3 => 31 case 5 => 31 case 7 => 31 case 8 => 31 case 10 => 31 case 12 => 31
    case 4 => 30 case 6 => 30 case 9 => 30 case 11 => 30
    case 2 => if LeapYear(year) then 29 else 28
    case _ => 0
  }

  predicate IsTimeLegal(t: Time) {
    && 0 <= t.second <= 59
    && 0 <= t.minute <= 59
    && 0 <= t.hour <= 23
    && 1 <= t.day <= LastDayInMonth(t.month, t.year)
    && 1 <= t.month <= 12
    && 2000 <= t.year <= 2099
  }

  /** No field carries the INVALID_DATE / INVALID_TIME mark. */
  predicate IsValid(t: Time) {
    && t.year != -1 && t.month != -1 && t.day != -1
    && t.hour != -1 && t.minute != -1 && t.second != -1
  }

  /** What CalcSecondsSince1Jan1970 adds up for the years 2000 .. year-1. */
  function YearSeconds(year: int): int
    decreases year
  {
    if year <= 2000 then 0
    else YearSeconds(year - 1) + (if LeapYear(year - 1) then 31622400 else 31536000)
  }

  /** What CalcSecondsSince1Jan1970 adds up for the months 1 .. month-1. */
  function MonthSeconds(month: int, year: int): int
    decreases month
  {
    if month <= 1 then 0 else MonthSeconds(month - 1, year) + LastDayInMonth(month - 1, year) * 86400
  }

  /** The sum of CalcSecondsSince1Jan1970, before it is cut to 32 bits. */
  function SummedSeconds(t: Time): int {
    946684800 + YearSeconds(t.year) + MonthSeconds(t.month, t.year)
      + (t.day - 1) * 86400 + t.hour * 3600 + t.minute * 60 + t.second
  }

  // ----- the source against the reference

  /** The leap test of the source is the Gregorian one except in the centuries that the
      400-year rule turns into common years (1900, 2100, ...). */
  lemma LeapYearIsGregorian(year: int)
    ensures LeapYear(year) == GregorianLeap(year) <==> year % 100 != 0 || year % 400 == 0
  {
    LeapYearIsEveryFourth(year);
    assert year % 100 == 0 ==> year % 4 == 0;
    assert year % 400 == 0 ==> year % 100 == 0;
  }

  lemma LeapYearIsEveryFourth(year: int)
    ensures LeapYear(year) <==> year % 4 == 0
  {
    var q, r := year / 100, year % 100;
    DivMod(year, 4, 25 * q + r / 4, r % 4);
  }

  /** On the clock's century the month lengths are the Gregorian ones. */
  lemma MonthLengths(month: int, year: int)
    requires 2000 <= year <= 2099 && 1 <= month <= 12
    ensures LeapYear(year) == GregorianLeap(year)
    ensures LastDayInMonth(month, year) == GregorianMonthLength(month, year)
    ensures 28 <= LastDayInMonth(month, year) <= 31
  {
    LeapYearIsGregorian(year);
  }

  /** Outside that century every fourth year is a leap year, and outside the year there are no days. */
  lemma MonthLengthsEverywhere(month: int, year: int)
    ensures month < 1 || 12 < month ==> LastDayInMonth(month, year) == 0
    ensures month == 2 ==> LastDayInMonth(month, year) == if year % 4 == 0 then 29 else 28
    ensures 1 <= month <= 12 && month != 2 ==> LastDayInMonth(month, year) == GregorianMonthLength(month, year)
  {
    LeapYearIsEveryFourth(year);
  }

  /** A time is legal exactly when it is one of the Gregorian calendar in 2000..2099. */
  lemma LegalExactlyWhen(t: Time)
    ensures IsTimeLegal(t) <==> IsGregorian(t) && 2000 <= t.year <= 2099
  {
    if 2000 <= t.year <= 2099 && 1 <= t.month <= 12 {
      MonthLengths(t.month, t.year);
    }
  }

  /** The sums over no years and no months, and over more than twelve months. */
  lemma SumsOutside(year: int, month: int)
    ensures year <= 2000 ==> YearSeconds(year) == 0
    ensures month <= 1 ==> MonthSeconds(month, year) == 0
    ensures month > 12 ==> MonthSeconds(month, year) == if year % 4 == 0 then 31622400 else 31536000
    decreases month
  {
    LeapYearIsEveryFourth(year);
    if month == 13 {
      MonthsFillYear(year);
    } else if month > 13 {
      SumsOutside(year, month - 1);
    }
  }

  lemma {:induction false} YearSecondsClosed(year: int)
    requires 2000 <= year
    ensures YearSeconds(year) == ((year - 2000) * 365 + (year - 1997) / 4) * 86400
  {
    if year > 2000 {
      YearSecondsClosed(year - 1);
      LeapYearIsEveryFourth(year - 1);
      NextQuarter(year - 1998);
    }
  }

  lemma NextQuarter(x: int)
    ensures (x + 1) / 4 == x / 4 + (if (x + 1) % 4 == 0 then 1 else 0)
  {
  }

  /** Days of a year of the source before the given month. */
  function SourceDaysBefore(month: int, year: int): int {
    DaysBefore(month) + (if month > 2 && year % 4 == 0 then 1 else 0)
  }

  lemma {:induction false} MonthSecondsClosed(month: int, year: int)
    requires 1 <= month <= 12
    ensures MonthSeconds(month, year) == SourceDaysBefore(month, year) * 86400
  {
    if month > 1 {
      MonthSecondsClosed(month - 1, year);
      LeapYearIsEveryFourth(year);
    }
  }

  /** On legal times the loops of CalcSecondsSince1Jan1970 compute the standard's closed
      expression, and the result fits in 32 bits. */
  lemma SummedIsPosix(t: Time)
    requires IsTimeLegal(t)
    ensures SummedSeconds(t) == PosixSeconds(t)
    ensures 946684800 <= PosixSeconds(t) <= 4102444799 < 0x1_0000_0000
  {
    MonthLengths(t.month, t.year);
    SourceRunsAhead(t);
    PosixDaysBounded(t);
  }

  lemma PosixDaysBounded(t: Time)
    requires IsTimeLegal(t)
    ensures 10957 <= PosixDays(t.year, t.month, t.day) <= 47481
  {
    CenturyTermsCancel(t.year);
    YearDayWithinYear(t);
    assert (t.year - 1997) / 4 <= 25;
  }

  lemma CenturyTermsCancel(year: int)
    requires 2000 <= year <= 2099
    ensures (year - 1900 - 1) / 100 == (year - 1900 + 299) / 400
    ensures forall m, d :: 1 <= m <= 12 ==>
      PosixDays(year, m, d) == 10957 + (year - 2000) * 365 + (year - 1997) / 4 + YearDay(year, m, d)
  {
  }

  /** A legal time read back from its seconds: the clock fields are the base-60, base-60,
      base-24 digits, and the rest is the day number. */
  lemma Digits(t: Time)
    requires IsTimeLegal(t)
    ensures var e := PosixSeconds(t);
      && e % 60 == t.second
      && e / 60 % 60 == t.minute
      && e / 3600 % 24 == t.hour
      && e / 86400 == PosixDays(t.year, t.month, t.day)
      && e % 86400 == t.second + t.minute * 60 + t.hour * 3600
  {
    MixedRadix(PosixDays(t.year, t.month, t.day), t.hour, t.minute, t.second);
  }

  lemma MixedRadix(d: int, h: int, m: int, s: int)
    requires 0 <= h < 24 && 0 <= m < 60 && 0 <= s < 60
    ensures var e := s + m * 60 + h * 3600 + d * 86400;
      && e / 60 == (d * 24 + h) * 60 + m && e % 60 == s && e / 60 % 60 == m
      && e / 3600 == d * 24 + h && e / 3600 % 24 == h
      && e / 86400 == d && e % 86400 == s + m * 60 + h * 3600
  {
    var e := s + m * 60 + h * 3600 + d * 86400;
    DivMod(e, 60, (d * 24 + h) * 60 + m, s);
    DivMod((d * 24 + h) * 60 + m, 60, d * 24 + h, m);
    DivMod(e, 3600, d * 24 + h, m * 60 + s);
    DivMod(d * 24 + h, 24, d, h);
    DivMod(e, 86400, d, h * 3600 + m * 60 + s);
  }

  predicate DateBefore(a: Time, b: Time) {
    a.year < b.year || (a.year == b.year && (a.month < b.month || (a.month == b.month && a.day < b.day)))
  }

  lemma YearDayWithinYear(t: Time)
    requires IsTimeLegal(t)
    ensures YearDay(t.year, t.month, t.day) < (if t.year % 4 == 0 then 366 else 365)
  {
    MonthLengths(t.month, t.year);
    LeapYearIsEveryFourth(t.year);
  }

  // ----- from seconds back to fields

  /** First second of a month, on the source's own month and year lengths. */
  function MonthStart(year: int, month: int): int {
    946684800 + YearSeconds(year) + MonthSeconds(month, year)
  }

  predicate Midnight(t: Time) {
    t.hour == 0 && t.minute == 0 && t.second == 0
  }

  /** The first second of some month. */
  predicate OpensMonth(t: Time) {
    t.day == 1 && Midnight(t)
  }

  /** The fields SetSecondsSince1Jan1970 leaves: it only moves on to the next year or month
      while MORE seconds remain than that one has, so the first second of a month is kept as
      the midnight that ends the month before. */
  predicate LateNormal(t: Time) {
    && 2000 <= t.year && 1 <= t.month <= 12
    && 0 <= t.hour <= 23 && 0 <= t.minute <= 59 && 0 <= t.second <= 59
    && 1 <= t.day <= LastDayInMonth(t.month, t.year) + 1
    && (t.day == LastDayInMonth(t.month, t.year) + 1 ==> Midnight(t))
    && !OpensMonth(t)
  }

  lemma MonthsFillYear(year: int)
    ensures MonthSeconds(12, year) + 31 * 86400 == (if LeapYear(year) then 31622400 else 31536000)
  {
    assert MonthSeconds(4, year) == (if LeapYear(year) then 91 else 90) * 86400;
    assert MonthSeconds(7, year) == MonthSeconds(4, year) + 91 * 86400;
    assert MonthSeconds(10, year) == MonthSeconds(7, year) + 92 * 86400;
  }

  /** Months follow each other without gap or overlap. */
  lemma {:induction false} MonthsInOrder(y: int, m: int, y': int, m': int)
    requires 2000 <= y && 1 <= m <= 12 && 1 <= m' <= 12
    requires y < y' || (y == y' && m < m')
    ensures MonthEnd(y, m) <= MonthStart(y', m')
    decreases y', m'
  {
    if m' > 1 {
      MonthMeetsNext(y', m' - 1);
      if y < y' || m < m' - 1 {
        MonthsInOrder(y, m, y', m' - 1);
      }
    } else {
      YearMeetsNext(y' - 1);
      if y < y' - 1 || m < 12 {
        MonthsInOrder(y, m, y' - 1, 12);
      }
    }
  }

  function MonthEnd(year: int, month: int): int {
    MonthStart(year, month) + LastDayInMonth(month, year) * 86400
  }

  lemma MonthMeetsNext(year: int, month: int)
    requires 1 <= month < 12
    ensures MonthStart(year, month) < MonthEnd(year, month) == MonthStart(year, month + 1)
  {
  }

  lemma YearMeetsNext(year: int)
    requires year >= 2000
    ensures MonthStart(year, 12) < MonthEnd(year, 12) == MonthStart(year + 1, 1)
  {
    MonthsFillYear(year);
  }

  lemma DaysIncrease(a: Time, b: Time)
    requires IsTimeLegal(a) && IsTimeLegal(b) && DateBefore(a, b)
    ensures PosixDays(a.year, a.month, a.day) < PosixDays(b.year, b.month, b.day)
  {
    DayStart(a.year, a.month, a.day);
    DayStart(b.year, b.month, b.day);
    if a.year != b.year || a.month != b.month {
      MonthsInOrder(a.year, a.month, b.year, b.month);
    }
  }

  /** First second of a day, counted both ways. */
  lemma DayStart(year: int, month: int, day: int)
    requires IsTimeLegal(Time(year, month, day, 0, 0, 0))
    ensures PosixDays(year, month, day) * 86400 == MonthStart(year, month) + (day - 1) * 86400
  {
    SummedIsPosix(Time(year, month, day, 0, 0, 0));
    WithinMonth(Time(year, month, day, 0, 0, 0));
  }

  /** Seconds since the Epoch name a legal time uniquely. */
  lemma PosixInjective(a: Time, b: Time)
    requires IsTimeLegal(a) && IsTimeLegal(b) && PosixSeconds(a) == PosixSeconds(b)
    ensures a == b
  {
    Digits(a);
    Digits(b);
    if DateBefore(a, b) {
      DaysIncrease(a, b);
    } else if DateBefore(b, a) {
      DaysIncrease(b, a);
    }
  }

  lemma WithinMonth(t: Time)
    ensures SummedSeconds(t) ==
      MonthStart(t.year, t.month) + t.second + t.minute * 60 + t.hour * 3600 + (t.day - 1) * 86400
  {
  }

  /** Two normal forms of the same seconds: they differ exactly for the first second of a month,
      which the late form gives to the month before. */
  lemma LateOrEqual(t: Time, u: Time)
    requires 2000 <= t.year && 1 <= t.month <= 12 && 1 <= t.day <= LastDayInMonth(t.month, t.year)
    requires 0 <= t.hour <= 23 && 0 <= t.minute <= 59 && 0 <= t.second <= 59
    requires LateNormal(u) && SummedSeconds(u) == SummedSeconds(t)
    ensures u == t <==> !OpensMonth(t)
    ensures OpensMonth(t) ==> u.day == LastDayInMonth(u.month, u.year) + 1 && Midnight(u)
  {
    WithinMonth(t);
    WithinMonth(u);
    if u.year == t.year && u.month == t.month {
      MixedRadix(t.day - 1, t.hour, t.minute, t.second);
      MixedRadix(u.day - 1, u.hour, u.minute, u.second);
    } else if u.year < t.year || (u.year == t.year && u.month < t.month) {
      MonthsInOrder(u.year, u.month, t.year, t.month);
    } else {
      MonthsInOrder(t.year, t.month, u.year, u.month);
    }
  }

  // ----- beyond 2099

  /** March 1, 2100: the day after the leap day the Gregorian calendar does not have. */
  const MARCH_2100 := 4107542400

  predicate IsGregorian(t: Time) {
    && 1 <= t.month <= 12 && 1 <= t.day <= GregorianMonthLength(t.month, t.year)
    && 0 <= t.hour <= 23 && 0 <= t.minute <= 59 && 0 <= t.second <= 59
  }

  /** Thirty-two bits of seconds end in 2106. */
  lemma YearOfU32(t: Time)
    requires IsGregorian(t) && 2000 <= t.year && PosixSeconds(t) < 0x1_0000_0000
    ensures t.year <= 2106
  {
    var y := t.year - 1900;
    assert (y - 69) / 4 - (y - 1) / 100 + (y + 299) / 400 >= 0;
    assert PosixDays(t.year, t.month, t.day) >= (y - 70) * 365;
  }

  lemma CenturyTerms(year: int)
    requires 2000 <= year <= 2106
    ensures (year - 1900 + 299) / 400 - (year - 1900 - 1) / 100 == if year <= 2100 then 0 else -1
    ensures GregorianLeap(year) <==> year % 4 == 0 && year != 2100
    ensures (year - 1900 - 69) / 4 == (year - 1997) / 4 + 7
  {
  }

  /** From there on the sum of the source is one day ahead of the standard. */
  lemma SourceRunsAhead(t: Time)
    requires IsGregorian(t) && 2000 <= t.year <= 2106
    ensures SummedSeconds(t) == PosixSeconds(t) + (if PosixSeconds(t) >= MARCH_2100 then 86400 else 0)
    ensures t.day <= LastDayInMonth(t.month, t.year)
  {
    YearSecondsClosed(t.year);
    MonthSecondsClosed(t.month, t.year);
    CenturyTerms(t.year);
    LeapYearIsEveryFourth(t.year);
    AfterMarch2100(t);
    assert YearDay(t.year, t.month, t.day) == SourceDaysBefore(t.month, t.year) + t.day - 1
      - (if t.year == 2100 && t.month > 2 then 1 else 0);
  }

  lemma AfterMarch2100(t: Time)
    requires IsGregorian(t) && 2000 <= t.year <= 2106
    ensures PosixSeconds(t) >= MARCH_2100 <==> t.year > 2100 || (t.year == 2100 && t.month > 2)
  {
    CenturyTerms(t.year);
    assert 0 <= YearDay(t.year, t.month, t.day) <= 365;
    assert PosixDays(t.year, t.month, t.day) >= 47541 <==> t.year > 2100 || (t.year == 2100 && t.month > 2);
  }

  /** Setting a clock from the seconds of any Gregorian time t from 2000 on gives back t exactly
      when t does not open a month and lies before March 1, 2100. From a legal time that opens a
      month it leaves a date past the end of the month before, which is not legal at all. */
  lemma SetFromSecondsExact(t: Time, u: Time)
    requires IsGregorian(t) && 2000 <= t.year && PosixSeconds(t) < 0x1_0000_0000
    requires LateNormal(u) && SummedSeconds(u) == PosixSeconds(t)
    ensures u == t <==> !OpensMonth(t) && PosixSeconds(t) < MARCH_2100
    ensures IsTimeLegal(t) ==> (IsTimeLegal(u) <==> !OpensMonth(t))
    ensures OpensMonth(t) && PosixSeconds(t) < MARCH_2100 ==>
      u.day == LastDayInMonth(u.month, u.year) + 1 && Midnight(u)
  {
    YearOfU32(t);
    SourceRunsAhead(t);
    AfterMarch2100(t);
    if PosixSeconds(t) < MARCH_2100 {
      LateOrEqual(t, u);
    }
  }

  // ----- weekday and day of year

  function DoomsdayMonth(year: int, month: int): int {
    match month
    case 1 => if LeapYear(year) then 32 else 31
    case 2 => if LeapYear(year) then 29 else 28
    case 3 => 7 case 4 => 4 case 5 => 9 case 6 => 6 case 7 => 11
    case 8 => 8 case 9 => 5 case 10 => 10 case 11 => 7 case 12 => 12
    case _ => -1
  }

  function DoomsdayCentury(century: int): int {
    match TruncMod(century, 400)
    case 0 => 2
    case 100 => 0
    case 200 => 5
    case 300 => 3
    case _ => -1
  }

  function Century(year: int): int {
    year - TruncMod(year, 100)
  }

  function DoomsdayOfYear(ddCentury: int, yearInCentury: int): int {
    TruncMod(ddCentury + yearInCentury + TruncDiv(yearInCentury, 4), 7)
  }

  /** mDayOfWeek after CalcWeekday, by the doomsday rule (0 is Sunday); it keeps its old value
      when the month or century is not known. */
  function Weekday(t: Time, stored: int): int {
    var century := Century(t.year);
    DoomsdayWeekday(t.day, DoomsdayMonth(t.year, t.month), DoomsdayCentury(century), t.year - century, stored)
  }

  function DoomsdayWeekday(day: int, ddMonth: int, ddCentury: int, yearInCentury: int, stored: int): int {
    if ddCentury < 0 || ddMonth < 0 then stored
    else
      var x := DaysPastDoomsday(day, ddMonth);
      TruncMod(x + DoomsdayOfYear(ddCentury, yearInCentury), 7)
  }

  /** How many weekdays day lies after the doomsday ddMonth of its month. */
  function DaysPastDoomsday(day: int, ddMonth: int): int {
    var d := if ddMonth > day then 7 - TruncMod(ddMonth - day, 7) + ddMonth else day;
    TruncMod(d - ddMonth, 7)
  }

  lemma DaysPastDoomsdayMod(day: int, ddMonth: int)
    ensures DaysPastDoomsday(day, ddMonth) == (day - ddMonth) % 7
  {
    SumMod7(day - ddMonth, 0, 0);
  }

  /** A year in hundreds and four-hundreds. */
  lemma YearParts(year: int) returns (a: int, b: int, c: int)
    requires 0 <= year
    ensures year == 400 * a + 100 * b + c && 0 <= a && 0 <= b <= 3 && 0 <= c <= 99
  {
    a, b, c := year / 400, year % 400 / 100, year % 400 % 100;
  }

  lemma CenturyOf(year: int, a: int, b: int, c: int)
    requires year == 400 * a + 100 * b + c && 0 <= a && 0 <= b <= 3 && 0 <= c <= 99
    ensures Century(year) == year - c
    ensures DoomsdayCentury(year - c) == (if b == 0 then 2 else if b == 1 then 0 else if b == 2 then 5 else 3)
  {
    TruncModNonNegative(year, 100);
    DivMod(year, 100, 4 * a + b, c);
    TruncModNonNegative(year - c, 400);
    DivMod(year - c, 400, a, 100 * b);
  }

  lemma LeapOf(year: int, a: int, b: int, c: int)
    requires year == 400 * a + 100 * b + c && 0 <= a && 0 <= b <= 3 && 0 <= c <= 99
    ensures year % 4 == c % 4 && (year % 100 == 0 <==> c == 0) && (year % 400 == 0 <==> b == 0 && c == 0)
    ensures LeapYear(year) <==> c % 4 == 0
    ensures GregorianLeap(year) <==> c % 4 == 0 && (c != 0 || b == 0)
  {
    DivMod(year, 4, 100 * a + 25 * b + c / 4, c % 4);
    DivMod(year, 100, 4 * a + b, c);
    DivMod(year, 400, a, 100 * b + c);
    LeapYearIsEveryFourth(year);
  }

  /** The days from 1970 to a year, up to whole weeks. */
  lemma WeeksToYear(year: int, a: int, b: int, c: int)
    requires year == 400 * a + 100 * b + c && 0 <= a && 0 <= b <= 3 && 0 <= c <= 99
    ensures PosixDays(year, 1, 1) == 5 * b + 2 + c + (c + 3) / 4
      - (if c > 0 then 1 else 0) + (if b > 0 || c > 0 then 1 else 0)
      + 7 * (20871 * a + 5217 * b + 52 * c - 102790)
  {
    var y := year - 1900;
    DivMod(y - 69, 4, 100 * a + 25 * b - 493 + (c + 3) / 4, (c + 3) % 4);
    DivMod(y - 1, 100, 4 * a + b - 20 + (if c > 0 then 1 else 0), if c > 0 then c - 1 else 99);
    DivMod(y + 299, 400, a - 5 + (if b > 0 || c > 0 then 1 else 0), if b > 0 || c > 0 then 100 * b + c - 1 else 399);
  }

  /** How far the doomsday DoomsdayMonth names lies from the beginning of its year, up to whole weeks.
      In January and February it goes by the leap test of the source, later by the calendar. */
  lemma DoomsdayAnchor(year: int, month: int) returns (k: int)
    requires 1 <= month <= 12
    ensures DoomsdayMonth(year, month) + YearDay(year, month, 1) + 3
      + (if (if month > 2 then GregorianLeap(year) else LeapYear(year)) then 0 else 1) == 7 * k
    ensures 4 <= DoomsdayMonth(year, month) <= 32
  {
    k := (DoomsdayMonth(year, month) + YearDay(year, month, 1) + 3
      + (if (if month > 2 then GregorianLeap(year) else LeapYear(year)) then 0 else 1)) / 7;
  }

  lemma DoomsdayRule(day: int, dd: int, ddCentury: nat, c: nat, stored: int)
    requires dd >= 0
    ensures DoomsdayWeekday(day, dd, ddCentury, c, stored) == ((day - dd) % 7 + (ddCentury + c + c / 4) % 7) % 7
  {
    DoomsdayOfYearMod(ddCentury, c);
    DaysPastDoomsdayMod(day, dd);
    TruncModNonNegative(DaysPastDoomsday(day, dd) + DoomsdayOfYear(ddCentury, c), 7);
  }

  lemma DoomsdayOfYearMod(ddCentury: nat, c: nat)
    ensures DoomsdayOfYear(ddCentury, c) == (ddCentury + c + c / 4) % 7
  {
    TruncModNonNegative(ddCentury + c + c / 4, 7);
  }

  /** The doomsday rule agrees with counting days from Thursday, January 1, 1970, in the years from 0
      on, exactly outside January and February of the common centuries, which the source takes for
      leap years. The day may lie past the end of its month. */
  lemma WeekdayExactlyWhen(t: Time, stored: int)
    requires 0 <= t.year && 1 <= t.month <= 12
    ensures Weekday(t, stored) == (PosixDays(t.year, t.month, t.day) + 4) % 7
      <==> t.month > 2 || t.year % 100 != 0 || t.year % 400 == 0
  {
    var a, b, c := YearParts(t.year);
    var dd := DoomsdayMonth(t.year, t.month);
    var ddCentury := if b == 0 then 2 else if b == 1 then 0 else if b == 2 then 5 else 3;
    var k := DoomsdayAnchor(t.year, t.month);
    WeekdayParts(t, stored, a, b, c, dd, ddCentury);
    DoomsdayRule(t.day, dd, ddCentury, c, stored);
    DaysApart(t, a, b, c, k, dd, ddCentury, Weekday(t, stored));
  }

  lemma WeekdayParts(t: Time, stored: int, a: int, b: int, c: int, dd: int, ddCentury: int)
    requires t.year == 400 * a + 100 * b + c && 0 <= a && 0 <= b <= 3 && 0 <= c <= 99
    requires dd == DoomsdayMonth(t.year, t.month)
    requires ddCentury == if b == 0 then 2 else if b == 1 then 0 else if b == 2 then 5 else 3
    ensures Weekday(t, stored) == DoomsdayWeekday(t.day, dd, ddCentury, c, stored)
  {
    CenturyOf(t.year, a, b, c);
    assert t.year - Century(t.year) == c;
  }

  /** The rule and the count of days, as whole numbers: they differ by whole weeks, and by one day
      more in those months. */
  lemma DaysApart(t: Time, a: int, b: int, c: int, k: int, dd: int, ddCentury: int, weekday: int)
    requires 1 <= t.month <= 12
    requires t.year == 400 * a + 100 * b + c && 0 <= a && 0 <= b <= 3 && 0 <= c <= 99
    requires ddCentury == if b == 0 then 2 else if b == 1 then 0 else if b == 2 then 5 else 3
    requires dd + YearDay(t.year, t.month, 1) + 3
      + (if (if t.month > 2 then GregorianLeap(t.year) else LeapYear(t.year)) then 0 else 1) == 7 * k
    requires weekday == ((t.day - dd) % 7 + (ddCentury + c + c / 4) % 7) % 7
    ensures weekday == (PosixDays(t.year, t.month, t.day) + 4) % 7
      <==> t.month > 2 || t.year % 100 != 0 || t.year % 400 == 0
  {
    LeapOf(t.year, a, b, c);
    WeeksToYear(t.year, a, b, c);
    var weeks := 20871 * a + 5217 * b + 52 * c - 102790 + k + (if b < 1 then 0 else if b < 3 then 1 else 2);
    var late := if t.month > 2 || c != 0 || b == 0 then 0 else 1;
    var rule := t.day - dd + (ddCentury + c + c / 4);
    var days := PosixDays(t.year, t.month, t.day) + 4;
    assert days == PosixDays(t.year, 1, 1) + YearDay(t.year, t.month, 1) + t.day + 3;
    assert (c + 3) / 4 == c / 4 + (if c % 4 == 0 then 0 else 1);
    assert days == rule + late + 7 * weeks;
    SumMod7(t.day - dd, ddCentury + c + c / 4, 0);
    OneDayOff(rule, late, weeks);
  }

  lemma OneDayOff(rule: int, late: int, weeks: int)
    requires late == 0 || late == 1
    ensures rule % 7 == (rule + late + 7 * weeks) % 7 <==> late == 0
  {
    SumMod7(rule, late, weeks);
  }

  /** In particular on every legal time. */
  lemma WeekdayCountsDays(t: Time, stored: int)
    requires IsTimeLegal(t)
    ensures Weekday(t, stored) == (PosixDays(t.year, t.month, t.day) + 4) % 7
  {
    WeekdayExactlyWhen(t, stored);
    NotCommonCentury(t.year);
  }

  lemma NotCommonCentury(year: int)
    requires 2000 <= year <= 2099
    ensures year % 100 != 0 || year % 400 == 0
  {
  }

  /** In no month at all the day of the week stays what it was. */
  lemma WeekdayUnknown(t: Time, stored: int)
    requires t.month < 1 || 12 < t.month
    ensures Weekday(t, stored) == stored
  {
  }

  lemma TruncModNonNegative(a: int, b: int)
    requires a >= 0 && b > 0
    ensures TruncMod(a, b) == a % b
  {
  }

  lemma SumMod7(a: int, b: int, k: int)
    requires b >= 0
    ensures (a % 7 + b % 7) % 7 == (a + b + 7 * k) % 7
    ensures a < 0 ==> (7 - (-a) % 7) % 7 == a % 7
  {
    var q, r := (a % 7 + b % 7) / 7, (a % 7 + b % 7) % 7;
    DivMod(a + b + 7 * k, 7, a / 7 + b / 7 + k + q, r);
    if a < 0 {
      var n := -a;
      if n % 7 == 0 {
        DivMod(a, 7, -(n / 7), 0);
      } else {
        DivMod(a, 7, -(n / 7) - 1, 7 - n % 7);
      }
    }
  }

  /** mDayOfYear after CalcDayOfYear, which adds the length of the CURRENT month once for each
      earlier month. */
  function DayOfYear(t: Time): int {
    (if t.month <= 1 then 0 else (t.month - 1) * LastDayInMonth(t.month, t.year)) + t.day
  }

  /** So it is the day of the year in January and in the April of a common year only. */
  lemma DayOfYearExactlyWhen(t: Time)
    requires IsTimeLegal(t)
    ensures DayOfYear(t) == YearDay(t.year, t.month, t.day) + 1
      <==> t.month == 1 || (t.month == 4 && !LeapYear(t.year))
  {
    MonthLengths(t.month, t.year);
  }
}
