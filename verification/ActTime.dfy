/** The running clock: ActTime together with the parts of its base class MpcTime it uses.
    Semaphores are left out (every operation is atomic) and NotifyObservers is counted. */
module Clocks {
  import opened CInt
  import opened Calendar

  datatype TimeType = SECONDS | MINUTES | HOURS | SECONDS_SINCE_MIDNIGHT
  datatype DateType = DAY_OF_WEEK | DAY | MONTH | YEAR

  /** The last second the fields can show. */
  const LAST_TIME := Time(2099, 12, 31, 23, 59, 59)
  const FIRST_TIME := Time(2000, 1, 1, 0, 0, 0)

  // ----- one tick, as a function of the state

  /** The fields and the independent counter mSecSince1970, a C int. */
  datatype ClockState = ClockState(fields: Time, sec: I32)

  /** The carry chain of IncSec. */
  function Carry(t: Time): Time {
    if t.second < 59 then t.(second := t.second + 1)
    else if t.minute < 59 then t.(second := 0, minute := t.minute + 1)
    else if t.hour < 23 then t.(second := 0, minute := 0, hour := t.hour + 1)
    else if t.day < LastDayInMonth(t.month, t.year) then t.(second := 0, minute := 0, hour := 0, day := t.day + 1)
    else if t.month < 12 then Time(t.year, t.month + 1, 1, 0, 0, 0)
    else Time(t.year + 1, 1, 1, 0, 0, 0)
  }

  function Limit(t: Time): Time {
    if t.year > 2099 || t.year == 1900 then LAST_TIME
    else if t.year < 2000 then FIRST_TIME
    else t
  }

  /** Years that can be shown are left alone; others become the last or the first second. */
  lemma LimitExactly(t: Time)
    ensures 2000 <= t.year <= 2099 ==> Limit(t) == t
    ensures t.year > 2099 || t.year == 1900 ==> Limit(t) == Time(2099, 12, 31, 23, 59, 59)
    ensures t.year < 2000 && t.year != 1900 ==> Limit(t) == Time(2000, 1, 1, 0, 0, 0)
  {
  }

  function Tick(c: ClockState): ClockState {
    if IsValid(c.fields)
    then ClockState(Limit(Carry(c.fields)), ToI32(c.sec + 1))
    else ClockState(Limit(c.fields), c.sec)
  }

  function Ticks(c: ClockState, n: nat): ClockState {
    if n == 0 then c else Tick(Ticks(c, n - 1))
  }

  /** The counter, read as GetSecondsSince1Jan1970 returns it, is the time the fields show. */
  predicate Agree(c: ClockState) {
    IsTimeLegal(c.fields) && ToU32(c.sec) == PosixSeconds(c.fields)
  }

  // ----- properties of ticking

  lemma LastSecond()
    ensures PosixSeconds(LAST_TIME) == SummedSeconds(LAST_TIME) == 4102444799
    ensures IsTimeLegal(LAST_TIME) && IsValid(LAST_TIME)
    ensures PosixSeconds(FIRST_TIME) == 946684800
  {
    assert YearDay(2099, 12, 31) == 364;
    SummedIsPosix(LAST_TIME);
  }

  /** The carry chain adds one second, in every year the clock could be in. */
  lemma CarryAddsOne(t: Time)
    requires 2000 <= t.year && 1 <= t.month <= 12 && 1 <= t.day <= LastDayInMonth(t.month, t.year)
    requires 0 <= t.hour <= 23 && 0 <= t.minute <= 59 && 0 <= t.second <= 59
    ensures SummedSeconds(Carry(t)) == SummedSeconds(t) + 1
  {
    WithinMonth(t);
    if ClosesMonth(t) {
      CarryRollsMonth(t);
    } else {
      CarryWithinMonth(t);
      WithinMonth(Carry(t));
    }
  }

  /** A day past the end of its month, as SetSecondsSince1Jan1970 can leave it, runs on for its day and
      is then followed by the first of the next month: the days past the end are lost. */
  lemma LateDayIsLost(t: Time)
    requires 2000 <= t.year && 1 <= t.month <= 12 && LastDayInMonth(t.month, t.year) < t.day
    requires 0 <= t.hour <= 23 && 0 <= t.minute <= 59 && 0 <= t.second <= 59
    ensures var late := t.day - LastDayInMonth(t.month, t.year);
      SummedSeconds(Carry(t)) == SummedSeconds(t) + 1
        - (if t.hour == 23 && t.minute == 59 && t.second == 59 then late * 86400 else 0)
  {
    WithinMonth(t);
    WithinMonth(Carry(t));
    if t.month < 12 {
      MonthMeetsNext(t.year, t.month);
    } else {
      YearMeetsNext(t.year);
    }
  }

  /** The last second of a month. */
  predicate ClosesMonth(t: Time) {
    t.day == LastDayInMonth(t.month, t.year) && t.hour == 23 && t.minute == 59 && t.second == 59
  }

  lemma CarryWithinMonth(t: Time)
    requires 1 <= t.day <= LastDayInMonth(t.month, t.year) && !ClosesMonth(t)
    requires 0 <= t.hour <= 23 && 0 <= t.minute <= 59 && 0 <= t.second <= 59
    ensures var n := Carry(t);
      && n.year == t.year && n.month == t.month
      && n.second + n.minute * 60 + n.hour * 3600 + n.day * 86400
        == t.second + t.minute * 60 + t.hour * 3600 + t.day * 86400 + 1
  {
  }

  lemma CarryRollsMonth(t: Time)
    requires 2000 <= t.year && 1 <= t.month <= 12 && ClosesMonth(t)
    ensures SummedSeconds(Carry(t)) == MonthEnd(t.year, t.month) == SummedSeconds(t) + 1
  {
    WithinMonth(t);
    WithinMonth(Carry(t));
    if t.month < 12 {
      MonthMeetsNext(t.year, t.month);
    } else {
      YearMeetsNext(t.year);
    }
  }

  lemma CarryStaysLegal(t: Time)
    requires IsTimeLegal(t)
    ensures IsTimeLegal(Carry(t)) || Carry(t) == Time(2100, 1, 1, 0, 0, 0)
    ensures Carry(t) == Time(2100, 1, 1, 0, 0, 0) <==> t == LAST_TIME
  {
    if t.month < 12 {
      MonthLengths(t.month + 1, t.year);
    }
  }

  /** The carry chain and LimitTime step from each legal time to the time one second later,
      except that the last second of 2099 stays. */
  lemma CarryIsNextSecond(t: Time)
    requires IsTimeLegal(t)
    ensures IsTimeLegal(Limit(Carry(t)))
    ensures PosixSeconds(t) < PosixSeconds(LAST_TIME) ==> PosixSeconds(Limit(Carry(t))) == PosixSeconds(t) + 1
    ensures t == LAST_TIME <==> PosixSeconds(t) >= PosixSeconds(LAST_TIME)
    ensures t == LAST_TIME ==> Limit(Carry(t)) == LAST_TIME
  {
    LastSecond();
    SummedIsPosix(t);
    CarryStaysLegal(t);
    if t != LAST_TIME {
      if PosixSeconds(t) == PosixSeconds(LAST_TIME) {
        PosixInjective(t, LAST_TIME);
      }
      CarryAddsOne(t);
      SummedIsPosix(Carry(t));
    }
  }

  /** The counter advances by one, modulo 2^32, whatever the fields do. */
  lemma CounterTicks(c: ClockState)
    requires IsValid(c.fields)
    ensures ToU32(Tick(c).sec) == ToU32(c.sec + 1)
  {
    AddU32(c.sec + 1, 0);
  }

  lemma LegalIsValid(t: Time)
    requires IsTimeLegal(t)
    ensures IsValid(t)
  {
  }

  lemma FitsU32(t: Time)
    requires IsTimeLegal(t)
    ensures ToU32(PosixSeconds(t)) == PosixSeconds(t) <= PosixSeconds(LAST_TIME) == 4102444799
  {
    SummedIsPosix(t);
    LastSecond();
  }

  /** The second a clock shows n ticks after showing second e: it stops at the last one. */
  function Shown(e: int, n: nat): int {
    if e + n <= PosixSeconds(LAST_TIME) then e + n else PosixSeconds(LAST_TIME)
  }

  /** Legal fields and a counter, n ticks after second e and counter sec. */
  predicate Later(c: ClockState, e: int, sec: int, n: nat) {
    IsTimeLegal(c.fields) && PosixSeconds(c.fields) == Shown(e, n) && ToU32(c.sec) == ToU32(sec + n)
  }

  /** From any legal fields, with any counter at all, n ticks lead to legal fields n seconds later,
      or to the last second, and add n to the counter modulo 2^32. */
  lemma {:induction false} RunFromLegal(c: ClockState, n: nat)
    requires IsTimeLegal(c.fields)
    ensures Later(Ticks(c, n), PosixSeconds(c.fields), c.sec, n)
  {
    var e := PosixSeconds(c.fields);
    FitsU32(c.fields);
    if n > 0 {
      var d := Ticks(c, n - 1);
      RunFromLegal(c, n - 1);
      OneMoreTick(d, e, c.sec, n - 1);
      assert Later(Tick(d), e, c.sec, n);
    }
  }

  lemma OneMoreTick(c: ClockState, e: int, sec: int, n: nat)
    requires Later(c, e, sec, n) && e <= PosixSeconds(LAST_TIME)
    ensures Later(Tick(c), e, sec, n + 1)
  {
    LegalIsValid(c.fields);
    CarryIsNextSecond(c.fields);
    CounterTicks(c);
    AddU32(c.sec, 1);
    AddU32(sec + n, 1);
  }

  /** Two 32-bit counts are n apart exactly when the true ones are. */
  lemma SameAfter(sec: int, e: int, n: int)
    requires 0 <= e <= e + n < 0x1_0000_0000
    ensures ToU32(sec + n) == e + n <==> ToU32(sec) == e
  {
    AddU32(sec, n);
    AddU32(sec + n, -n);
  }

  /** Up to the end of 2099 a run neither loses nor gains agreement, whatever it starts from. */
  lemma AgreesExactlyWhen(c: ClockState, n: nat)
    requires IsTimeLegal(c.fields) && PosixSeconds(c.fields) + n <= PosixSeconds(LAST_TIME)
    ensures Agree(Ticks(c, n)) <==> Agree(c)
  {
    RunFromLegal(c, n);
    AgreesLater(c, Ticks(c, n), n);
  }

  lemma AgreesLater(c: ClockState, d: ClockState, n: nat)
    requires IsTimeLegal(c.fields) && PosixSeconds(c.fields) + n <= PosixSeconds(LAST_TIME)
    requires Later(d, PosixSeconds(c.fields), c.sec, n)
    ensures Agree(d) <==> Agree(c)
  {
    FitsU32(c.fields);
    PosixNotNegative(c.fields);
    SameAfter(c.sec, PosixSeconds(c.fields), n);
  }

  lemma PosixNotNegative(t: Time)
    requires IsTimeLegal(t)
    ensures 0 <= PosixSeconds(t)
  {
    SummedIsPosix(t);
  }

  /** Over any number of ticks before the end of 2099 the fields stay legal, show exactly n
      seconds later, and equal the counter, which does not overflow 32 unsigned bits. */
  lemma RunOfTicks(c: ClockState, n: nat)
    requires Agree(c)
    requires PosixSeconds(c.fields) + n <= PosixSeconds(LAST_TIME)
    ensures Agree(Ticks(c, n))
    ensures PosixSeconds(Ticks(c, n).fields) == PosixSeconds(c.fields) + n < 0x1_0000_0000
  {
    RunFromLegal(c, n);
    FitsU32(c.fields);
    AgreesExactlyWhen(c, n);
  }

  lemma TickAgrees(c: ClockState)
    ensures Agree(c) && PosixSeconds(c.fields) < PosixSeconds(LAST_TIME) ==>
      Agree(Tick(c)) && PosixSeconds(Tick(c).fields) == PosixSeconds(c.fields) + 1
  {
    if Agree(c) && PosixSeconds(c.fields) < PosixSeconds(LAST_TIME) {
      assert Ticks(c, 1) == Tick(Ticks(c, 0));
      RunOfTicks(c, 1);
    }
  }

  /** At the end of 2099 the fields freeze while the counter runs on, so fields and counter agree
      exactly while the run ends by then, or when the counter has wrapped around to that second. */
  lemma SaturationExactlyAtEnd(c: ClockState, n: nat)
    requires Agree(c)
    ensures var e, last := PosixSeconds(c.fields), PosixSeconds(LAST_TIME);
      && (Agree(Ticks(c, n)) <==> e + n <= last || ToU32(e + n) == last)
      && (e + n >= last ==> Ticks(c, n).fields == LAST_TIME)
      && ToU32(Ticks(c, n).sec) == ToU32(e + n)
  {
    RunFromLegal(c, n);
    AgreesAtEnd(c, Ticks(c, n), n);
  }

  lemma AgreesAtEnd(c: ClockState, d: ClockState, n: nat)
    requires Agree(c) && Later(d, PosixSeconds(c.fields), c.sec, n)
    ensures var e, last := PosixSeconds(c.fields), PosixSeconds(LAST_TIME);
      && (Agree(d) <==> e + n <= last || ToU32(e + n) == last)
      && (e + n >= last ==> d.fields == LAST_TIME)
      && ToU32(d.sec) == ToU32(e + n)
  {
    AddU32(c.sec, n);
    LastSecond();
    FitsU32(d.fields);
    if PosixSeconds(c.fields) + n >= PosixSeconds(LAST_TIME) {
      PosixInjective(d.fields, LAST_TIME);
    }
  }

  lemma {:induction false} FirstTick(c: ClockState, n: nat)
    ensures Ticks(c, n + 1) == Ticks(Tick(c), n)
  {
    if n > 0 {
      FirstTick(c, n - 1);
    } else {
      assert Ticks(c, 1) == Tick(Ticks(c, 0));
    }
  }

  const UNSET := Time(-1, -1, -1, -1, -1, -1)

  /** A clock that was never set runs all the same: its first tick shows the first second of 2000
      with counter 0, and from then on it disagrees with its counter until the end of 2099. */
  lemma UnsetClockDisagrees(n: nat)
    requires PosixSeconds(FIRST_TIME) + n <= PosixSeconds(LAST_TIME)
    ensures Tick(ClockState(UNSET, 0)) == ClockState(FIRST_TIME, 0)
    ensures var c := Ticks(ClockState(UNSET, 0), n + 1);
      IsTimeLegal(c.fields) && PosixSeconds(c.fields) == PosixSeconds(FIRST_TIME) + n && !Agree(c)
  {
    var c := ClockState(FIRST_TIME, 0);
    FirstTick(ClockState(UNSET, 0), n);
    assert IsTimeLegal(FIRST_TIME);
    SummedIsPosix(FIRST_TIME);
    RunFromLegal(c, n);
    AgreesExactlyWhen(c, n);
  }

  // ----- the clock object

  /** time += x on a U32 that holds a sum modulo 2^32. */
  method AddMod(time: U32, x: int, ghost sum: int) returns (r: U32)
    requires time == ToU32(sum)
    ensures r == ToU32(sum + x)
  {
    AddU32(sum, x);
    r := ToU32(time + x);
  }

  /** The loop over the years. */
  method AddYears(year: int) returns (time: U32)
    ensures time == ToU32(946684800 + YearSeconds(year))
  {
    time := 946684800;
    var i := 2000;
    while i < year
      invariant 2000 <= i && (i <= year || i == 2000)
      invariant time == ToU32(946684800 + YearSeconds(i))
    {
      time := AddMod(time, if LeapYear(i) then 31622400 else 31536000, 946684800 + YearSeconds(i));
      i := i + 1;
    }
  }

  /** The loop over the months. */
  method AddMonths(start: U32, month: int, year: int, ghost sum: int) returns (time: U32)
    requires start == ToU32(sum)
    ensures time == ToU32(sum + MonthSeconds(month, year))
  {
    time := start;
    var i := 1;
    while i < month
      invariant 1 <= i && (i <= month || i == 1)
      invariant time == ToU32(sum + MonthSeconds(i, year))
    {
      time := AddMod(time, LastDayInMonth(i, year) * 86400, sum + MonthSeconds(i, year));
      i := i + 1;
    }
  }

  /** Takes off whole years while more seconds remain than the next one has. */
  method FindYear(seconds: nat) returns (year: int, rest: nat)
    requires seconds > 0
    ensures 2000 <= year && rest == seconds - YearSeconds(year)
    ensures 0 < rest <= if LeapYear(year) then 31622400 else 31536000
  {
    rest := seconds;
    year := 2000;
    var found := false;
    while !found
      invariant 2000 <= year && 0 < rest && rest == seconds - YearSeconds(year)
      invariant found ==> rest <= if LeapYear(year) then 31622400 else 31536000
      decreases !found, rest
    {
      var y_s := if LeapYear(year) then 31622400 else 31536000;
      if rest > y_s {
        rest := rest - y_s;
        year := year + 1;
      } else {
        found := true;
      }
    }
  }

  /** Takes off whole months in the same way. */
  method FindMonth(seconds: nat, year: int) returns (month: int, rest: nat)
    requires 0 < seconds <= if LeapYear(year) then 31622400 else 31536000
    ensures 1 <= month <= 12 && rest == seconds - MonthSeconds(month, year)
    ensures 0 < rest <= LastDayInMonth(month, year) * 86400
  {
    MonthsFillYear(year);
    rest := seconds;
    month := 1;
    var found := false;
    while !found
      invariant 1 <= month <= 12 && 0 < rest && rest == seconds - MonthSeconds(month, year)
      invariant found ==> rest <= LastDayInMonth(month, year) * 86400
      decreases !found, rest
    {
      var m_s := LastDayInMonth(month, year) * 86400;
      if rest > m_s {
        rest := rest - m_s;
        month := month + 1;
      } else {
        found := true;
      }
    }
  }

  /** Cutting the seconds left in a month into day, hour, minute and second. */
  lemma SplitSeconds(t: Time, rest: int)
    requires 2000 <= t.year && 1 <= t.month <= 12 && 0 < rest <= LastDayInMonth(t.month, t.year) * 86400
    requires 0 <= t.hour <= 23 && 0 <= t.minute <= 59 && 0 <= t.second <= 59
    requires rest == (t.day - 1) * 86400 + t.hour * 3600 + t.minute * 60 + t.second
    ensures LateNormal(t) && SummedSeconds(t) == MonthStart(t.year, t.month) + rest
  {
    WithinMonth(t);
  }

  lemma CounterOfSum(t: Time, sec: I32, time: U32)
    requires sec == ToI32(time)
    requires time == if IsValid(t) then ToU32(SummedSeconds(t)) else 0
    ensures ToU32(sec) == time
    ensures IsTimeLegal(t) ==> Agree(ClockState(t, sec))
  {
    StoredU32(time);
    if IsTimeLegal(t) {
      LegalIsValid(t);
      SummedIsPosix(t);
      FitsU32(t);
    }
  }

  class ActTime {
    var mHours: int
    var mMinutes: int
    var mSecunds: int
    var mDay: int
    var mMonth: int
    var mYear: int
    var mDayOfWeek: int
    var mDayOfYear: int
    var mSecSince1970: I32
    /** How often NotifyObservers has been called. */
    var notified: nat

    function Fields(): Time
      reads this
    {
      Time(mYear, mMonth, mDay, mHours, mMinutes, mSecunds)
    }

    function State(): ClockState
      reads this
    {
      ClockState(Fields(), mSecSince1970)
    }

    /** MpcTime(bool currentTime) with currentTime false: nothing is set. */
    constructor ()
      ensures State() == ClockState(UNSET, 0)
      ensures mDayOfWeek == -1 && notified == 0
    {
      mHours, mMinutes, mSecunds := -1, -1, -1;
      mYear, mMonth, mDay, mDayOfWeek := -1, -1, -1, -1;
      mDayOfYear, mSecSince1970, notified := 0, 0, 0;
    }

    /** The counter becomes the standard's value on legal times, the plain 32-bit sum on other
        set fields, and 0 when a field is not set. */
    method CalcSecondsSince1Jan1970()
      modifies `mSecSince1970
      ensures ToU32(mSecSince1970) == if IsValid(Fields()) then ToU32(SummedSeconds(Fields())) else 0
      ensures IsTimeLegal(Fields()) ==> Agree(State())
    {
      var time: U32 := 0;
      if IsValid(Fields()) {
        time := AddYears(mYear);
        ghost var sum := 946684800 + YearSeconds(mYear);
        time := AddMonths(time, mMonth, mYear, sum);
        sum := sum + MonthSeconds(mMonth, mYear);
        time := AddMod(time, (mDay - 1) * 86400, sum);
        time := AddMod(time, mHours * 3600, sum + (mDay - 1) * 86400);
        time := AddMod(time, mMinutes * 60, sum + (mDay - 1) * 86400 + mHours * 3600);
        time := AddMod(time, mSecunds, sum + (mDay - 1) * 86400 + mHours * 3600 + mMinutes * 60);
      }
      mSecSince1970 := ToI32(time);
      CounterOfSum(Fields(), mSecSince1970, time);
    }

    method LimitTime()
      modifies `mYear, `mMonth, `mDay, `mHours, `mMinutes, `mSecunds
      ensures Fields() == Limit(old(Fields()))
    {
      if mYear > 2099 {
        mYear, mMonth, mDay, mHours, mMinutes, mSecunds := 2099, 12, 31, 23, 59, 59;
      } else if mYear == 1900 {
        mYear, mMonth, mDay, mHours, mMinutes, mSecunds := 2099, 12, 31, 23, 59, 59;
      } else if mYear < 2000 {
        mYear, mMonth, mDay, mHours, mMinutes, mSecunds := 2000, 1, 1, 0, 0, 0;
      }
    }

    /** The carry chain of IncSec. */
    method CarrySecond()
      modifies `mYear, `mMonth, `mDay, `mHours, `mMinutes, `mSecunds
      ensures Fields() == Carry(old(Fields()))
    {
      mSecunds := mSecunds + 1;
      if mSecunds > 59 {
        mSecunds := 0;
        mMinutes := mMinutes + 1;
        if mMinutes > 59 {
          mMinutes := 0;
          mHours := mHours + 1;
          if mHours > 23 {
            mHours := 0;
            mDay := mDay + 1;
            if mDay > LastDayInMonth(mMonth, mYear) {
              mDay := 1;
              mMonth := mMonth + 1;
              if mMonth > 12 {
                mMonth := 1;
                mYear := mYear + 1;
              }
            }
          }
        }
      }
    }

    /** One second passes: Tick in every state; on an agreeing clock before the end of 2099
        that is the legal time one second later, with the counter still agreeing. */
    method IncSec() returns (ret_val: bool)
      modifies `mYear, `mMonth, `mDay, `mHours, `mMinutes, `mSecunds, `mSecSince1970, `notified
      ensures ret_val == IsValid(old(Fields()))
      ensures ret_val <==>
        old(mYear != -1 && mMonth != -1 && mDay != -1 && mHours != -1 && mMinutes != -1 && mSecunds != -1)
      ensures !ret_val ==> mSecSince1970 == old(mSecSince1970)
      ensures State() == Tick(old(State()))
      ensures Agree(old(State())) && PosixSeconds(old(Fields())) < PosixSeconds(LAST_TIME) ==>
        Agree(State()) && PosixSeconds(Fields()) == PosixSeconds(old(Fields())) + 1
      ensures notified == old(notified) + 1
    {
      ghost var c := State();
      if IsValid(Fields()) {
        ret_val := true;
        mSecSince1970 := ToI32(mSecSince1970 + 1);
        CarrySecond();
      } else {
        ret_val := false;
      }
      LimitTime();
      notified := notified + 1;
      TickAgrees(c);
    }

    /** Copies a time into the clock; reading its day of week recomputes that. Whenever what
        LimitTime leaves is a legal time the clock starts out agreeing with its counter. */
    method Set(tempObj: ActTime)
      modifies this, tempObj`mDayOfWeek
      ensures Fields() == Limit(old(tempObj.Fields()))
      ensures mDayOfWeek == Weekday(old(tempObj.Fields()), old(tempObj.mDayOfWeek))
      ensures IsTimeLegal(Fields()) ==> Agree(State())
      ensures ToU32(mSecSince1970) == if IsValid(Fields()) then ToU32(SummedSeconds(Fields())) else 0
      ensures mDayOfYear == old(mDayOfYear) && notified == old(notified) + 1
    {
      mHours, mMinutes, mSecunds := tempObj.mHours, tempObj.mMinutes, tempObj.mSecunds;
      mDay, mMonth, mYear := tempObj.mDay, tempObj.mMonth, tempObj.mYear;
      tempObj.CalcWeekday();
      mDayOfWeek := tempObj.mDayOfWeek;
      LimitTime();
      CalcSecondsSince1Jan1970();
      notified := notified + 1;
    }

    /** SECONDS_SINCE_MIDNIGHT splits any number of seconds into fields that add up to it. */
    method SetTime(kind: TimeType, time: int)
      modifies `mHours, `mMinutes, `mSecunds, `mSecSince1970, `notified
      ensures match kind
        case SECONDS => Fields() == old(Fields()).(second := time)
        case MINUTES => Fields() == old(Fields()).(minute := time)
        case HOURS => Fields() == old(Fields()).(hour := time)
        case SECONDS_SINCE_MIDNIGHT =>
          && mHours * 3600 + mMinutes * 60 + mSecunds == time
          && (0 <= time ==> 0 <= mMinutes < 60 && 0 <= mSecunds < 60)
          && (time <= 0 ==> -60 < mMinutes <= 0 && -60 < mSecunds <= 0)
      ensures ToU32(mSecSince1970) == if IsValid(Fields()) then ToU32(SummedSeconds(Fields())) else 0
      ensures IsTimeLegal(Fields()) ==> Agree(State())
      ensures notified == old(notified) + (if kind == SECONDS then 1 else 0)
    {
      match kind {
        case SECONDS =>
          mSecunds := time;
          notified := notified + 1;
        case MINUTES =>
          mMinutes := time;
        case HOURS =>
          mHours := time;
        case SECONDS_SINCE_MIDNIGHT =>
          mHours := TruncDiv(time, 3600);
          mMinutes := TruncDiv(time - mHours * 3600, 60);
          mSecunds := time - mHours * 3600 - mMinutes * 60;
      }
      CalcSecondsSince1Jan1970();
    }

    method SetDate(kind: DateType, value: int)
      modifies `mDay, `mMonth, `mYear, `mDayOfWeek, `mSecSince1970
      ensures match kind
        case DAY => Fields() == old(Fields()).(day := value) && mDayOfWeek == old(mDayOfWeek)
        case MONTH => Fields() == old(Fields()).(month := value) && mDayOfWeek == old(mDayOfWeek)
        case YEAR => Fields() == old(Fields()).(year := value) && mDayOfWeek == old(mDayOfWeek)
        case DAY_OF_WEEK => Fields() == old(Fields()) && mDayOfWeek == value
      ensures ToU32(mSecSince1970) == if IsValid(Fields()) then ToU32(SummedSeconds(Fields())) else 0
      ensures IsTimeLegal(Fields()) ==> Agree(State())
    {
      match kind {
        case DAY => mDay := value;
        case MONTH => mMonth := value;
        case YEAR => mYear := value;
        case DAY_OF_WEEK => mDayOfWeek := value;
      }
      CalcSecondsSince1Jan1970();
    }

    /** Fields from seconds. Up to 2000-01-01 00:00:00 nothing happens; later the fields add up
        to the given seconds, in the form LateNormal. The counter itself is not touched. */
    method SetSecondsSince1Jan1970(secondsSince1Jan1970: U32)
      modifies `mYear, `mMonth, `mDay, `mHours, `mMinutes, `mSecunds, `mDayOfWeek
      ensures secondsSince1Jan1970 <= 946684800 ==>
        Fields() == old(Fields()) && mDayOfWeek == old(mDayOfWeek)
      ensures secondsSince1Jan1970 > 946684800 ==>
        && LateNormal(Fields()) && SummedSeconds(Fields()) == secondsSince1Jan1970
        && mDayOfWeek == Weekday(Fields(), old(mDayOfWeek))
    {
      var sum: int := secondsSince1Jan1970;
      if sum > 946684800 {
        sum := sum - 946684800;
        mYear, sum := FindYear(sum);
        mMonth, sum := FindMonth(sum, mYear);
        ghost var rest := sum;
        mDay := 1 + sum / 86400;
        sum := sum - (mDay - 1) * 86400;
        mHours := sum / 3600;
        sum := sum - mHours * 3600;
        mMinutes := sum / 60;
        sum := sum - mMinutes * 60;
        mSecunds := sum;
        SplitSeconds(Fields(), rest);
        CalcWeekday();
      }
    }

    method CalcWeekday()
      modifies `mDayOfWeek
      ensures mDayOfWeek == Weekday(Fields(), old(mDayOfWeek))
    {
      var ddMonth := DoomsdayMonth(mYear, mMonth);
      var century := Century(mYear);
      var ddCentury := DoomsdayCentury(century);
      if ddCentury < 0 || ddMonth < 0 {
        return;
      }
      var x := PastDoomsday(ddMonth);
      var y := DoomsdayOfYear(ddCentury, mYear - century);
      mDayOfWeek := TruncMod(x + y, 7);
    }

    /** Leaves an intermediate value in mDayOfWeek. */
    method PastDoomsday(ddMonth: int) returns (x: int)
      modifies `mDayOfWeek
      ensures x == DaysPastDoomsday(mDay, ddMonth)
    {
      if ddMonth > mDay {
        mDayOfWeek := 7 - TruncMod(ddMonth - mDay, 7) + ddMonth;
      } else {
        mDayOfWeek := mDay;
      }
      x := TruncMod(mDayOfWeek - ddMonth, 7);
    }

    method CalcDayOfYear()
      modifies `mDayOfYear
      ensures mDayOfYear == DayOfYear(Fields())
      ensures mDayOfYear == mDay + (if mMonth <= 1 then 0 else (mMonth - 1) * LastDayInMonth(mMonth, mYear))
    {
      var d := 0;
      var i := 1;
      while i < mMonth
        invariant 1 <= i && (i <= mMonth || i == 1)
        invariant d == (i - 1) * LastDayInMonth(mMonth, mYear)
      {
        d := d + LastDayInMonth(mMonth, mYear);
        i := i + 1;
      }
      d := d + mDay;
      mDayOfYear := d;
    }
  }
}
