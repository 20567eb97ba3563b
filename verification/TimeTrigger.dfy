/** MpcTimeCmpCtrl: notifies its observers when the running clock reaches a given time or
    rolls over. The state machine is compared with a count of seconds. */
module TimeTriggers {
  import opened CInt
  import opened Calendar
  import opened Clocks

  datatype Precision =
    | CMP_DATE_AND_TIME | CMP_WEEKDAY_AND_TIME | CMP_TIME
    | DAY_TRIGGER | HOUR_TRIGGER | MINUTE_TRIGGER

  /** mNewTime, mCurrentMinute, mCurrentHour, mCurrentDay */
  datatype Trigger = Trigger(newTime: bool, minute: int, hour: int, day: int)

  /** What the getters of a time object read: its fields and its stored day of week. */
  datatype Moment = Moment(fields: Time, dayOfWeek: int)

  function DayOfWeek(m: Moment): int {
    Weekday(m.fields, m.dayOfWeek)
  }

  /** The comparison of the three CMP_ precisions. */
  predicate Compares(p: Precision, target: Moment, now: Moment) {
    var t, n := target.fields, now.fields;
    match p
    case CMP_DATE_AND_TIME =>
      t.minute == n.minute && t.day == n.day && t.hour == n.hour && t.month == n.month && t.year == n.year
    case CMP_WEEKDAY_AND_TIME =>
      t.minute == n.minute && t.hour == n.hour && DayOfWeek(target) == DayOfWeek(now)
    case CMP_TIME =>
      t.minute == n.minute && t.hour == n.hour
    case _ => false
  }

  /** RunSubTask as a function: the next state and whether observers are notified. */
  function Step(p: Precision, target: Moment, s: Trigger, now: Moment): (Trigger, bool) {
    if !s.newTime || now.fields.minute == s.minute then (s, false)
    else
      var first := s.minute == -1;
      var s' := Trigger(false, now.fields.minute,
                        if first then now.fields.hour else s.hour, if first then now.fields.day else s.day);
      match p
      case DAY_TRIGGER => (s'.(day := now.fields.day), s'.day != now.fields.day)
      case HOUR_TRIGGER => (s'.(hour := now.fields.hour), s'.hour != now.fields.hour)
      case MINUTE_TRIGGER => (s', true)
      case _ => (s', Compares(p, target, now))
  }

  // ----- runs

  /** ClockTick: the clock advances one second and updates its observers.
      Poll: the task runs, or another subject updates, without a clock change. */
  datatype Event = ClockTick | Poll

  datatype Run = Run(trigger: Trigger, clock: ClockState, fired: nat)

  /** dow is the stored day of week of the clock, which is never read on a legal clock. */
  function RunOf(p: Precision, target: Moment, s: Trigger, c: ClockState, dow: int, events: seq<Event>): Run
    decreases |events|
  {
    if events == [] then Run(s, c, 0)
    else Advance(p, target, RunOf(p, target, s, c, dow, events[..|events| - 1]), dow, events[|events| - 1])
  }

  function Advance(p: Precision, target: Moment, r: Run, dow: int, event: Event): Run {
    var clock := if event == ClockTick then Tick(r.clock) else r.clock;
    var trigger := if event == ClockTick then r.trigger.(newTime := true) else r.trigger;
    var (next, fires) := Step(p, target, trigger, Moment(clock.fields, dow));
    Run(next, clock, r.fired + (if fires then 1 else 0))
  }

  function TickCount(events: seq<Event>): nat {
    if events == [] then 0
    else TickCount(events[..|events| - 1]) + (if events[|events| - 1] == ClockTick then 1 else 0)
  }

  // ----- the specification: which seconds are boundaries

  predicate MinuteOfDay(t: Time) {
    0 <= t.hour <= 23 && 0 <= t.minute <= 59
  }

  /** Second x (since the Epoch) is one at which the trigger is to fire. */
  predicate IsBoundary(p: Precision, target: Moment, x: int) {
    var t := target.fields;
    match p
    case MINUTE_TRIGGER => x % 60 == 0
    case HOUR_TRIGGER => x % 3600 == 0
    case DAY_TRIGGER => x % 86400 == 0
    case CMP_TIME => MinuteOfDay(t) && x % 86400 == t.hour * 3600 + t.minute * 60
    case CMP_WEEKDAY_AND_TIME =>
      MinuteOfDay(t) && x % 86400 == t.hour * 3600 + t.minute * 60 && (x / 86400 + 4) % 7 == DayOfWeek(target)
    case CMP_DATE_AND_TIME =>
      IsTimeLegal(t.(second := 0)) && x == PosixSeconds(t.(second := 0))
  }

  /** How many boundaries lie in the half-open interval (e0, e1]. */
  function Boundaries(p: Precision, target: Moment, e0: int, e1: int): nat
    decreases e1 - e0
  {
    if e1 <= e0 then 0
    else Boundaries(p, target, e0, e1 - 1) + (if IsBoundary(p, target, e1) then 1 else 0)
  }

  /** The trigger has seen the minute the clock shows. */
  predicate Synced(p: Precision, s: Trigger, c: ClockState) {
    && s.minute == c.fields.minute
    && (p == DAY_TRIGGER ==> s.day == c.fields.day)
    && (p == HOUR_TRIGGER ==> s.hour == c.fields.hour)
  }

  // ----- one tick

  /** A tick of an agreeing clock, in terms of its old fields. */
  lemma TickFields(c: ClockState)
    requires Agree(c) && PosixSeconds(c.fields) < PosixSeconds(LAST_TIME)
    ensures Tick(c).fields == Carry(c.fields) && IsTimeLegal(Carry(c.fields))
    ensures PosixSeconds(Carry(c.fields)) == PosixSeconds(c.fields) + 1
  {
    LegalIsValid(c.fields);
    CarryStaysLegal(c.fields);
    CarryIsNextSecond(c.fields);
  }

  lemma Rollovers(t: Time, e: int)
    requires IsTimeLegal(t) && e == PosixSeconds(t)
    ensures Carry(t).minute != t.minute <==> (e + 1) % 60 == 0
    ensures Carry(t).hour != t.hour <==> (e + 1) % 3600 == 0
    ensures Carry(t).day != t.day <==> (e + 1) % 86400 == 0
    ensures Carry(t).minute != t.minute ==> Carry(t).second == 0
  {
    MonthLengths(t.month, t.year);
    NextDigits(PosixDays(t.year, t.month, t.day), t.hour, t.minute, t.second);
  }

  lemma NextDigits(d: int, h: int, m: int, s: int)
    requires 0 <= h < 24 && 0 <= m < 60 && 0 <= s < 60
    ensures var x := s + m * 60 + h * 3600 + d * 86400 + 1;
      && (x % 60 == 0 <==> s == 59)
      && (x % 3600 == 0 <==> s == 59 && m == 59)
      && (x % 86400 == 0 <==> s == 59 && m == 59 && h == 23)
  {
    var a := s + m * 60 + h * 3600;
    assert a + 1 <= 86400 && (a + 1 == 86400 <==> s == 59 && m == 59 && h == 23);
    var b := s + m * 60;
    assert b + 1 <= 3600 && (b + 1 == 3600 <==> s == 59 && m == 59);
    AddMultiple(s + 1, 60, m + h * 60 + d * 1440);
    AddMultiple(b + 1, 3600, h + d * 24);
    AddMultiple(a + 1, 86400, d);
  }

  lemma AddMultiple(r: int, period: int, k: int)
    requires 0 < r <= period
    ensures (r + period * k) % period == 0 <==> r == period
  {
    var x := r + period * k;
    if r == period {
      assert x == period * (k + 1) + 0;
      DivMod(x, period, k + 1, 0);
    } else {
      DivMod(x, period, k, r);
    }
    assert x == period * (x / period) + x % period;
  }

  /** On a legal time that starts a minute, comparing fields is comparing seconds. */
  lemma ComparesAtBoundary(p: Precision, target: Moment, n: Time, dow: int)
    requires IsTimeLegal(n) && n.second == 0
    requires p.CMP_TIME? || p.CMP_WEEKDAY_AND_TIME? || p.CMP_DATE_AND_TIME?
    ensures Compares(p, target, Moment(n, dow)) <==> IsBoundary(p, target, PosixSeconds(n))
  {
    var t := target.fields;
    Digits(n);
    if MinuteOfDay(t) && t.hour * 3600 + t.minute * 60 == n.hour * 3600 + n.minute * 60 {
      assert t.hour == n.hour && t.minute == n.minute;
    }
    if p.CMP_WEEKDAY_AND_TIME? {
      WeekdayCountsDays(n, dow);
    } else if p.CMP_DATE_AND_TIME? {
      var t0 := t.(second := 0);
      assert Compares(p, target, Moment(n, dow)) <==> t0 == n;
      if IsTimeLegal(t0) && PosixSeconds(n) == PosixSeconds(t0) {
        PosixInjective(n, t0);
      }
    }
  }

  /** Anywhere within a minute they compare with the boundary that started it. */
  lemma ComparesInMinute(p: Precision, target: Moment, n: Time, dow: int)
    requires IsTimeLegal(n)
    requires p.CMP_TIME? || p.CMP_WEEKDAY_AND_TIME? || p.CMP_DATE_AND_TIME?
    ensures Compares(p, target, Moment(n, dow)) <==> IsBoundary(p, target, PosixSeconds(n) - n.second)
  {
    var start := n.(second := 0);
    assert PosixSeconds(start) == PosixSeconds(n) - n.second;
    assert DayOfWeek(Moment(n, dow)) == DayOfWeek(Moment(start, dow));
    ComparesAtBoundary(p, target, start, dow);
  }

  /** What one call does in any state, after any jump of the clock to a legal time: nothing without a
      new time or within the minute last seen. Otherwise the minute is taken over; a minute trigger
      notifies, an hour or day trigger when its hour or day is not the one last seen, unless this is
      the first call, and a comparing trigger when a boundary started the minute. */
  lemma StepExactly(p: Precision, target: Moment, s: Trigger, now: Moment)
    requires IsTimeLegal(now.fields)
    ensures var n, r := now.fields, Step(p, target, s, now);
      if !s.newTime || s.minute == n.minute then r == (s, false)
      else
        && !r.0.newTime && Synced(p, r.0, ClockState(n, 0))
        && match p
           case MINUTE_TRIGGER => r.1
           case HOUR_TRIGGER => r.1 <==> s.minute != -1 && s.hour != n.hour
           case DAY_TRIGGER => r.1 <==> s.minute != -1 && s.day != n.day
           case _ => r.1 <==> IsBoundary(p, target, PosixSeconds(n) - n.second)
  {
    if p.CMP_TIME? || p.CMP_WEEKDAY_AND_TIME? || p.CMP_DATE_AND_TIME? {
      ComparesInMinute(p, target, now.fields, now.dayOfWeek);
    }
  }

  lemma BoundaryStartsMinute(p: Precision, target: Moment, x: int)
    requires IsBoundary(p, target, x)
    ensures x % 60 == 0
  {
    var t := target.fields;
    match p
    case CMP_DATE_AND_TIME => Digits(t.(second := 0));
    case CMP_TIME => MinuteWithin(x, t.hour * 60 + t.minute, 86400);
    case CMP_WEEKDAY_AND_TIME => MinuteWithin(x, t.hour * 60 + t.minute, 86400);
    case DAY_TRIGGER => MinuteWithin(x, 0, 86400);
    case HOUR_TRIGGER => MinuteWithin(x, 0, 3600);
    case MINUTE_TRIGGER =>
  }

  lemma MinuteWithin(x: int, minutes: int, period: int)
    requires period == 3600 || period == 86400
    requires x % period == minutes * 60
    ensures x % 60 == 0
  {
    var q := x / period;
    assert x == period * q + minutes * 60;
    DivMod(x, 60, (if period == 3600 then 60 else 1440) * q + minutes, 0);
  }

  /** From an old to a new time that roll over together with the second x. */
  lemma StepFiresAtBoundary(p: Precision, target: Moment, s: Trigger, o: Time, n: Time, x: int, dow: int)
    requires IsTimeLegal(n) && x == PosixSeconds(n) && 0 <= o.minute
    requires s.newTime && Synced(p, s, ClockState(o, 0))
    requires n.minute != o.minute <==> x % 60 == 0
    requires n.hour != o.hour <==> x % 3600 == 0
    requires n.day != o.day <==> x % 86400 == 0
    requires n.minute != o.minute ==> n.second == 0
    ensures var r := Step(p, target, s, Moment(n, dow));
      Synced(p, r.0, ClockState(n, 0)) && (r.1 <==> IsBoundary(p, target, x))
  {
    if n.minute == o.minute {
      if IsBoundary(p, target, x) {
        BoundaryStartsMinute(p, target, x);
      }
    } else if p.CMP_TIME? || p.CMP_WEEKDAY_AND_TIME? || p.CMP_DATE_AND_TIME? {
      ComparesAtBoundary(p, target, n, dow);
    }
  }

  /** One tick notifies exactly when the second it enters is a boundary. */
  lemma TickFiresAtBoundary(p: Precision, target: Moment, r: Run, dow: int)
    requires Agree(r.clock) && PosixSeconds(r.clock.fields) < PosixSeconds(LAST_TIME)
    requires Synced(p, r.trigger, r.clock)
    ensures var n := Advance(p, target, r, dow, ClockTick);
      && n.clock == Tick(r.clock) && Synced(p, n.trigger, n.clock)
      && n.fired == r.fired + (if IsBoundary(p, target, PosixSeconds(r.clock.fields) + 1) then 1 else 0)
  {
    var o := r.clock.fields;
    TickFields(r.clock);
    Rollovers(o, PosixSeconds(o));
    StepFiresAtBoundary(p, target, r.trigger.(newTime := true), o, Carry(o), PosixSeconds(o) + 1, dow);
  }

  lemma PollDoesNotFire(p: Precision, target: Moment, r: Run, dow: int)
    requires Synced(p, r.trigger, r.clock)
    ensures Advance(p, target, r, dow, Poll) == r
  {
    var now := Moment(r.clock.fields, dow);
    assert Step(p, target, r.trigger, now) == (r.trigger, false);
  }

  // ----- arbitrary runs

  /** A run that has kept pace: k ticks after second e, with the notifications due so far. */
  predicate OnTrack(p: Precision, target: Moment, r: Run, e: int, k: nat) {
    && Agree(r.clock) && Synced(p, r.trigger, r.clock)
    && PosixSeconds(r.clock.fields) == e + k
    && r.fired == Boundaries(p, target, e, e + k)
  }

  lemma TickStaysOnTrack(p: Precision, target: Moment, r: Run, dow: int, e: int, k: nat)
    requires OnTrack(p, target, r, e, k) && e + k < PosixSeconds(LAST_TIME)
    ensures OnTrack(p, target, Advance(p, target, r, dow, ClockTick), e, k + 1)
  {
    TickFiresAtBoundary(p, target, r, dow);
    TickAgrees(r.clock);
    OnTrackNext(p, target, r, Advance(p, target, r, dow, ClockTick), e, k);
  }

  lemma OnTrackNext(p: Precision, target: Moment, r: Run, next: Run, e: int, k: nat)
    requires OnTrack(p, target, r, e, k) && Agree(next.clock) && Synced(p, next.trigger, next.clock)
    requires PosixSeconds(next.clock.fields) == PosixSeconds(r.clock.fields) + 1
    requires next.fired == r.fired + (if IsBoundary(p, target, e + k + 1) then 1 else 0)
    ensures OnTrack(p, target, next, e, k + 1)
  {
    BoundariesStep(p, target, e, e + k);
  }

  lemma BoundariesStep(p: Precision, target: Moment, e0: int, e1: int)
    requires e0 <= e1
    ensures Boundaries(p, target, e0, e1 + 1)
      == Boundaries(p, target, e0, e1) + (if IsBoundary(p, target, e1 + 1) then 1 else 0)
  {
  }

  /** Over any run of ticks and idle calls before the end of 2099, a synchronised trigger
      notifies exactly once for each boundary the clock passes, and stays synchronised. */
  lemma {:induction false} FiresOncePerBoundary(
    p: Precision, target: Moment, s: Trigger, c: ClockState, dow: int, events: seq<Event>)
    requires Agree(c) && Synced(p, s, c)
    requires PosixSeconds(c.fields) + TickCount(events) <= PosixSeconds(LAST_TIME)
    ensures OnTrack(p, target, RunOf(p, target, s, c, dow, events), PosixSeconds(c.fields), TickCount(events))
    decreases |events|
  {
    if events != [] {
      var front := events[..|events| - 1];
      FiresOncePerBoundary(p, target, s, c, dow, front);
      var r := RunOf(p, target, s, c, dow, front);
      LastEvent(p, target, r, dow, events[|events| - 1], PosixSeconds(c.fields), TickCount(front));
    }
  }

  lemma LastEvent(p: Precision, target: Moment, r: Run, dow: int, event: Event, e: int, k: nat)
    requires OnTrack(p, target, r, e, k)
    requires event == ClockTick ==> e + k < PosixSeconds(LAST_TIME)
    ensures OnTrack(p, target, Advance(p, target, r, dow, event), e, k + (if event == ClockTick then 1 else 0))
  {
    if event == ClockTick {
      TickStaysOnTrack(p, target, r, dow, e, k);
    } else {
      PollDoesNotFire(p, target, r, dow);
    }
  }

  /** A new trigger synchronises on the first update from a legal clock, and notifies then only
      if it triggers on minutes or the time compares equal already. */
  lemma FirstUpdate(p: Precision, target: Moment, hour: int, day: int, c: ClockState, dow: int)
    requires Agree(c)
    ensures var r := Step(p, target, Trigger(true, -1, hour, day), Moment(c.fields, dow));
      && Synced(p, r.0, c)
      && (r.1 <==> p == MINUTE_TRIGGER || Compares(p, target, Moment(c.fields, dow)))
  {
  }

  // ----- counting boundaries

  /** Seconds between two boundaries of a repeating trigger. */
  function Period(p: Precision): int {
    match p
    case MINUTE_TRIGGER => 60
    case HOUR_TRIGGER => 3600
    case CMP_WEEKDAY_AND_TIME => 604800
    case _ => 86400
  }

  /** The second of its period at which a repeating trigger fires. */
  function Phase(p: Precision, target: Moment): int {
    var t := target.fields;
    match p
    case CMP_TIME => t.hour * 3600 + t.minute * 60
    case CMP_WEEKDAY_AND_TIME => t.hour * 3600 + t.minute * 60 + (DayOfWeek(target) + 3) % 7 * 86400
    case _ => 0
  }

  /** Whether the target of a repeating trigger can be met at all. */
  predicate CanMatch(p: Precision, target: Moment) {
    match p
    case CMP_TIME => MinuteOfDay(target.fields)
    case CMP_WEEKDAY_AND_TIME => MinuteOfDay(target.fields) && 0 <= DayOfWeek(target) <= 6
    case _ => true
  }

  lemma BoundaryIsPeriodic(p: Precision, target: Moment, x: int)
    requires p != CMP_DATE_AND_TIME
    ensures IsBoundary(p, target, x) <==> CanMatch(p, target) && (x - Phase(p, target)) % Period(p) == 0
  {
    var t := target.fields;
    if MinuteOfDay(t) && (p == CMP_TIME || p == CMP_WEEKDAY_AND_TIME) {
      var m := t.hour * 3600 + t.minute * 60;
      DayAndSecond(x, m);
      if p == CMP_WEEKDAY_AND_TIME && x % 86400 == m && 0 <= DayOfWeek(target) <= 6 {
        SameWeekday(x / 86400, DayOfWeek(target));
      }
      if p == CMP_WEEKDAY_AND_TIME && (x - Phase(p, target)) % 604800 == 0 {
        WeekAndSecond(x, m, (DayOfWeek(target) + 3) % 7);
      }
    }
  }

  lemma DayAndSecond(x: int, m: int)
    requires 0 <= m < 86400
    ensures x % 86400 == m <==> (x - m) % 86400 == 0
    ensures x % 86400 == m ==> x - m == x / 86400 * 86400
  {
  }

  lemma SameWeekday(d: int, w: int)
    requires 0 <= w <= 6
    ensures (d + 4) % 7 == w <==> (d * 86400 - (w + 3) % 7 * 86400) % 604800 == 0
  {
    var v := (w + 3) % 7;
    assert (d + 4) % 7 == w <==> (d - v) % 7 == 0;
    assert d * 86400 - v * 86400 == 86400 * (d - v);
    var q, r := (d - v) / 7, (d - v) % 7;
    assert 86400 * (d - v) == 604800 * q + 86400 * r;
    DivMod(86400 * (d - v), 604800, q, 86400 * r);
  }

  lemma WeekAndSecond(x: int, m: int, v: int)
    requires (x - (m + v * 86400)) % 604800 == 0
    ensures (x - m) % 86400 == 0
  {
    var k := (x - (m + v * 86400)) / 604800;
    assert x - m == 86400 * (7 * k + v);
  }

  /** The boundaries passed by a repeating trigger, in closed form: hour and day triggers fire
      as many times as the hour and the day roll over. */
  lemma {:induction false} RepeatingCount(p: Precision, target: Moment, e0: int, e1: int)
    requires p != CMP_DATE_AND_TIME && e0 <= e1
    ensures Boundaries(p, target, e0, e1) ==
      if CanMatch(p, target) then (e1 - Phase(p, target)) / Period(p) - (e0 - Phase(p, target)) / Period(p) else 0
    decreases e1 - e0
  {
    if e0 < e1 {
      RepeatingCount(p, target, e0, e1 - 1);
      BoundaryIsPeriodic(p, target, e1);
      NextQuotient(e1 - Phase(p, target), Period(p));
    }
  }

  /** A time of day is passed exactly once in any 86400 ticks, a weekday and time once in any
      604800, and a target that names no minute of a day never. */
  lemma OncePerPeriod(p: Precision, target: Moment, e: int, k: nat)
    requires p != CMP_DATE_AND_TIME
    ensures Boundaries(p, target, e, e + Period(p) * k) == if CanMatch(p, target) then k else 0
  {
    var n, phase := Period(p), Phase(p, target);
    assert n * k >= 0;
    RepeatingCount(p, target, e, e + n * k);
    assert e + n * k - phase == n * ((e - phase) / n + k) + (e - phase) % n;
    DivMod(e + n * k - phase, n, (e - phase) / n + k, (e - phase) % n);
  }

  lemma NextQuotient(x: int, period: int)
    requires period > 1
    ensures x / period == (x - 1) / period + (if x % period == 0 then 1 else 0)
  {
    var q, r := x / period, x % period;
    assert x == period * q + r;
    if r == 0 {
      assert x - 1 == period * (q - 1) + (period - 1);
      DivMod(x - 1, period, q - 1, period - 1);
    } else {
      assert x - 1 == period * q + (r - 1);
      DivMod(x - 1, period, q, r - 1);
    }
  }

  predicate DateWithin(target: Moment, e0: int, e1: int) {
    var t0 := target.fields.(second := 0);
    IsTimeLegal(t0) && e0 < PosixSeconds(t0) <= e1
  }

  /** A date and time is reached at most once, namely if it is legal and lies in the run. */
  lemma {:induction false} DateCount(target: Moment, e0: int, e1: int)
    ensures Boundaries(CMP_DATE_AND_TIME, target, e0, e1) == (if DateWithin(target, e0, e1) then 1 else 0)
    decreases e1 - e0
  {
    if e0 < e1 {
      DateCount(target, e0, e1 - 1);
    }
  }

  // ----- the object

  class MpcTimeCmpCtrl {
    const clock: ActTime
    var mpTimeObj: ActTime
    const mCmpPrecision: Precision
    var mNewTime: bool
    var mCurrentMinute: int
    var mCurrentHour: int
    var mCurrentDay: int
    var notified: nat

    function State(): Trigger
      reads this
    {
      Trigger(mNewTime, mCurrentMinute, mCurrentHour, mCurrentDay)
    }

    function Target(): Moment
      reads this, mpTimeObj
    {
      Moment(mpTimeObj.Fields(), mpTimeObj.mDayOfWeek)
    }

    function Now(): Moment
      reads this, clock
    {
      Moment(clock.Fields(), clock.mDayOfWeek)
    }

    constructor (clock: ActTime, timeObj: ActTime, precision: Precision)
      ensures this.clock == clock && mpTimeObj == timeObj && mCmpPrecision == precision
      ensures mNewTime && mCurrentMinute == -1 && notified == 0
    {
      this.clock, mpTimeObj, mCmpPrecision := clock, timeObj, precision;
      mNewTime, mCurrentMinute, mCurrentHour, mCurrentDay := true, -1, 0, 0;
      notified := 0;
    }

    method ChangeTime(timeObj: ActTime)
      modifies `mpTimeObj
      ensures mpTimeObj == timeObj
    {
      mpTimeObj := timeObj;
    }

    method Update(fromClock: bool)
      modifies this, clock`mDayOfWeek, mpTimeObj`mDayOfWeek
      ensures mpTimeObj == old(mpTimeObj) && DayOfWeek(Target()) == old(DayOfWeek(Target()))
      ensures var s := if fromClock then old(State()).(newTime := true) else old(State());
        var r := Step(mCmpPrecision, old(Target()), s, old(Now()));
        State() == r.0 && notified == old(notified) + (if r.1 then 1 else 0)
    {
      if fromClock {
        mNewTime := true;
      }
      RunSubTask();
    }

    /** The two GetDate(DAY_OF_WEEK), each of which recomputes the day it returns. */
    method SameDayOfWeek() returns (same: bool)
      modifies clock`mDayOfWeek, mpTimeObj`mDayOfWeek
      ensures same <==> old(DayOfWeek(Target())) == old(DayOfWeek(Now()))
      ensures DayOfWeek(Target()) == old(DayOfWeek(Target()))
    {
      WeekdayStable(clock.Fields(), clock.mDayOfWeek);
      WeekdayStable(mpTimeObj.Fields(), mpTimeObj.mDayOfWeek);
      mpTimeObj.CalcWeekday();
      var targetDay := mpTimeObj.mDayOfWeek;
      clock.CalcWeekday();
      same := targetDay == clock.mDayOfWeek;
    }

    method RunSubTask()
      modifies this, clock`mDayOfWeek, mpTimeObj`mDayOfWeek
      ensures mpTimeObj == old(mpTimeObj) && DayOfWeek(Target()) == old(DayOfWeek(Target()))
      ensures var r := Step(mCmpPrecision, old(Target()), old(State()), old(Now()));
        State() == r.0 && notified == old(notified) + (if r.1 then 1 else 0)
    {
      var return_value := false;
      if mNewTime {
        var new_minute := clock.mMinutes;
        if new_minute != mCurrentMinute {
          if mCurrentMinute == -1 {
            mCurrentDay := clock.mDay;
            mCurrentHour := clock.mHours;
          }
          mCurrentMinute := new_minute;
          mNewTime := false;
          match mCmpPrecision {
            case CMP_DATE_AND_TIME =>
              if mpTimeObj.mMinutes == clock.mMinutes {
                if mpTimeObj.mDay == clock.mDay {
                  if mpTimeObj.mHours == clock.mHours {
                    if mpTimeObj.mMonth == clock.mMonth {
                      if mpTimeObj.mYear == clock.mYear {
                        return_value := true;
                      }
                    }
                  }
                }
              }
            case CMP_WEEKDAY_AND_TIME =>
              if mpTimeObj.mMinutes == clock.mMinutes {
                if mpTimeObj.mHours == clock.mHours {
                  return_value := SameDayOfWeek();
                }
              }
            case CMP_TIME =>
              if mpTimeObj.mMinutes == clock.mMinutes {
                if mpTimeObj.mHours == clock.mHours {
                  return_value := true;
                }
              }
            case DAY_TRIGGER =>
              if mCurrentDay != clock.mDay {
                mCurrentDay := clock.mDay;
                return_value := true;
              }
            case HOUR_TRIGGER =>
              if mCurrentHour != clock.mHours {
                mCurrentHour := clock.mHours;
                return_value := true;
              }
            case MINUTE_TRIGGER =>
              return_value := true;
          }
          if return_value {
            notified := notified + 1;
          }
        }
      }
    }
  }

  /** Computing the weekday twice changes nothing, so a trigger may compare the clock with itself. */
  lemma WeekdayStable(t: Time, stored: int)
    ensures Weekday(t, Weekday(t, stored)) == Weekday(t, stored)
  {
  }

  // ----- the clock and a trigger together

  predicate SameTarget(a: Moment, b: Moment) {
    a.fields == b.fields && DayOfWeek(a) == DayOfWeek(b)
  }

  lemma SameBoundaries(p: Precision, a: Moment, b: Moment, x: int)
    requires SameTarget(a, b)
    ensures IsBoundary(p, a, x) <==> IsBoundary(p, b, x)
  {
  }

  /** A trigger that has kept pace with its clock since second e, when it had notified fired times. */
  ghost predicate KeepsPace(t: MpcTimeCmpCtrl, target: Moment, fired: nat, e: int, k: nat)
    reads t, t.clock, t.mpTimeObj
  {
    && t.mpTimeObj != t.clock && SameTarget(target, t.Target()) && t.notified >= fired
    && OnTrack(t.mCmpPrecision, target, Run(t.State(), t.clock.State(), t.notified - fired), e, k)
  }

  /** The clock ticks and updates its observer. */
  method TickAndUpdate(t: MpcTimeCmpCtrl, ghost target: Moment, ghost fired: nat, ghost e: int, ghost k: nat)
    requires KeepsPace(t, target, fired, e, k) && e + k < PosixSeconds(LAST_TIME)
    modifies t, t.clock, t.mpTimeObj`mDayOfWeek
    ensures t.mpTimeObj == old(t.mpTimeObj) && KeepsPace(t, target, fired, e, k + 1)
  {
    ghost var p, seen := t.mCmpPrecision, t.Target();
    ghost var r := Run(t.State(), t.clock.State(), t.notified - fired);
    PaceNext(p, target, seen, r, t.clock.mDayOfWeek, e, k);
    ghost var next := Advance(p, seen, r, t.clock.mDayOfWeek, ClockTick);
    var valid := t.clock.IncSec();
    t.Update(true);
    assert Run(t.State(), t.clock.State(), t.notified - fired) == next;
  }

  lemma PaceNext(p: Precision, target: Moment, seen: Moment, r: Run, dow: int, e: int, k: nat)
    requires SameTarget(target, seen) && OnTrack(p, target, r, e, k) && e + k < PosixSeconds(LAST_TIME)
    ensures OnTrack(p, target, Advance(p, seen, r, dow, ClockTick), e, k + 1)
  {
    TickFiresAtBoundary(p, seen, r, dow);
    TickAgrees(r.clock);
    SameBoundaries(p, target, seen, e + k + 1);
    OnTrackNext(p, target, r, Advance(p, seen, r, dow, ClockTick), e, k);
  }

  lemma PaceCounts(t: MpcTimeCmpCtrl, target: Moment, fired: nat, e: int, k: nat)
    requires KeepsPace(t, target, fired, e, k)
    ensures t.notified == fired + Boundaries(t.mCmpPrecision, target, e, e + k)
    ensures Agree(t.clock.State()) && PosixSeconds(t.clock.Fields()) == e + k
    ensures Synced(t.mCmpPrecision, t.State(), t.clock.State())
  {
  }

  /** Over any run of the clock before the end of 2099 a synchronised trigger has notified its
      observers once for each boundary passed. */
  method RunTogether(t: MpcTimeCmpCtrl, ticks: nat)
    requires t.mpTimeObj != t.clock && Agree(t.clock.State())
    requires Synced(t.mCmpPrecision, t.State(), t.clock.State())
    requires PosixSeconds(t.clock.Fields()) + ticks <= PosixSeconds(LAST_TIME)
    modifies t, t.clock, t.mpTimeObj`mDayOfWeek
    ensures var e := old(PosixSeconds(t.clock.Fields()));
      && Agree(t.clock.State()) && PosixSeconds(t.clock.Fields()) == e + ticks
      && Synced(t.mCmpPrecision, t.State(), t.clock.State())
      && t.notified == old(t.notified) + Boundaries(t.mCmpPrecision, old(t.Target()), e, e + ticks)
  {
    ghost var target, fired, e := t.Target(), t.notified, PosixSeconds(t.clock.Fields());
    var k := 0;
    while k < ticks
      invariant 0 <= k <= ticks && t.mpTimeObj == old(t.mpTimeObj) && KeepsPace(t, target, fired, e, k)
    {
      TickAndUpdate(t, target, fired, e, k);
      k := k + 1;
    }
    PaceCounts(t, target, fired, e, ticks);
  }
}
