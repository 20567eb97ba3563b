/** AlarmDataPoint: the error and alarm states of one alarm, its acknowledgement and its counter. */
module Alarms {
  datatype AlarmState = WARNING | ALARM | READY

  const ALARM_COUNTER_MAX: int := 2000000000

  // ----- the state machine

  datatype Point = Point(error: AlarmState, alarm: AlarmState, active: bool, counter: int)

  function CountUp(counter: int): int {
    if counter < ALARM_COUNTER_MAX then counter + 1 else counter
  }

  /** SetErrorPresent, with the acknowledge setting of the active configuration. */
  function ReportError(p: Point, error: AlarmState, autoAck: bool): Point {
    Point(error,
          if autoAck || p.alarm != ALARM then error else ALARM,
          p.active,
          if p.error == READY && error != READY then CountUp(p.counter) else p.counter)
  }

  /** SetDataPointActive: switching on reports the present error again. */
  function Activate(p: Point, state: bool, autoAck: bool): Point {
    if state && !p.active then ReportError(p.(active := true), p.error, autoAck) else p.(active := state)
  }

  /** Update after a change of a subscribed configuration. */
  function ConfigChanged(p: Point, autoAck: bool): Point {
    if autoAck then p.(alarm := if p.active then p.error else READY) else p
  }

  /** Everything that can happen to the point except an explicit write of its counter. The
      acknowledge setting in force is part of the event. */
  datatype Event =
    | Report(error: AlarmState, autoAck: bool)
    | SetAlarm(alarm: AlarmState)
    | SetActive(state: bool, autoAck: bool)
    | Updated(autoAck: bool)

  function Apply(p: Point, e: Event): Point {
    match e
    case Report(error, autoAck) => ReportError(p, error, autoAck)
    case SetAlarm(alarm) => p.(alarm := alarm)
    case SetActive(state, autoAck) => Activate(p, state, autoAck)
    case Updated(autoAck) => ConfigChanged(p, autoAck)
  }

  function Run(p: Point, events: seq<Event>): Point {
    if events == [] then p else Apply(Run(p, events[..|events| - 1]), events[|events| - 1])
  }

  // ----- the latch

  /** Acknowledging an alarm by hand. */
  const ACK := SetAlarm(READY)

  /** Everything that can happen under manual acknowledge: acknowledgements, reports, switching
      the point on and off, and changes of the configurations. */
  predicate ManualRun(events: seq<Event>) {
    forall i :: 0 <= i < |events| ==> Manual(events[i])
  }

  predicate Manual(e: Event) {
    match e
    case Report(_, autoAck) => !autoAck
    case SetAlarm(alarm) => alarm == READY
    case SetActive(_, autoAck) => !autoAck
    case Updated(autoAck) => !autoAck
  }

  /** Whether the point is switched on after the events. */
  function IsActive(active: bool, events: seq<Event>): bool {
    if events == [] then active
    else
      var e := events[|events| - 1];
      if e.SetActive? then e.state else IsActive(active, events[..|events| - 1])
  }

  /** The error last reported, if any was. */
  function LatestError(error: AlarmState, events: seq<Event>): AlarmState {
    if events == [] then error
    else
      var e := events[|events| - 1];
      if e.Report? then e.error else LatestError(error, events[..|events| - 1])
  }

  lemma {:induction false} FollowsEvents(p: Point, events: seq<Event>)
    ensures Run(p, events).active == IsActive(p.active, events)
    ensures Run(p, events).error == LatestError(p.error, events)
  {
    if events != [] {
      FollowsEvents(p, events[..|events| - 1]);
    }
  }

  /** The reports and acknowledgements a run amounts to: switching an inactive point on reports
      the latest error again; nothing else adds a report. */
  function Reports(error: AlarmState, active: bool, events: seq<Event>): seq<Event> {
    if events == [] then []
    else
      var front, e := events[..|events| - 1], events[|events| - 1];
      var h := Reports(error, active, front);
      match e
      case Report(_, _) => h + [e]
      case SetAlarm(_) => h + [e]
      case SetActive(state, autoAck) =>
        if state && !IsActive(active, front) then h + [Report(LatestError(error, front), autoAck)] else h
      case Updated(_) => h
  }

  /** The part of a history that counts: what was reported since the last acknowledgement. */
  function SinceAck(h: seq<Event>): seq<Event> {
    if h == [] || h[|h| - 1] == ACK then []
    else SinceAck(h[..|h| - 1]) + [h[|h| - 1]]
  }

  predicate Reported(h: seq<Event>, error: AlarmState) {
    exists i :: 0 <= i < |h| && h[i].Report? && h[i].error == error
  }

  /** What the alarm is to be after a history of reports and acknowledgements. */
  function Latched(h: seq<Event>): AlarmState {
    var since := SinceAck(h);
    if Reported(since, ALARM) then ALARM else if since == [] then READY else LastReport(since)
  }

  /** Under manual acknowledge, from a quiet point, the alarm is ALARM exactly when an ALARM was
      reported since the last acknowledgement, and otherwise the latest report since then,
      where switching the point on counts as a report of the latest error. */
  lemma {:induction false} AlarmIsLatched(p: Point, events: seq<Event>)
    requires p.alarm == READY && ManualRun(events)
    ensures Run(p, events).alarm == Latched(Reports(p.error, p.active, events))
    decreases |events|
  {
    if events != [] {
      var front, e := events[..|events| - 1], events[|events| - 1];
      AlarmIsLatched(p, front);
      FollowsEvents(p, front);
      ReportsAreHistory(p.error, p.active, front);
      assert Manual(e);
      var h := Reports(p.error, p.active, front);
      match e
      case Report(error, _) => OneMoreReport(h, error);
      case SetAlarm(_) => assert Latched(h + [ACK]) == READY;
      case SetActive(_, _) => OneMoreReport(h, LatestError(p.error, front));
      case Updated(_) =>
    }
  }

  predicate IsHistory(h: seq<Event>) {
    forall i :: 0 <= i < |h| ==> h[i] == ACK || (h[i].Report? && !h[i].autoAck)
  }

  lemma {:induction false} ReportsAreHistory(error: AlarmState, active: bool, events: seq<Event>)
    requires ManualRun(events)
    ensures IsHistory(Reports(error, active, events))
  {
    if events != [] {
      ReportsAreHistory(error, active, events[..|events| - 1]);
      assert Manual(events[|events| - 1]);
    }
  }

  lemma OneMoreReport(h: seq<Event>, error: AlarmState)
    requires IsHistory(h)
    ensures Latched(h + [Report(error, false)]) == if Latched(h) == ALARM then ALARM else error
  {
    var e := Report(error, false);
    assert (h + [e])[..|h|] == h;
    SinceAckReports(h);
    ReportedAppend(SinceAck(h), e, ALARM);
    if SinceAck(h) != [] && LastReport(SinceAck(h)) == ALARM {
      assert SinceAck(h)[|SinceAck(h)| - 1].error == ALARM;
    }
  }

  /** Without acknowledgements the whole history counts. */
  lemma {:induction false} NeverAcknowledged(h: seq<Event>)
    requires ACK !in h
    ensures SinceAck(h) == h
  {
    if h != [] {
      assert h[|h| - 1] in h;
      NeverAcknowledged(h[..|h| - 1]);
    }
  }

  /** The error of the last report of a history. */
  function LastReport(h: seq<Event>): AlarmState
    requires h != []
  {
    if h[|h| - 1].Report? then h[|h| - 1].error else READY
  }

  lemma {:induction false} SinceAckReports(h: seq<Event>)
    requires IsHistory(h)
    ensures forall i :: 0 <= i < |SinceAck(h)| ==> SinceAck(h)[i].Report?
  {
    if h != [] && h[|h| - 1] != ACK {
      SinceAckReports(h[..|h| - 1]);
    }
  }

  lemma ReportedAppend(h: seq<Event>, e: Event, error: AlarmState)
    requires e.Report?
    ensures Reported(h + [e], error) <==> Reported(h, error) || e.error == error
  {
    if Reported(h, error) {
      var i :| 0 <= i < |h| && h[i].Report? && h[i].error == error;
      assert (h + [e])[i] == h[i];
    }
    if e.error == error {
      assert (h + [e])[|h|] == e;
    }
  }

  /** What the alarm is after one more event, whatever the configuration, from any state and after
      any events: in terms of what was reported and of whether the point is switched on. */
  lemma AlarmAfter(p: Point, events: seq<Event>, e: Event)
    ensures var before, after := Run(p, events).alarm, Run(p, events + [e]).alarm;
      var error, active := LatestError(p.error, events), IsActive(p.active, events);
      match e
      case Report(reported, autoAck) => after == if before == ALARM && !autoAck then ALARM else reported
      case SetAlarm(alarm) => after == alarm
      case SetActive(state, autoAck) =>
        after == if !state || active || (before == ALARM && !autoAck) then before else error
      case Updated(autoAck) => after == if !autoAck then before else if active then error else READY
  {
    OneMoreEvent(p, events, e);
    FollowsEvents(p, events);
  }

  lemma OneMoreEvent(p: Point, events: seq<Event>, e: Event)
    ensures Run(p, events + [e]) == Apply(Run(p, events), e)
  {
    assert (events + [e])[..|events|] == events;
  }

  predicate AutoAck(e: Event) {
    match e
    case Report(_, autoAck) => autoAck
    case SetAlarm(_) => false
    case SetActive(_, autoAck) => autoAck
    case Updated(autoAck) => autoAck
  }

  /** After any events that end in a report, a switch to active or an update under automatic
      acknowledge, the alarm of an active point is the error last reported; an update shows READY on
      an inactive one. */
  lemma AutoAckSynchronises(p: Point, events: seq<Event>, e: Event)
    requires AutoAck(e) && (e.SetActive? ==> e.state && !IsActive(p.active, events))
    ensures var all := events + [e];
      && (IsActive(p.active, all) || e.Report? ==> Run(p, all).alarm == LatestError(p.error, all) == Run(p, all).error)
      && (e.Updated? && !IsActive(p.active, all) ==> Run(p, all).alarm == READY)
  {
    AlarmAfter(p, events, e);
    FollowsEvents(p, events + [e]);
    assert (events + [e])[..|events|] == events;
  }

  /** Whatever the configuration and the state before: a report, and a switch to active, leave
      the alarm equal to the error or latched at ALARM. */
  lemma ReportSynchronises(p: Point, e: Event)
    requires e.Report? || (e.SetActive? && e.state && !p.active)
    ensures var n := Apply(p, e); n.alarm == n.error || n.alarm == ALARM
    ensures var n := Apply(p, e); n.alarm != n.error ==> p.alarm == ALARM && !e.autoAck
  {
  }

  // ----- the counter

  /** How often the reported error left READY during the run. */
  function Onsets(error: AlarmState, events: seq<Event>): nat {
    if events == [] then 0
    else
      var e := events[|events| - 1];
      var front := events[..|events| - 1];
      Onsets(error, front)
        + (if e.Report? && e.error != READY && LatestError(error, front) == READY then 1 else 0)
  }

  /** Over any run without explicit counter writes the counter is the saturated number of
      onsets: switches between warning and alarm, acknowledgements, changes of configuration
      and reactivations do not count. */
  lemma {:induction false} CounterCountsOnsets(p: Point, events: seq<Event>)
    ensures var n, r := Onsets(p.error, events), Run(p, events);
      && r.error == LatestError(p.error, events)
      && r.counter == (if p.counter >= 2000000000 then p.counter
                       else if p.counter + n <= 2000000000 then p.counter + n else 2000000000)
    decreases |events|
  {
    if events != [] {
      CounterCountsOnsets(p, events[..|events| - 1]);
    }
  }

  // ----- the object

  class AlarmConfig {
    var mAutoAck: bool

    constructor (autoAck: bool)
      ensures mAutoAck == autoAck
    {
      mAutoAck := autoAck;
    }
  }

  class AlarmDataPoint {
    var mAlarmCounter: int
    var mActConfig: int
    var mErrorPresent: AlarmState
    var mAlarmPresent: AlarmState
    var mActive: bool
    var mpAlarmConfig: AlarmConfig?
    var mpAlarmConfig2: AlarmConfig?
    /** mQuality == DP_AVAILABLE */
    var available: bool
    var notified: nat

    function State(): Point
      reads this
    {
      Point(mErrorPresent, mAlarmPresent, mActive, mAlarmCounter)
    }

    /** The configuration GetAlarmConfig returns. */
    function ActiveConfig(): (config: AlarmConfig?)
      reads this
      ensures mActConfig == 0 ==> config == mpAlarmConfig
      ensures mActConfig == 1 ==> config == mpAlarmConfig2
      ensures mActConfig != 0 && mActConfig != 1 ==> config == mpAlarmConfig
    {
      if mActConfig == 1 then mpAlarmConfig2 else mpAlarmConfig
    }

    constructor ()
      ensures State() == Point(READY, READY, true, 0) && mActConfig == 0
      ensures mpAlarmConfig == null && mpAlarmConfig2 == null && !available && notified == 0
    {
      mAlarmCounter, mActConfig := 0, 0;
      mErrorPresent, mAlarmPresent, mActive := READY, READY, true;
      mpAlarmConfig, mpAlarmConfig2 := null, null;
      available, notified := false, 0;
    }

    method GetAlarmConfig() returns (config: AlarmConfig?)
      ensures config == ActiveConfig() == if mActConfig == 1 then mpAlarmConfig2 else mpAlarmConfig
    {
      match mActConfig {
        case 0 => config := mpAlarmConfig;
        case 1 => config := mpAlarmConfig2;
        case _ => config := mpAlarmConfig;
      }
    }

    method GetAlarmPresent() returns (state: AlarmState)
      ensures state == if mActive then mAlarmPresent else READY
    {
      if mActive {
        state := mAlarmPresent;
      } else {
        state := READY;
      }
    }

    method GetErrorPresent() returns (state: AlarmState)
      ensures state == if mActive then mErrorPresent else READY
    {
      if mActive {
        state := mErrorPresent;
      } else {
        state := READY;
      }
    }

    /** Sets the quality, without notifying; returns whether it changed. */
    method SetAvailable() returns (changed: bool)
      modifies `available
      ensures available && (changed <==> !old(available))
    {
      changed := !available;
      available := true;
    }

    method SetAlarmCounter(alarmCounter: int) returns (notify: bool)
      modifies `mAlarmCounter, `available, `notified
      ensures State() == old(State()).(counter := alarmCounter) && available
      ensures notify <==> State() != old(State()) || !old(available)
      ensures notified == old(notified) + (if notify then 1 else 0)
    {
      notify := false;
      if mAlarmCounter != alarmCounter {
        mAlarmCounter := alarmCounter;
        notify := true;
      }
      var changed := SetAvailable();
      notify := notify || changed;
      if notify {
        notified := notified + 1;
      }
    }

    method SetAlarmPresent(alarmPresent: AlarmState) returns (notify: bool)
      modifies `mAlarmPresent, `available, `notified
      ensures State() == Apply(old(State()), SetAlarm(alarmPresent)) == old(State()).(alarm := alarmPresent)
      ensures available
      ensures notify <==> State() != old(State()) || !old(available)
      ensures notified == old(notified) + (if notify then 1 else 0)
    {
      notify := false;
      if mAlarmPresent != alarmPresent {
        mAlarmPresent := alarmPresent;
        notify := true;
      }
      var changed := SetAvailable();
      notify := notify || changed;
      if notify {
        notified := notified + 1;
      }
    }

    method SetErrorPresent(errorPresent: AlarmState) returns (notify: bool)
      requires ActiveConfig() != null
      modifies `mErrorPresent, `mAlarmPresent, `mAlarmCounter, `available, `notified
      ensures State() == Apply(old(State()), Report(errorPresent, ActiveConfig().mAutoAck)) && available
      ensures mErrorPresent == errorPresent
      ensures mAlarmPresent
        == if old(mAlarmPresent) == ALARM && !ActiveConfig().mAutoAck then ALARM else errorPresent
      ensures notify <==> State() != old(State()) || !old(available)
      ensures notified == old(notified) + (if notify then 1 else 0)
    {
      notify := false;
      if mErrorPresent != errorPresent {
        if mErrorPresent == READY {
          if mAlarmCounter < ALARM_COUNTER_MAX {
            mAlarmCounter := mAlarmCounter + 1;
          }
        }
        mErrorPresent := errorPresent;
        notify := true;
      }
      var config := GetAlarmConfig();
      if config.mAutoAck {
        if mAlarmPresent != errorPresent {
          mAlarmPresent := errorPresent;
          notify := true;
        }
      } else {
        if mAlarmPresent != ALARM {
          if mAlarmPresent != errorPresent {
            mAlarmPresent := errorPresent;
            notify := true;
          }
        }
      }
      var changed := SetAvailable();
      notify := notify || changed;
      if notify {
        notified := notified + 1;
      }
    }

    method SetDataPointActive(state: bool) returns (notify: bool)
      requires state && !mActive ==> ActiveConfig() != null
      modifies this
      ensures State() == if state && !old(mActive)
        then Apply(old(State()), SetActive(true, old(ActiveConfig().mAutoAck)))
        else old(State()).(active := state)
      ensures notify <==> state != old(mActive)
      ensures available <==> old(available) || (state && !old(mActive))
      ensures notified == old(notified) + (if notify then 1 else 0)
        + (if notify && state && (State() != old(State()).(active := true) || !old(available)) then 1 else 0)
      ensures mActConfig == old(mActConfig) && mpAlarmConfig == old(mpAlarmConfig)
      ensures mpAlarmConfig2 == old(mpAlarmConfig2)
    {
      notify := false;
      if mActive != state {
        mActive := state;
        if mActive {
          var n := SetErrorPresent(mErrorPresent);
        }
        notify := true;
      }
      if notify {
        notified := notified + 1;
      }
    }

    method SetActualAlarmConfig(actConfig: int)
      modifies `mActConfig, `available, `notified
      ensures mActConfig == if actConfig == old(mActConfig) || 0 <= actConfig <= 1 then actConfig else 0
      ensures available
      ensures notified == old(notified) + (if actConfig != old(mActConfig) || !old(available) then 1 else 0)
    {
      var notify := false;
      if mActConfig != actConfig {
        if actConfig >= 0 && actConfig <= 1 {
          mActConfig := actConfig;
        } else {
          mActConfig := 0;
        }
        notify := true;
      }
      var changed := SetAvailable();
      notify := notify || changed;
      if notify {
        notified := notified + 1;
      }
    }

    /** Called by a subscribed subject; only its two configurations matter. */
    method Update(pSubject: AlarmConfig)
      requires pSubject == mpAlarmConfig || pSubject == mpAlarmConfig2 ==> ActiveConfig() != null
      modifies `mAlarmPresent, `available, `notified
      ensures State() == if pSubject == mpAlarmConfig || pSubject == mpAlarmConfig2
        then Apply(old(State()), Updated(ActiveConfig().mAutoAck)) else old(State())
      ensures (pSubject == mpAlarmConfig || pSubject == mpAlarmConfig2) && ActiveConfig().mAutoAck ==>
        mAlarmPresent == if mActive then mErrorPresent else READY
      ensures var update := pSubject == mpAlarmConfig || pSubject == mpAlarmConfig2;
        && (available <==> old(available) || (update && ActiveConfig().mAutoAck))
        && notified == old(notified) + (if update then 1 else 0)
          + (if update && ActiveConfig().mAutoAck && (State() != old(State()) || !old(available)) then 1 else 0)
    {
      var update := pSubject == mpAlarmConfig;
      update := update || pSubject == mpAlarmConfig2;
      if update {
        if mActConfig == 1 {
          if mpAlarmConfig2.mAutoAck {
            var error := GetErrorPresent();
            var n := SetAlarmPresent(error);
          }
        } else {
          if mpAlarmConfig.mAutoAck {
            var error := GetErrorPresent();
            var n := SetAlarmPresent(error);
          }
        }
        notified := notified + 1;
      }
    }
  }
}
