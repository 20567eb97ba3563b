/** EventList: up to 21 timed events, sorted in place and queried by time. */
module EventLists {
  const MAX_ELEMENTS := 21

  /** An entry of mEvents: NULL or a pointer to an event. Events never change once created, so
      a pointer is modelled by what it points to. */
  datatype EventPtr = NULL | EventItem(time: int, value: int)

  predicate NoNull(s: seq<EventPtr>) {
    forall i :: 0 <= i < |s| ==> s[i].EventItem?
  }

  predicate Sorted(s: seq<EventPtr>)
    requires NoNull(s)
  {
    forall i, j :: 0 <= i < j < |s| ==> s[i].time <= s[j].time
  }

  // ----- the exchange sort, as a function

  function Swap(s: seq<EventPtr>, i: nat, j: nat): seq<EventPtr>
    requires i < |s| && j < |s|
  {
    s[i := s[j]][j := s[i]]
  }

  /** Element j exchanged with element i when that one is earlier. */
  function Exchanged(s: seq<EventPtr>, j: nat, i: nat): (r: seq<EventPtr>)
    requires NoNull(s) && j < i < |s|
    ensures |r| == |s| && NoNull(r)
  {
    if s[j].time > s[i].time then Swap(s, j, i) else s
  }

  /** The inner loop from i on: element j is exchanged with every later smaller one. */
  function Select(s: seq<EventPtr>, j: nat, i: nat): (r: seq<EventPtr>)
    requires NoNull(s) && j < i
    ensures |r| == |s| && NoNull(r)
    decreases |s| - i
  {
    if i >= |s| then s
    else Select(Exchanged(s, j, i), j, i + 1)
  }

  /** The outer loop from j on. */
  function SortFrom(s: seq<EventPtr>, j: nat): (r: seq<EventPtr>)
    requires NoNull(s)
    ensures |r| == |s| && NoNull(r)
    decreases |s| - j
  {
    if j + 1 >= |s| then s else SortFrom(Select(s, j, j + 1), j + 1)
  }

  lemma SwapPermutes(s: seq<EventPtr>, i: nat, j: nat)
    requires i < |s| && j < |s|
    ensures multiset(Swap(s, i, j)) == multiset(s)
  {
  }

  lemma ExchangeStep(s: seq<EventPtr>, j: nat, i: nat)
    requires NoNull(s) && j < i < |s|
    requires forall k :: j < k < i ==> s[j].time <= s[k].time
    ensures multiset(Exchanged(s, j, i)) == multiset(s) && Exchanged(s, j, i)[..j] == s[..j]
    ensures forall k :: j < k < i + 1 ==> Exchanged(s, j, i)[j].time <= Exchanged(s, j, i)[k].time
  {
    SwapPermutes(s, j, i);
  }

  /** The inner loop leaves the earliest of the elements from j on at j, and only rearranges. */
  lemma {:induction false} SelectFindsLeast(s: seq<EventPtr>, j: nat, i: nat)
    requires NoNull(s) && j < i <= |s|
    requires forall k :: j < k < i ==> s[j].time <= s[k].time
    ensures multiset(Select(s, j, i)) == multiset(s) && Select(s, j, i)[..j] == s[..j]
    ensures forall k :: j < k < |s| ==> Select(s, j, i)[j].time <= Select(s, j, i)[k].time
    decreases |s| - i
  {
    if i < |s| {
      ExchangeStep(s, j, i);
      SelectFindsLeast(Exchanged(s, j, i), j, i + 1);
    }
  }

  /** The elements before j are in order and none of them is later than any element from j on. */
  predicate SortedUpTo(s: seq<EventPtr>, j: nat)
    requires NoNull(s)
  {
    forall i, k :: 0 <= i < j && i < k < |s| ==> s[i].time <= s[k].time
  }

  lemma {:induction false} SortFromSorts(s: seq<EventPtr>, j: nat)
    requires NoNull(s) && SortedUpTo(s, j)
    ensures Sorted(SortFrom(s, j)) && multiset(SortFrom(s, j)) == multiset(s)
    decreases |s| - j
  {
    if j + 1 < |s| {
      var r := Select(s, j, j + 1);
      SelectFindsLeast(s, j, j + 1);
      SelectKeepsOrder(s, r, j);
      SortFromSorts(r, j + 1);
    }
  }

  /** Rearranging the elements from j on keeps them no earlier than those before j. */
  lemma SelectKeepsOrder(s: seq<EventPtr>, r: seq<EventPtr>, j: nat)
    requires NoNull(s) && NoNull(r) && SortedUpTo(s, j) && j < |s| == |r|
    requires multiset(r) == multiset(s) && r[..j] == s[..j]
    requires forall k :: j < k < |r| ==> r[j].time <= r[k].time
    ensures SortedUpTo(r, j + 1)
  {
    assert s == s[..j] + s[j..] && r == s[..j] + r[j..];
    CancelPrefix(s[..j], s[j..], r[j..]);
    forall i, k | 0 <= i < j + 1 && i < k < |r| ensures r[i].time <= r[k].time {
      if i < j <= k {
        assert r[k] == r[j..][k - j];
        assert r[k] in multiset(r[j..]);
        var m :| 0 <= m < |s[j..]| && s[j..][m] == r[k];
        assert s[j + m] == r[k] && s[i] == s[..j][i] == r[..j][i] == r[i];
      } else if k < j {
        assert s[i] == s[..j][i] == r[..j][i] == r[i] && s[k] == s[..j][k] == r[..j][k] == r[k];
      }
    }
  }

  lemma CancelPrefix(p: seq<EventPtr>, x: seq<EventPtr>, y: seq<EventPtr>)
    requires multiset(p + x) == multiset(p + y)
    ensures multiset(x) == multiset(y)
  {
    assert multiset(p + x) == multiset(p) + multiset(x) && multiset(p + y) == multiset(p) + multiset(y);
    forall e ensures multiset(x)[e] == multiset(y)[e] {
      assert multiset(p + x)[e] == multiset(p)[e] + multiset(x)[e];
      assert multiset(p + y)[e] == multiset(p)[e] + multiset(y)[e];
    }
  }

  /** SortEvents sorts every list and only rearranges it. */
  lemma SortsAndPermutes(s: seq<EventPtr>)
    requires NoNull(s)
    ensures Sorted(SortFrom(s, 0)) && multiset(SortFrom(s, 0)) == multiset(s)
  {
    SortFromSorts(s, 0);
  }

  /** Events of the same time are the same. */
  predicate TimesDetermine(s: seq<EventPtr>)
    requires NoNull(s)
  {
    forall i, j :: 0 <= i < j < |s| && s[i].time == s[j].time ==> s[i] == s[j]
  }

  /** Every list of the same events is sorted to the same list. */
  ghost predicate OrderFree(a: seq<EventPtr>)
    requires NoNull(a)
  {
    forall b :: NoNull(b) && multiset(b) == multiset(a) ==> SortFrom(b, 0) == SortFrom(a, 0)
  }

  /** The sorted list, and so every later lookup, is independent of the order in which the events
      were added exactly when no two different events have the same time. */
  lemma OrderFreeExactlyWhen(a: seq<EventPtr>)
    requires NoNull(a)
    ensures OrderFree(a) <==> TimesDetermine(a)
  {
    SortsAndPermutes(a);
    if TimesDetermine(a) {
      forall b | NoNull(b) && multiset(b) == multiset(a) ensures SortFrom(b, 0) == SortFrom(a, 0) {
        SortsAndPermutes(b);
        DeterminedByElements(a, SortFrom(a, 0));
        SortedUnique(SortFrom(a, 0), SortFrom(b, 0));
      }
    } else {
      var b := AnotherOrder(a);
    }
  }

  /** Two different events of the same time, exchanged in the sorted list, stay exchanged. */
  lemma AnotherOrder(a: seq<EventPtr>) returns (b: seq<EventPtr>)
    requires NoNull(a) && !TimesDetermine(a)
    ensures NoNull(b) && multiset(b) == multiset(a) && SortFrom(b, 0) != SortFrom(a, 0)
  {
    var s := SortFrom(a, 0);
    SortsAndPermutes(a);
    if TimesDetermine(s) {
      DeterminedByElements(s, a);
      assert false;
    }
    var i, j :| 0 <= i < j < |s| && s[i].time == s[j].time && s[i] != s[j];
    b := Swap(s, i, j);
    SwapSameTime(s, i, j);
    SortedStays(b, 0);
  }

  lemma SwapSameTime(s: seq<EventPtr>, i: nat, j: nat)
    requires NoNull(s) && Sorted(s) && i < j < |s| && s[i].time == s[j].time
    ensures NoNull(Swap(s, i, j)) && Sorted(Swap(s, i, j)) && multiset(Swap(s, i, j)) == multiset(s)
    ensures s[i] != s[j] ==> Swap(s, i, j) != s
  {
    var b := Swap(s, i, j);
    SwapPermutes(s, i, j);
    assert forall k :: 0 <= k < |s| ==> b[k].EventItem? && b[k].time == s[k].time;
    assert b[i] == s[j];
  }

  lemma DeterminedByElements(a: seq<EventPtr>, b: seq<EventPtr>)
    requires NoNull(a) && NoNull(b) && TimesDetermine(a) && multiset(a) == multiset(b)
    ensures TimesDetermine(b)
  {
    forall i, j | 0 <= i < j < |b| && b[i].time == b[j].time ensures b[i] == b[j] {
      assert b[i] in multiset(b) && b[j] in multiset(b);
      var k :| 0 <= k < |a| && a[k] == b[i];
      var m :| 0 <= m < |a| && a[m] == b[j];
    }
  }

  lemma {:induction false} SortedStays(s: seq<EventPtr>, j: nat)
    requires NoNull(s) && Sorted(s)
    ensures SortFrom(s, j) == s
    decreases |s| - j
  {
    if j + 1 < |s| {
      NothingToExchange(s, j, j + 1);
      SortedStays(s, j + 1);
    }
  }

  lemma {:induction false} NothingToExchange(s: seq<EventPtr>, j: nat, i: nat)
    requires NoNull(s) && Sorted(s) && j < i
    ensures Select(s, j, i) == s
    decreases |s| - i
  {
    if i < |s| {
      NothingToExchange(s, j, i + 1);
    }
  }

  lemma {:induction false} SortedUnique(a: seq<EventPtr>, b: seq<EventPtr>)
    requires NoNull(a) && NoNull(b) && Sorted(a) && Sorted(b) && TimesDetermine(a)
    requires multiset(a) == multiset(b)
    ensures a == b
  {
    assert |a| == |multiset(a)| == |multiset(b)| == |b|;
    if a != [] {
      SameFirst(a, b);
      assert a == [a[0]] + a[1..] && b == [a[0]] + b[1..];
      CancelPrefix([a[0]], a[1..], b[1..]);
      SortedUnique(a[1..], b[1..]);
    }
  }

  lemma SameFirst(a: seq<EventPtr>, b: seq<EventPtr>)
    requires NoNull(a) && NoNull(b) && Sorted(a) && Sorted(b) && TimesDetermine(a)
    requires multiset(a) == multiset(b) && a != [] && b != []
    ensures a[0] == b[0]
  {
    assert a[0] in multiset(b) && b[0] in multiset(a);
    var k :| 0 <= k < |b| && b[k] == a[0];
    var m :| 0 <= m < |a| && a[m] == b[0];
    assert a[0].time <= a[m].time && b[0].time <= b[k].time;
  }

  predicate DistinctTimes(s: seq<EventPtr>)
    requires NoNull(s)
  {
    forall i, j :: 0 <= i < j < |s| ==> s[i].time != s[j].time
  }

  /** With distinct times, in particular, the order of insertion does not matter. */
  lemma OrderIndependent(a: seq<EventPtr>, b: seq<EventPtr>)
    requires NoNull(a) && NoNull(b) && DistinctTimes(a) && multiset(a) == multiset(b)
    ensures SortFrom(a, 0) == SortFrom(b, 0)
  {
    OrderFreeExactlyWhen(a);
  }

  /** The smallest case: an exchange can carry an event past another of the same time. */
  lemma EqualTimesDepend()
    ensures var a, b, c := EventItem(2, 10), EventItem(2, 20), EventItem(1, 0);
      && NoNull([a, b, c]) && NoNull([b, a, c])
      && SortFrom([a, b, c], 0) == [c, b, a] && SortFrom([b, a, c], 0) == [c, a, b]
  {
    var a, b, c := EventItem(2, 10), EventItem(2, 20), EventItem(1, 0);
    SortThree(a, b, c);
    SortThree(b, a, c);
  }

  lemma SortThree(a: EventPtr, b: EventPtr, c: EventPtr)
    requires a.EventItem? && b.EventItem? && c.EventItem? && a.time == b.time == 2 && c.time == 1
    ensures SortFrom([a, b, c], 0) == [c, b, a]
  {
    assert Select([a, b, c], 0, 3) == [a, b, c];
    assert Select([a, b, c], 0, 2) == Select(Swap([a, b, c], 0, 2), 0, 3);
    assert Swap([a, b, c], 0, 2) == [c, b, a];
    assert Select([a, b, c], 0, 1) == [c, b, a];
    assert Select([c, b, a], 1, 2) == [c, b, a];
    assert SortFrom([c, b, a], 1) == SortFrom([c, b, a], 2);
  }

  // ----- what the queries mean on sorted lists

  /** How many events lie before the given time. */
  function Below(s: seq<EventPtr>, time: int): (n: nat)
    requires NoNull(s)
    ensures n <= |s|
  {
    if s == [] then 0
    else Below(s[..|s| - 1], time) + (if s[|s| - 1].time < time then 1 else 0)
  }

  /** On a sorted list these are exactly the first ones. */
  lemma {:induction false} BelowSplits(s: seq<EventPtr>, time: int)
    requires NoNull(s) && Sorted(s)
    ensures forall i :: 0 <= i < |s| ==> (s[i].time < time <==> i < Below(s, time))
  {
    if s != [] {
      BelowSplits(s[..|s| - 1], time);
    }
  }

  /** The point where a sorted list passes a time is the number of events before it. */
  lemma {:induction false} BelowIs(s: seq<EventPtr>, time: int, n: nat)
    requires NoNull(s) && n <= |s|
    requires forall i :: 0 <= i < |s| ==> (s[i].time < time <==> i < n)
    ensures Below(s, time) == n
  {
    if s != [] {
      BelowIs(s[..|s| - 1], time, if n < |s| then n else n - 1);
    }
  }

  /** Value of the last event before the given time, or -1. */
  function ValueBefore(s: seq<EventPtr>, time: int): int
    requires NoNull(s)
  {
    if Below(s, time) == 0 then -1 else s[Below(s, time) - 1].value
  }

  /** Time of the first event at or after the given time, or -1. */
  function NextTime(s: seq<EventPtr>, time: int): int
    requires NoNull(s)
  {
    if Below(s, time) == |s| then -1 else s[Below(s, time)].time
  }

  /** Event k is the last one at or before t. */
  predicate LastUpTo(s: seq<EventPtr>, k: int, t: int)
    requires NoNull(s)
  {
    0 <= k < |s| && s[k].time <= t && (k + 1 == |s| || s[k + 1].time > t)
  }

  predicate NoneUpTo(s: seq<EventPtr>, t: int)
    requires NoNull(s)
  {
    forall k :: 0 <= k < |s| ==> s[k].time > t
  }

  predicate NoneAfter(s: seq<EventPtr>, t: int)
    requires NoNull(s)
  {
    forall k :: 0 <= k < |s| ==> s[k].time <= t
  }

  /** On a sorted list the value at t is that of the last event at or before t, or -1 when there
      is none. */
  lemma ValueIsLast(s: seq<EventPtr>, t: int)
    requires NoNull(s) && Sorted(s)
    ensures forall k :: LastUpTo(s, k, t) ==> ValueBefore(s, t + 1) == s[k].value
    ensures NoneUpTo(s, t) ==> ValueBefore(s, t + 1) == -1
    ensures NoneUpTo(s, t) || exists k :: LastUpTo(s, k, t)
  {
    BelowSplits(s, t + 1);
    var n := Below(s, t + 1);
    if n > 0 {
      assert LastUpTo(s, n - 1, t);
    }
  }

  /** On a sorted list the next time after t is the least of the later event times, or -1 when
      there is none. */
  lemma NextIsLeast(s: seq<EventPtr>, t: int)
    requires NoNull(s) && Sorted(s)
    ensures NoneAfter(s, t) ==> NextTime(s, t + 1) == -1
    ensures !NoneAfter(s, t) ==>
      && NextTime(s, t + 1) > t
      && (exists k :: 0 <= k < |s| && s[k].time == NextTime(s, t + 1))
      && (forall k :: 0 <= k < |s| && s[k].time > t ==> NextTime(s, t + 1) <= s[k].time)
  {
    BelowSplits(s, t + 1);
    if Below(s, t + 1) < |s| {
      assert s[Below(s, t + 1)].time == NextTime(s, t + 1);
    }
  }

  /** Index of the first event of a list, sorted or not, that lies after t. */
  function FirstAfter(s: seq<EventPtr>, t: int): (p: nat)
    requires NoNull(s)
    ensures p <= |s| && (p < |s| ==> s[p].time > t)
    ensures forall k :: 0 <= k < p ==> s[k].time <= t
  {
    if s == [] || s[0].time > t then 0
    else
      assert forall k :: 0 < k < |s| ==> s[k] == s[1..][k - 1];
      1 + FirstAfter(s[1..], t)
  }

  lemma FirstAfterIs(s: seq<EventPtr>, t: int, p: nat)
    requires NoNull(s) && p <= |s| && (p < |s| ==> s[p].time > t)
    requires forall k :: 0 <= k < p ==> s[k].time <= t
    ensures FirstAfter(s, t) == p
  {
  }

  /** The number of events QueryEvents reports for [startTime, stopTime]. */
  function CountWithin(s: seq<EventPtr>, startTime: int, stopTime: int): nat
    requires NoNull(s)
  {
    var first, end := Below(s, startTime), Below(s, stopTime + 1);
    if first < end then end - first else 0
  }

  /** Between an event and the next one the value does not change. */
  lemma ValueConstantUntilNext(s: seq<EventPtr>, t: int, u: int)
    requires NoNull(s) && Sorted(s) && t <= u
    requires Below(s, t + 1) < |s| ==> u < NextTime(s, t + 1)
    ensures ValueBefore(s, t + 1) == ValueBefore(s, u + 1)
  {
    BelowSplits(s, t + 1);
    BelowIs(s, u + 1, Below(s, t + 1));
  }

  /** Counts over adjacent intervals add up, and each is the number of indices inside. */
  lemma AdjacentCounts(s: seq<EventPtr>, a: int, b: int, c: int)
    requires NoNull(s) && Sorted(s) && a <= b + 1 <= c + 1
    ensures CountWithin(s, a, b) + CountWithin(s, b + 1, c) == CountWithin(s, a, c)
  {
    BelowMonotone(s, a, b + 1);
    BelowMonotone(s, b + 1, c + 1);
  }

  lemma {:induction false} BelowMonotone(s: seq<EventPtr>, t: int, u: int)
    requires NoNull(s) && t <= u
    ensures Below(s, t) <= Below(s, u)
  {
    if s != [] {
      BelowMonotone(s[..|s| - 1], t, u);
    }
  }

  // ----- the list

  class EventList {
    var mNoOfEvents: nat
    const mEvents: array<EventPtr>

    predicate Valid()
      reads this, mEvents
    {
      mEvents.Length == MAX_ELEMENTS && mNoOfEvents <= MAX_ELEMENTS && NoNull(mEvents[..mNoOfEvents])
    }

    function Events(): seq<EventPtr>
      reads this, mEvents
      requires Valid()
    {
      mEvents[..mNoOfEvents]
    }

    constructor ()
      ensures Valid() && Events() == [] && fresh(mEvents)
    {
      mNoOfEvents := 0;
      mEvents := new EventPtr[MAX_ELEMENTS](_ => NULL);
    }

    /** The 22nd event is refused. */
    method AddEvent(time: int, value: int)
      requires Valid()
      modifies this, mEvents
      ensures Valid()
      ensures Events() == if |old(Events())| < 21
        then old(Events()) + [EventItem(time, value)] else old(Events())
    {
      if mNoOfEvents >= MAX_ELEMENTS {
      } else {
        ghost var was := Events();
        mEvents[mNoOfEvents] := EventItem(time, value);
        mNoOfEvents := mNoOfEvents + 1;
        assert mEvents[..mNoOfEvents] == was + [EventItem(time, value)];
      }
    }

    /** Status 2: no such event; status 1 (an empty slot in the list) cannot occur. */
    method GetEvent(index: int, time0: int, value0: int) returns (status: int, time: int, value: int)
      requires Valid()
      ensures 0 <= index < |Events()| ==> status == 0 && EventItem(time, value) == Events()[index]
      ensures !(0 <= index < |Events()|) ==> status == 2 && time == time0 && value == value0
    {
      status, time, value := 0, time0, value0;
      if index >= 0 && index < mNoOfEvents {
        assert mEvents[index] == Events()[index];
        if mEvents[index] != NULL {
          time := mEvents[index].time;
          value := mEvents[index].value;
        }
      } else {
        status := 2;
      }
    }

    /** Sorts in place by exchanging; slots behind the list are not touched. */
    method SortEvents()
      requires Valid()
      modifies mEvents
      ensures Valid() && Events() == SortFrom(old(Events()), 0)
      ensures Sorted(Events()) && multiset(Events()) == multiset(old(Events()))
      ensures mEvents[mNoOfEvents..] == old(mEvents[mNoOfEvents..])
    {
      SortsAndPermutes(Events());
      ghost var goal := SortFrom(Events(), 0);
      var j := 0;
      while j < mNoOfEvents - 1
        invariant 0 <= j && (j < mNoOfEvents || j == 0) && Valid()
        invariant SortFrom(Events(), j) == goal
        invariant mEvents[mNoOfEvents..] == old(mEvents[mNoOfEvents..])
      {
        SelectLeast(j);
        j := j + 1;
      }
    }

    /** The inner loop of SortEvents. */
    method SelectLeast(j: nat)
      requires Valid() && j + 1 < mNoOfEvents
      modifies mEvents
      ensures Valid() && Events() == Select(old(Events()), j, j + 1)
      ensures mEvents[mNoOfEvents..] == old(mEvents[mNoOfEvents..])
    {
      var i := j + 1;
      while i < mNoOfEvents
        invariant j < i <= mNoOfEvents && Valid()
        invariant Select(Events(), j, i) == Select(old(Events()), j, j + 1)
        invariant mEvents[mNoOfEvents..] == old(mEvents[mNoOfEvents..])
      {
        ghost var s := Events();
        if EventAt(j).time > EventAt(i).time {
          var temp_event := mEvents[j];
          mEvents[j] := mEvents[i];
          mEvents[i] := temp_event;
          assert mEvents[..mNoOfEvents] == Swap(s, j, i);
        }
        i := i + 1;
      }
    }

    /** Status 1 for a start after the stop, except that a start at or below 0 is let through.
        With status 0 on every list: the scan starts at the first event not before the start and
        ends before the first event from there that lies after the stop; start is written only for
        a non-empty one. On a sorted list the reported range is exactly the events inside the
        interval, and an empty range starts at the first later event or, when there is none, at
        the last event. */
    method QueryEvents(startTime: int, stopTime: int, start0: int) returns (status: int, start: int, count: nat)
      requires Valid()
      ensures status == if startTime > stopTime && startTime > 0 then 1 else 0
      ensures status == 1 || Events() == [] ==> count == 0 && start == start0
      ensures status == 0 && Events() != [] ==> 0 <= start < |Events()| && start + count <= |Events()|
      ensures status == 0 && Events() != [] ==>
        var p := FirstAfter(Events(), startTime - 1);
        && start == (if p < |Events()| then p else |Events()| - 1)
        && count == (if p < |Events()| then FirstAfter(Events()[p..], stopTime) else 0)
      ensures status == 0 && Events() != [] && Sorted(Events()) ==>
        && count == CountWithin(Events(), startTime, stopTime)
        && start == (if Below(Events(), startTime) < |Events()| then Below(Events(), startTime) else |Events()| - 1)
        && forall k :: 0 <= k < |Events()| ==>
             (start <= k < start + count <==> startTime <= Events()[k].time <= stopTime)
    {
      status := 0;
      start := start0;
      if startTime > stopTime && startTime > 0 {
        status := 1;
      }
      if mNoOfEvents > 0 && status == 0 {
        var i, stop := SkipBefore(startTime);
        start := i;
        i := SkipUpTo(i, stopTime, stop);
        if stop {
          count := 0;
        } else {
          count := i - start;
        }
        if Sorted(Events()) {
          QueryOnSorted(Events(), startTime, stopTime);
        }
      } else {
        count := 0;
      }
    }

    /** The first loop of QueryEvents: stops at the first event not before the start, or, with
        stop set, at the last event. */
    method SkipBefore(startTime: int) returns (i: int, stop: bool)
      requires Valid() && mNoOfEvents > 0
      ensures var p := FirstAfter(Events(), startTime - 1);
        (stop <==> p == |Events()|) && i == if stop then |Events()| - 1 else p
    {
      ghost var s := Events();
      i := 0;
      stop := false;
      while EventAt(i).time < startTime && !stop
        invariant 0 <= i < |s| && (stop ==> i == |s| - 1 && s[i].time < startTime)
        invariant forall k :: 0 <= k < i ==> s[k].time < startTime
        decreases !stop, |s| - i
      {
        if i > mNoOfEvents - 2 {
          stop := true;
        } else {
          i := i + 1;
        }
      }
      FirstAfterIs(s, startTime - 1, if stop then |s| else i);
    }

    /** The second loop, which does nothing after a stop: ends behind the last event taken. */
    method SkipUpTo(start: int, stopTime: int, stop: bool) returns (i: int)
      requires Valid() && 0 <= start < mNoOfEvents
      ensures i == if stop then start else start + FirstAfter(Events()[start..], stopTime)
    {
      ghost var s := Events();
      i := start;
      var stop1 := false;
      while EventAt(i).time <= stopTime && !stop && !stop1
        invariant start <= i < |s| && (stop ==> i == start && !stop1)
        invariant stop1 ==> i == |s| - 1 && s[i].time <= stopTime
        invariant forall k :: start <= k < i ==> s[k].time <= stopTime
        decreases !stop1, |s| - i
      {
        if i > mNoOfEvents - 2 {
          stop1 := true;
        } else {
          i := i + 1;
        }
      }
      if stop1 {
        i := i + 1;
      }
      if !stop {
        FirstAfterIs(s[start..], stopTime, i - start);
      }
    }

    /** The event a pointer of the list points to. */
    function EventAt(i: nat): EventPtr
      reads this, mEvents
      requires Valid() && i < mNoOfEvents
      ensures EventAt(i) == Events()[i] && EventAt(i).EventItem?
    {
      assert Events()[i].EventItem?;
      mEvents[i]
    }

    /** On every list the time of the first event after the given one, or -1; on a sorted list
        that is the least later time. */
    method GetTimeForNextEvent(time: int) returns (time_next_event: int)
      requires Valid()
      ensures var p := FirstAfter(Events(), time);
        time_next_event == if p < |Events()| then Events()[p].time else -1
      ensures NoneAfter(Events(), time) ==> time_next_event == -1
      ensures Sorted(Events()) && !NoneAfter(Events(), time) ==>
        && time_next_event > time
        && (forall k :: 0 <= k < |Events()| && Events()[k].time > time ==> time_next_event <= Events()[k].time)
      ensures Sorted(Events()) ==> time_next_event == NextTime(Events(), time + 1)
    {
      time_next_event := -1;
      ghost var s := Events();
      var i := 0;
      while i < mNoOfEvents
        invariant 0 <= i <= |s| && time_next_event == -1
        invariant forall k :: 0 <= k < i ==> s[k].time <= time
      {
        if EventAt(i).time > time {
          time_next_event := EventAt(i).time;
          NextScanned(s, time, i);
          return;
        }
        i := i + 1;
      }
      NextScanned(s, time, |s|);
    }

    /** On every list the value before its first event after the given time, or -1; on a sorted
        list that is the value of the last event at or before the given time. */
    method GetValue(time: int) returns (my_value: int)
      requires Valid()
      ensures var p := FirstAfter(Events(), time);
        my_value == if p > 0 then Events()[p - 1].value else -1
      ensures Sorted(Events()) ==> forall k :: LastUpTo(Events(), k, time) ==> my_value == Events()[k].value
      ensures NoneUpTo(Events(), time) ==> my_value == -1
      ensures Sorted(Events()) ==> my_value == ValueBefore(Events(), time + 1)
    {
      var i := 0;
      my_value := -1;
      ghost var s := Events();
      ghost var passed := 0;
      var run := mNoOfEvents != 0;
      while run
        invariant 0 <= passed <= i <= |s| && (run ==> passed == i < |s|)
        invariant !run ==> passed == |s| || s[passed].time > time
        invariant forall k :: 0 <= k < passed ==> s[k].time <= time
        invariant my_value == if passed == 0 then -1 else s[passed - 1].value
        decreases run, |s| - i
      {
        var my_time := EventAt(i).time;
        if my_time <= time {
          my_value := EventAt(i).value;
          passed := passed + 1;
        } else {
          run := false;
        }
        i := i + 1;
        if i >= mNoOfEvents {
          run := false;
        }
      }
      ValueScanned(s, time, passed);
    }
  }

  /** Where the scan of GetTimeForNextEvent stops. */
  lemma NextScanned(s: seq<EventPtr>, t: int, p: nat)
    requires NoNull(s) && p <= |s| && (p < |s| ==> s[p].time > t)
    requires forall k :: 0 <= k < p ==> s[k].time <= t
    ensures FirstAfter(s, t) == p && (NoneAfter(s, t) <==> p == |s|)
    ensures Sorted(s) && p < |s| ==> forall k :: 0 <= k < |s| && s[k].time > t ==> s[p].time <= s[k].time
    ensures Sorted(s) ==> NextTime(s, t + 1) == if p < |s| then s[p].time else -1
  {
    FirstAfterIs(s, t, p);
    if Sorted(s) {
      BelowIs(s, t + 1, p);
    }
  }

  /** Where the scan of GetValue stops. */
  lemma ValueScanned(s: seq<EventPtr>, t: int, p: nat)
    requires NoNull(s) && p <= |s| && (p < |s| ==> s[p].time > t)
    requires forall k :: 0 <= k < p ==> s[k].time <= t
    ensures FirstAfter(s, t) == p && (NoneUpTo(s, t) ==> p == 0)
    ensures Sorted(s) ==> forall k :: LastUpTo(s, k, t) ==> p > 0 && s[p - 1] == s[k]
    ensures Sorted(s) ==> ValueBefore(s, t + 1) == if p > 0 then s[p - 1].value else -1
  {
    FirstAfterIs(s, t, p);
    if Sorted(s) {
      BelowIs(s, t + 1, p);
      forall k | LastUpTo(s, k, t) ensures k == p - 1 {
        LastStands(s, t, p, k);
      }
    }
  }

  lemma LastStands(s: seq<EventPtr>, t: int, p: nat, k: int)
    requires NoNull(s) && Sorted(s) && p <= |s| && (p < |s| ==> s[p].time > t)
    requires (forall k :: 0 <= k < p ==> s[k].time <= t) && LastUpTo(s, k, t)
    ensures k == p - 1
  {
  }

  /** On a sorted list the two scans find what the query means. */
  lemma QueryOnSorted(s: seq<EventPtr>, startTime: int, stopTime: int)
    requires NoNull(s) && Sorted(s)
    ensures var first := FirstAfter(s, startTime - 1);
      var end := first + FirstAfter(s[first..], stopTime);
      && first == Below(s, startTime) && end - first == CountWithin(s, startTime, stopTime)
      && forall k :: 0 <= k < |s| ==> (first <= k < end <==> startTime <= s[k].time <= stopTime)
  {
    var first := FirstAfter(s, startTime - 1);
    var end := first + FirstAfter(s[first..], stopTime);
    BelowIs(s, startTime, first);
    assert end < |s| ==> s[end] == s[first..][end - first];
    forall k | first <= k < end ensures s[k].time <= stopTime {
      assert s[k] == s[first..][k - first];
    }
    QueryMeaning(s, startTime, stopTime, first, end);
  }

  /** Where the two scans of QueryEvents stop is what the query means. */
  lemma QueryMeaning(s: seq<EventPtr>, startTime: int, stopTime: int, first: nat, end: nat)
    requires NoNull(s) && Sorted(s) && first == Below(s, startTime) <= end <= |s|
    requires forall k :: first <= k < end ==> s[k].time <= stopTime
    requires end < |s| ==> s[end].time > stopTime
    ensures end - first == CountWithin(s, startTime, stopTime)
    ensures forall k :: 0 <= k < |s| ==> (first <= k < end <==> startTime <= s[k].time <= stopTime)
  {
    BelowSplits(s, startTime);
    BelowSplits(s, stopTime + 1);
  }
}
