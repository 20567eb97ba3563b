/** LowPrioPeriodicTask: the loop that runs its sub-tasks once a second and makes up for time
    it has lost. OS_GetTime is a parameter: true times are unbounded, the program reads their
    low 32 bits. */
module Schedulers {
  import opened CInt

  /** True times (ms) at which one pass read the clock before and after running the sub-tasks. */
  datatype Pass = Pass(start: int, end: int)

  datatype State = State(old_ms: I32, lost_ms: I32, wait_ms: I32)

  function Clamp(x: int, lo: int, hi: int): int {
    if x > hi then hi else if x < lo then lo else x
  }

  /** One pass in 32-bit arithmetic. */
  function Turn(s: State, new_ms: I32, end_ms: I32): (n: State)
    ensures 0 <= n.lost_ms <= 10000 && 500 <= n.wait_ms <= 1000
  {
    var lost_ms := Clamp(ToI32(ToI32(s.lost_ms + ToI32(new_ms - s.old_ms)) - 1000), 0, 10000);
    var wait_ms := ToI32(1000 - ToI32(end_ms - new_ms));
    State(new_ms, lost_ms, Clamp(ToI32(wait_ms - lost_ms / 20), 500, 1000))
  }

  /** The state after the given passes of a task started at true time t0. */
  function After(t0: int, passes: seq<Pass>): State
  {
    if passes == [] then State(ToI32(t0 - 1000), 0, 0)
    else
      var p := passes[|passes| - 1];
      Turn(After(t0, passes[..|passes| - 1]), ToI32(p.start), ToI32(p.end))
  }

  /** The loop over any finite number of passes; waits are the delays it asks for. */
  method LowPrioPeriodicTask(t0: int, passes: seq<Pass>) returns (waits: seq<I32>, lost: I32)
    ensures |waits| == |passes| && lost == After(t0, passes).lost_ms
    ensures forall k :: 0 <= k < |passes| ==> waits[k] == After(t0, passes[..k + 1]).wait_ms
    ensures forall k :: 0 <= k < |waits| ==> 500 <= waits[k] <= 1000
    ensures 0 <= lost <= 10000
  {
    var s := State(ToI32(t0 - 1000), 0, 0);
    waits := [];
    var k := 0;
    while k < |passes|
      invariant 0 <= k <= |passes| && |waits| == k
      invariant s == After(t0, passes[..k]) && 0 <= s.lost_ms <= 10000
      invariant forall j :: 0 <= j < k ==> waits[j] == After(t0, passes[..j + 1]).wait_ms
      invariant forall j :: 0 <= j < k ==> 500 <= waits[j] <= 1000
    {
      assert passes[..k + 1][..k] == passes[..k];
      s := OnePass(s, ToI32(passes[k].start), ToI32(passes[k].end));
      waits := waits + [s.wait_ms];
      k := k + 1;
    }
    assert passes[..k] == passes;
    lost := s.lost_ms;
  }

  /** The body of the loop, from the first reading of the clock to the delay. */
  method OnePass(s: State, start: I32, end: I32) returns (n: State)
    ensures n == Turn(s, start, end)
  {
    var old_ms: int, lost_ms: int := s.old_ms, s.lost_ms;
    var new_ms := start;
    var diff_ms: int := ToI32(end - new_ms);
    var wait_ms: int := ToI32(1000 - diff_ms);
    diff_ms := ToI32(new_ms - old_ms);
    old_ms := new_ms;
    lost_ms := ToI32(lost_ms + diff_ms);
    lost_ms := ToI32(lost_ms - 1000);
    if lost_ms > 10000 {
      lost_ms := 10000;
    } else if lost_ms < 0 {
      lost_ms := 0;
    }
    wait_ms := ToI32(wait_ms - lost_ms / 20);
    if wait_ms > 1000 {
      wait_ms := 1000;
    } else if wait_ms < 500 {
      wait_ms := 500;
    }
    n := State(old_ms, lost_ms, wait_ms);
  }

  /** One pass on any readings, in plain cases: the loss is summed modulo 2^32 and kept within 0 and
      10000, the wait made shorter by a twentieth of it and kept within 500 and 1000. */
  lemma TurnInCases(s: State, new_ms: I32, end_ms: I32)
    requires 0 <= s.lost_ms <= 10000
    ensures var n, lost := Turn(s, new_ms, end_ms), ToI32(s.lost_ms + new_ms - s.old_ms - 1000);
      && n.old_ms == new_ms
      && (lost > 10000 ==> n.lost_ms == 10000) && (lost < 0 ==> n.lost_ms == 0)
      && (0 <= lost <= 10000 ==> n.lost_ms == lost)
    ensures var n := Turn(s, new_ms, end_ms);
      var wait := ToI32(1000 - (end_ms - new_ms) - n.lost_ms / 20);
      && (wait > 1000 ==> n.wait_ms == 1000) && (wait < 500 ==> n.wait_ms == 500)
      && (500 <= wait <= 1000 ==> n.wait_ms == wait)
  {
    Loss(s.lost_ms, new_ms - s.old_ms);
    Shortened(end_ms - new_ms, Turn(s, new_ms, end_ms).lost_ms / 20);
  }

  lemma Loss(lost_ms: int, diff_ms: int)
    ensures ToI32(ToI32(lost_ms + ToI32(diff_ms)) - 1000) == ToI32(lost_ms + diff_ms - 1000)
  {
    AddI32(diff_ms, lost_ms);
    AddI32(lost_ms + diff_ms, -1000);
  }

  lemma Shortened(run_ms: int, catch_up: int)
    ensures ToI32(ToI32(1000 - ToI32(run_ms)) - catch_up) == ToI32(1000 - run_ms - catch_up)
  {
    DifferenceI32(1000, run_ms);
    AddI32(1000 - run_ms, -catch_up);
  }

  lemma DifferenceI32(a: int, b: int)
    ensures ToI32(a - ToI32(b)) == ToI32(a - b)
  {
    var k := Wraps(b);
    ModShift(a - b, k);
  }

  // ----- true time

  /** A pass whose times are close enough for the 32-bit clock not to matter. */
  predicate Close(p: Pass, prev: int) {
    0 <= p.end - p.start < 0x7fff_0000 && 0 <= p.start - prev < 0x7fff_0000
  }

  /** The wrap-around of the millisecond clock is invisible: a pass only depends on true
      differences. */
  lemma TurnOnTrueTimes(s: State, prev: int, p: Pass)
    requires s.old_ms == ToI32(prev) && 0 <= s.lost_ms <= 10000 && Close(p, prev)
    ensures var n := Turn(s, ToI32(p.start), ToI32(p.end));
      var lost := s.lost_ms + (p.start - prev) - 1000;
      var wait := 1000 - (p.end - p.start) - n.lost_ms / 20;
      && n.old_ms == ToI32(p.start)
      && n.lost_ms == (if lost > 10000 then 10000 else if lost < 0 then 0 else lost)
      && n.wait_ms == (if wait > 1000 then 1000 else if wait < 500 then 500 else wait)
  {
    TrueDifference(p.start, prev);
    TrueDifference(p.end, p.start);
    var diff, run := p.start - prev, p.end - p.start;
    Small(s.lost_ms + diff);
    Small(s.lost_ms + diff - 1000);
    Small(1000 - run);
    Small(1000 - run - Clamp(s.lost_ms + diff - 1000, 0, 10000) / 20);
  }

  lemma Small(x: int)
    requires -0x8000_0000 <= x < 0x8000_0000
    ensures ToI32(x) == x
  {
  }

  lemma TrueDifference(a: int, b: int)
    requires -0x8000_0000 <= a - b < 0x8000_0000
    ensures ToI32(ToI32(a) - ToI32(b)) == a - b
  {
    var ka := Wraps(a);
    var kb := Wraps(b);
    ModShift(ToI32(a) - ToI32(b), ka - kb);
  }

  lemma Wraps(a: int) returns (k: int)
    ensures a == ToI32(a) + k * 0x1_0000_0000
  {
    k := (a - ToI32(a)) / 0x1_0000_0000;
  }

  // ----- exact delays

  /** Each pass starts exactly when the delay asked for by the one before ends, and runs for
      less than 500 ms. */
  predicate ExactDelays(t0: int, passes: seq<Pass>) {
    && (forall k :: 0 <= k < |passes| ==> 0 <= passes[k].end - passes[k].start < 500)
    && (passes != [] ==> 0 <= passes[0].start - t0 < 0x7ffe_0000)
    && (forall k :: 0 < k < |passes| ==>
          passes[k].start == passes[k - 1].end + After(t0, passes[..k]).wait_ms)
  }

  /** The state follows the true time of the last start. */
  lemma {:induction false} FollowsTrueTime(t0: int, passes: seq<Pass>)
    requires ExactDelays(t0, passes)
    ensures After(t0, passes).old_ms == ToI32(if passes == [] then t0 - 1000 else passes[|passes| - 1].start)
    ensures 0 <= After(t0, passes).lost_ms <= 10000
  {
  }

  lemma ExactPrefix(t0: int, passes: seq<Pass>, n: nat)
    requires ExactDelays(t0, passes) && n <= |passes|
    ensures ExactDelays(t0, passes[..n])
  {
    forall k | 0 < k < n ensures passes[..n][..k] == passes[..k] {
    }
  }

  /** What one exactly delayed pass does to the lost time. */
  lemma NextLost(t0: int, passes: seq<Pass>)
    requires ExactDelays(t0, passes) && |passes| >= 2
    ensures var n := |passes| - 1;
      var lost := After(t0, passes[..n]).lost_ms;
      var lost' := After(t0, passes).lost_ms;
      && lost' <= lost
      && (lost >= 20 ==> lost' < lost)
      && (lost < 20 ==> lost' == lost && passes[n].start - passes[n - 1].start == 1000)
  {
    var n := |passes| - 1;
    var front := passes[..n];
    ExactPrefix(t0, passes, n);
    ExactPrefix(t0, passes, n - 1);
    FollowsTrueTime(t0, front);
    FollowsTrueTime(t0, passes[..n - 1]);
    assert front[..n - 1] == passes[..n - 1];
    var s0, s := After(t0, front[..n - 1]), After(t0, front);
    TurnOnTrueTimes(s0, if n == 1 then t0 - 1000 else passes[n - 2].start, passes[n - 1]);
    TurnOnTrueTimes(s, passes[n - 1].start, passes[n]);
    assert After(t0, passes) == Turn(s, ToI32(passes[n].start), ToI32(passes[n].end));
  }

  /** With exact delays the lost time never grows, and within as many passes as there were
      milliseconds lost it is below 20 ms for good. */
  lemma {:induction false} LostTimeIsCaughtUp(t0: int, passes: seq<Pass>)
    requires ExactDelays(t0, passes) && passes != []
    ensures var first, last := After(t0, passes[..1]).lost_ms, After(t0, passes).lost_ms;
      && last <= first <= 10000
      && (last < 20 || last <= first - (|passes| - 1))
    decreases |passes|
  {
    if |passes| == 1 {
      assert passes[..1] == passes;
    } else {
      var front := passes[..|passes| - 1];
      ExactPrefix(t0, passes, |passes| - 1);
      LostTimeIsCaughtUp(t0, front);
      assert front[..1] == passes[..1];
      NextLost(t0, passes);
    }
  }

  /** So after 9982 passes at the latest the task runs exactly once per second. */
  lemma SteadyPeriod(t0: int, passes: seq<Pass>)
    requires ExactDelays(t0, passes) && |passes| > 9982
    ensures After(t0, passes).lost_ms < 20
    ensures passes[|passes| - 1].start - passes[|passes| - 2].start == 1000
  {
    var front := passes[..|passes| - 1];
    ExactPrefix(t0, passes, |passes| - 1);
    LostTimeIsCaughtUp(t0, front);
    LostTimeIsCaughtUp(t0, passes);
    NextLost(t0, passes);
  }

  predicate UnclampedAt(t0: int, passes: seq<Pass>, k: nat)
    requires k < |passes|
  {
    var prev := if k == 0 then t0 - 1000 else passes[k - 1].start;
    Close(passes[k], prev) && 0 <= After(t0, passes[..k]).lost_ms + (passes[k].start - prev) - 1000 <= 10000
  }

  /** No pass of the run has its lost time cut to [0, 10000]. */
  predicate NeverClamped(t0: int, passes: seq<Pass>) {
    forall k :: 0 <= k < |passes| ==> UnclampedAt(t0, passes, k)
  }

  lemma NeverClampedPrefix(t0: int, passes: seq<Pass>)
    requires NeverClamped(t0, passes) && passes != []
    ensures NeverClamped(t0, passes[..|passes| - 1])
  {
    var front := passes[..|passes| - 1];
    forall k | 0 <= k < |front| ensures UnclampedAt(t0, front, k) {
      assert UnclampedAt(t0, passes, k) && front[..k] == passes[..k];
    }
  }

  /** Then the lost time is what the clock says: elapsed time minus one second per pass. */
  lemma {:induction false} LostTimeTelescopes(t0: int, passes: seq<Pass>)
    requires NeverClamped(t0, passes) && passes != []
    ensures After(t0, passes).lost_ms == passes[|passes| - 1].start - t0 - 1000 * (|passes| - 1)
    ensures After(t0, passes).old_ms == ToI32(passes[|passes| - 1].start)
    decreases |passes|
  {
    var n := |passes| - 1;
    var front := passes[..n];
    var prev := if n == 0 then t0 - 1000 else passes[n - 1].start;
    assert UnclampedAt(t0, passes, n);
    if n > 0 {
      NeverClampedPrefix(t0, passes);
      LostTimeTelescopes(t0, front);
    }
    TurnOnTrueTimes(After(t0, front), prev, passes[n]);
  }
}
