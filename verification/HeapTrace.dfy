/** The heap trace of new.cpp, as built with allocation tracing and the leakage test switched on
    and without guard bytes. The global variables are the fields of one object. An endless
    fatal-error loop is a method that reports stuck; nothing happens after it. */
module HeapTraces {
  import opened Seqs

  /** An entry of g_mpc_heap_allocations; address 0 is NULL. */
  datatype Area = Area(pAllocationStart: nat, size: nat)

  function TotalSize(s: seq<Area>): nat {
    if s == [] then 0 else TotalSize(s[..|s| - 1]) + s[|s| - 1].size
  }

  predicate Distinct(s: seq<Area>) {
    forall i, j :: 0 <= i < j < |s| ==> s[i].pAllocationStart != s[j].pAllocationStart
  }

  predicate Holds(s: seq<Area>, p: nat) {
    exists i :: 0 <= i < |s| && s[i].pAllocationStart == p
  }

  /** Position of a block, or |s| when it is not there. */
  function Find(s: seq<Area>, p: nat): (k: nat)
    ensures k <= |s|
    ensures k < |s| ==> s[k].pAllocationStart == p
    ensures k == |s| <==> !Holds(s, p)
  {
    if s == [] then 0
    else if s[0].pAllocationStart == p then 0
    else
      assert forall i :: 0 <= i < |s| - 1 ==> s[1..][i] == s[i + 1];
      1 + Find(s[1..], p)
  }

  function Without(s: seq<Area>, k: nat): seq<Area>
    requires k < |s|
  {
    s[..k] + s[k + 1..]
  }

  lemma {:induction false} TotalAppend(a: seq<Area>, b: seq<Area>)
    ensures TotalSize(a + b) == TotalSize(a) + TotalSize(b)
    decreases |b|
  {
    if b == [] {
      assert a + b == a;
    } else {
      TotalAppend(a, b[..|b| - 1]);
      LastOfSum(a, b);
    }
  }

  lemma TotalWithout(s: seq<Area>, k: nat)
    requires k < |s|
    ensures TotalSize(s) == TotalSize(Without(s, k)) + s[k].size
  {
    Parted(s, k);
    TotalAppend(s[..k + 1], s[k + 1..]);
    TotalAppend(s[..k], s[k + 1..]);
    TotalFirst(s, k);
  }

  lemma Parted(s: seq<Area>, k: nat)
    requires k < |s|
    ensures s[..k + 1] + s[k + 1..] == s
  {
  }

  lemma TotalFirst(s: seq<Area>, k: nat)
    requires k < |s|
    ensures TotalSize(s[..k + 1]) == TotalSize(s[..k]) + s[k].size
  {
    assert s[..k + 1][..k] == s[..k];
  }

  lemma IsWithout(s: seq<Area>, live: seq<Area>, k: nat)
    requires k < |live| == |s| + 1
    requires forall i :: 0 <= i < k ==> s[i] == live[i]
    requires forall i :: k <= i < |s| ==> s[i] == live[i + 1]
    ensures s == Without(live, k)
  {
  }

  /** First slot from i on that holds no block, or |t|. */
  function FirstFree(t: seq<Area>, i: nat): (k: nat)
    requires i <= |t|
    ensures i <= k <= |t| && (k < |t| ==> t[k].pAllocationStart == 0)
    ensures forall j :: i <= j < k ==> t[j].pAllocationStart != 0
    decreases |t| - i
  {
    if i == |t| || t[i].pAllocationStart == 0 then i else FirstFree(t, i + 1)
  }

  // ----- the table

  /** The first n entries are distinct blocks of total bytes in all, the others are free. */
  predicate TableOk(t: seq<Area>, n: nat, total: int) {
    && n <= |t|
    && (forall i :: 0 <= i < |t| ==> (t[i].pAllocationStart != 0 <==> i < n))
    && Distinct(t[..n])
    && total == TotalSize(t[..n])
  }

  lemma AddedOk(t: seq<Area>, n: nat, total: int, a: Area)
    requires TableOk(t, n, total) && n < |t| && a.pAllocationStart != 0 && !Holds(t[..n], a.pAllocationStart)
    ensures FirstFree(t, n) == n && t[n := a][..n + 1] == t[..n] + [a]
    ensures TableOk(t[n := a], n + 1, total + a.size)
  {
    var live := t[..n] + [a];
    assert t[n := a][..n + 1] == live;
    assert forall i :: 0 <= i < n ==> live[i] == t[..n][i];
    assert TotalSize(live) == total + a.size by { assert live[..n] == t[..n]; }
  }

  lemma RemovedOk(t: seq<Area>, n: nat, total: int, k: nat, t': seq<Area>)
    requires TableOk(t, n, total) && k < n && |t'| == |t| && t'[..n - 1] == Without(t[..n], k)
    requires forall i :: n - 1 <= i < |t| ==> t'[i].pAllocationStart == 0
    ensures TableOk(t', n - 1, total - t[k].size)
  {
    DistinctWithout(t[..n], k);
    TotalWithout(t[..n], k);
    var w := Without(t[..n], k);
    assert forall i :: 0 <= i < n - 1 ==> t'[i] == w[i] == t[if i < k then i else i + 1];
  }

  // ----- one operation

  datatype Op = Malloc(p: nat, size: nat) | Free(p: nat)

  /** The live blocks after an operation, unless it ends in an endless loop. */
  datatype Outcome = Running(live: seq<Area>) | Stuck

  /** What find_block answers: 0 for a block that is not there, and for the oldest one. */
  function FoundAt(live: seq<Area>, p: nat): (k: nat)
    ensures k > 0 ==> k < |live| && live[k].pAllocationStart == p
  {
    if Find(live, p) < |live| then Find(live, p) else 0
  }

  /** Every block but the oldest is found where it stands; no other address is found. */
  lemma FoundExactly(live: seq<Area>, p: nat)
    requires Distinct(live)
    ensures forall k :: 0 < k < |live| && live[k].pAllocationStart == p ==> FoundAt(live, p) == k
    ensures FoundAt(live, p) == 0 <==> forall k :: 0 < k < |live| ==> live[k].pAllocationStart != p
  {
    forall k | 0 < k < |live| && live[k].pAllocationStart == p ensures FoundAt(live, p) == k {
      assert Holds(live, p);
    }
  }

  /** Operations that cannot go on: the system has no memory, the table is full, or the address is
      that of no block behind the oldest. */
  predicate Refused(live: seq<Area>, op: Op, max: nat) {
    match op
    case Malloc(p, _) => p == 0 || |live| == max
    case Free(p) => p != 0 && forall k :: 0 < k < |live| ==> live[k].pAllocationStart != p
  }

  /** An operation gets stuck exactly then. Otherwise it adds the new block behind the others, or
      takes out just the block that is freed. */
  lemma PerformExactly(live: seq<Area>, op: Op, max: nat)
    requires Distinct(live) && |live| <= max
    ensures Perform(live, op, max) == Stuck <==> Refused(live, op, max)
    ensures !Refused(live, op, max) && op.Malloc? ==> Perform(live, op, max) == Running(live + [Area(op.p, op.size)])
    ensures op == Free(0) ==> Perform(live, op, max) == Running(live)
    ensures forall k :: 0 < k < |live| && op == Free(live[k].pAllocationStart) && op.p != 0 ==>
      Perform(live, op, max) == Running(live[..k] + live[k + 1..])
  {
    FoundExactly(live, op.p);
  }

  function Perform(live: seq<Area>, op: Op, max: nat): Outcome {
    match op
    case Malloc(p, size) => if p == 0 || |live| >= max then Stuck else Running(live + [Area(p, size)])
    case Free(p) =>
      if p == 0 then Running(live)
      else if FoundAt(live, p) > 0 then Running(Without(live, FoundAt(live, p)))
      else Stuck
  }

  class HeapTrace {
    const g_mpc_heap_allocations: array<Area>
    var no_of_heap_blocks_allocated: nat
    var g_mpc_total_bytes_allocated: int

    /** The live blocks, in allocation order. */
    function Live(): seq<Area>
      reads this, g_mpc_heap_allocations
      requires no_of_heap_blocks_allocated <= g_mpc_heap_allocations.Length
    {
      g_mpc_heap_allocations[..no_of_heap_blocks_allocated]
    }

    /** The table is a gap-free prefix of distinct blocks, and the byte count is theirs. */
    predicate Valid()
      reads this, g_mpc_heap_allocations
    {
      TableOk(g_mpc_heap_allocations[..], no_of_heap_blocks_allocated, g_mpc_total_bytes_allocated)
    }

    constructor (maxBlocks: nat)
      ensures Valid() && Live() == [] && fresh(g_mpc_heap_allocations)
      ensures g_mpc_heap_allocations.Length == maxBlocks
    {
      g_mpc_heap_allocations := new Area[maxBlocks](_ => Area(0, 0));
      no_of_heap_blocks_allocated, g_mpc_total_bytes_allocated := 0, 0;
    }

    /** Searches down from the first free slot. Slot 0 is never looked at: 0 stands for "not
        found", so the oldest block is not found either. */
    method find_block(pAllocStart: nat) returns (index: nat)
      requires Valid() && pAllocStart != 0
      ensures forall k :: 0 < k < |Live()| && Live()[k].pAllocationStart == pAllocStart ==> index == k
      ensures index > 0 ==> index < |Live()| && Live()[index].pAllocationStart == pAllocStart
      ensures index == FoundAt(Live(), pAllocStart)
    {
      FoundExactly(Live(), pAllocStart);
      var i := no_of_heap_blocks_allocated;
      if i >= g_mpc_heap_allocations.Length {
        i := g_mpc_heap_allocations.Length - 1;
      }
      while i > 0
        invariant i <= 0 || (i <= no_of_heap_blocks_allocated && i < g_mpc_heap_allocations.Length)
        invariant forall k :: i < k < |Live()| && k >= 1 ==> Live()[k].pAllocationStart != pAllocStart
      {
        if g_mpc_heap_allocations[i].pAllocationStart == pAllocStart {
          assert Live()[i].pAllocationStart == pAllocStart;
          return i;
        }
        i := i - 1;
      }
      index := 0;
    }

    /** Where insert_block starts looking for a free slot: behind the counted blocks, or from
        the beginning when the last of these is free. */
    function SearchStart(): nat
      reads this, g_mpc_heap_allocations
      requires no_of_heap_blocks_allocated <= g_mpc_heap_allocations.Length
    {
      var n := no_of_heap_blocks_allocated;
      if n > 0 && g_mpc_heap_allocations[n - 1].pAllocationStart == 0 then 0 else n
    }

    /** Fills the first free slot from there on, and is stuck when there is none. */
    method insert_block(size: nat, pAllocStart: nat) returns (stuck: bool)
      requires no_of_heap_blocks_allocated <= g_mpc_heap_allocations.Length
      modifies `g_mpc_total_bytes_allocated, g_mpc_heap_allocations
      ensures var was := old(g_mpc_heap_allocations[..]);
        var slot := FirstFree(was, old(SearchStart()));
        && (stuck <==> slot == |was|)
        && g_mpc_heap_allocations[..] == (if stuck then was else was[slot := Area(pAllocStart, size)])
      ensures g_mpc_total_bytes_allocated == old(g_mpc_total_bytes_allocated) + (if stuck then 0 else size)
    {
      var i := no_of_heap_blocks_allocated;
      if i > 0 && g_mpc_heap_allocations[no_of_heap_blocks_allocated - 1].pAllocationStart == 0 {
        i := 0;
      }
      while i < g_mpc_heap_allocations.Length
        invariant i <= g_mpc_heap_allocations.Length
        invariant FirstFree(g_mpc_heap_allocations[..], i) == FirstFree(g_mpc_heap_allocations[..], SearchStart())
      {
        if g_mpc_heap_allocations[i].pAllocationStart == 0 {
          g_mpc_heap_allocations[i] := Area(pAllocStart, size);
          g_mpc_total_bytes_allocated := g_mpc_total_bytes_allocated + size;
          return false;
        }
        i := i + 1;
      }
      stuck := true;
    }

    /** Takes out one block that is not the oldest and closes the gap, so that the table is
        again a prefix, one shorter. For any other address it is stuck and changes nothing. */
    method remove_block(pAllocStart: nat) returns (stuck: bool)
      requires Valid() && pAllocStart != 0
      modifies `g_mpc_total_bytes_allocated, g_mpc_heap_allocations
      ensures stuck <==> FoundAt(old(Live()), pAllocStart) == 0
      ensures stuck ==>
        && g_mpc_heap_allocations[..] == old(g_mpc_heap_allocations[..])
        && g_mpc_total_bytes_allocated == old(g_mpc_total_bytes_allocated)
      ensures var k := FoundAt(old(Live()), pAllocStart);
        !stuck ==>
          && g_mpc_heap_allocations[..|old(Live())| - 1] == Without(old(Live()), k)
          && g_mpc_total_bytes_allocated == old(g_mpc_total_bytes_allocated) - old(Live())[k].size
      ensures !stuck ==> forall i :: |old(Live())| - 1 <= i < g_mpc_heap_allocations.Length ==>
        g_mpc_heap_allocations[i].pAllocationStart == 0
    {
      var index := find_block(pAllocStart);
      if index > 0 {
        ghost var live, n := Live(), no_of_heap_blocks_allocated;
        g_mpc_heap_allocations[index] := g_mpc_heap_allocations[index].(pAllocationStart := 0);
        g_mpc_total_bytes_allocated := g_mpc_total_bytes_allocated - g_mpc_heap_allocations[index].size;
        compress(index);
        IsWithout(g_mpc_heap_allocations[..n - 1], live, index);
        stuck := false;
      } else {
        stuck := true;
      }
    }

    /** Moves the entries behind a freed one down by one, up to the first free entry. */
    method compress(index: nat)
      requires index < no_of_heap_blocks_allocated <= g_mpc_heap_allocations.Length
      requires forall k :: 0 <= k < g_mpc_heap_allocations.Length ==>
        (g_mpc_heap_allocations[k].pAllocationStart != 0 <==> k < no_of_heap_blocks_allocated && k != index)
      modifies g_mpc_heap_allocations
      ensures forall k :: 0 <= k < index ==> g_mpc_heap_allocations[k] == old(g_mpc_heap_allocations[k])
      ensures forall k :: index <= k < no_of_heap_blocks_allocated - 1 ==>
        g_mpc_heap_allocations[k] == old(g_mpc_heap_allocations[k + 1])
      ensures forall k :: no_of_heap_blocks_allocated - 1 <= k < g_mpc_heap_allocations.Length ==>
        g_mpc_heap_allocations[k].pAllocationStart == 0
    {
      var i := index + 1;
      while i < g_mpc_heap_allocations.Length
        invariant index + 1 <= i <= no_of_heap_blocks_allocated
        invariant g_mpc_heap_allocations[i - 1].pAllocationStart == 0
        invariant forall k :: 0 <= k < index ==> g_mpc_heap_allocations[k] == old(g_mpc_heap_allocations[k])
        invariant forall k :: index <= k < i - 1 ==> g_mpc_heap_allocations[k] == old(g_mpc_heap_allocations[k + 1])
        invariant forall k :: i <= k < g_mpc_heap_allocations.Length ==>
          g_mpc_heap_allocations[k] == old(g_mpc_heap_allocations[k])
      {
        if g_mpc_heap_allocations[i].pAllocationStart != 0 {
          g_mpc_heap_allocations[i - 1] := g_mpc_heap_allocations[i];
          g_mpc_heap_allocations[i] := g_mpc_heap_allocations[i].(pAllocationStart := 0);
        } else {
          break;
        }
        i := i + 1;
      }
    }

    /** res is what the system allocator returned: NULL, or memory not in use. */
    method mpc_malloc(size: nat, res: nat) returns (p: nat, stuck: bool)
      requires Valid() && !Holds(Live(), res)
      modifies this, g_mpc_heap_allocations
      ensures Valid() && p == res
      ensures (if stuck then Stuck else Running(Live()))
        == Perform(old(Live()), Malloc(res, size), g_mpc_heap_allocations.Length)
      ensures stuck <==> res == 0 || |old(Live())| == g_mpc_heap_allocations.Length
      ensures Live() == if stuck then old(Live()) else old(Live()) + [Area(res, size)]
    {
      p := res;
      stuck := true;
      ghost var was, n, total := g_mpc_heap_allocations[..], no_of_heap_blocks_allocated, g_mpc_total_bytes_allocated;
      assert SearchStart() == n;
      if res != 0 {
        stuck := insert_block(size, res);
        if !stuck {
          AddedOk(was, n, total, Area(res, size));
          no_of_heap_blocks_allocated := no_of_heap_blocks_allocated + 1;
          assert Live() == was[n := Area(res, size)][..n + 1];
        }
      }
    }

    /** NULL is ignored; freeing the oldest block, or an address not in the table, is stuck. */
    method mpc_free(pMem: nat) returns (stuck: bool)
      requires Valid()
      modifies this, g_mpc_heap_allocations
      ensures Valid()
      ensures (if stuck then Stuck else Running(Live()))
        == Perform(old(Live()), Free(pMem), g_mpc_heap_allocations.Length)
      ensures stuck <==> pMem != 0 && forall k :: 0 < k < |old(Live())| ==> old(Live())[k].pAllocationStart != pMem
      ensures stuck || pMem == 0 ==> Live() == old(Live())
      ensures forall k :: 0 < k < |old(Live())| && pMem == old(Live())[k].pAllocationStart != 0 ==>
        Live() == old(Live())[..k] + old(Live())[k + 1..]
    {
      PerformExactly(Live(), Free(pMem), g_mpc_heap_allocations.Length);
      if pMem == 0 {
        return false;
      }
      ghost var was, n, total := g_mpc_heap_allocations[..], no_of_heap_blocks_allocated, g_mpc_total_bytes_allocated;
      ghost var k := FoundAt(Live(), pMem);
      stuck := remove_block(pMem);
      if !stuck {
        RemovedOk(was, n, total, k, g_mpc_heap_allocations[..]);
        no_of_heap_blocks_allocated := no_of_heap_blocks_allocated - 1;
      }
    }
  }

  // ----- whole runs

  function Replay(live: seq<Area>, ops: seq<Op>, max: nat): Outcome
    decreases |ops|
  {
    if ops == [] then Running(live)
    else
      match Perform(live, ops[0], max)
      case Running(next) => Replay(next, ops[1..], max)
      case Stuck => Stuck
  }

  /** Distinct blocks, none of them NULL. */
  predicate Blocks(live: seq<Area>) {
    Distinct(live) && forall i :: 0 <= i < |live| ==> live[i].pAllocationStart != 0
  }

  predicate FreedIn(ops: seq<Op>, p: nat) {
    exists i :: 0 <= i < |ops| && ops[i] == Free(p)
  }

  /** The blocks that are not freed during the run. */
  function Kept(live: seq<Area>, ops: seq<Op>): seq<Area> {
    if live == [] then []
    else
      Kept(live[..|live| - 1], ops)
        + (if FreedIn(ops, live[|live| - 1].pAllocationStart) then [] else [live[|live| - 1]])
  }

  /** The allocations of the run that are not freed later in it, in order. */
  function Survivors(ops: seq<Op>): seq<Area> {
    if ops == [] then []
    else if ops[0].Malloc? && !FreedIn(ops[1..], ops[0].p) then [Area(ops[0].p, ops[0].size)] + Survivors(ops[1..])
    else Survivors(ops[1..])
  }

  /** The blocks allocated, before or during the operations, and not freed since. */
  function Held(live: seq<Area>, ops: seq<Op>): seq<Area> {
    Kept(live, ops) + Survivors(ops)
  }

  /** The system allocator never hands out memory in use. */
  predicate FreshMemory(live: seq<Area>, ops: seq<Op>) {
    forall i :: 0 <= i < |ops| && ops[i].Malloc? ==> !Holds(Held(live, ops[..i]), ops[i].p)
  }

  /** Some operation of the run finds its memory exhausted, the table full, or an address that is
      NULL neither nor that of a held block behind the oldest. */
  predicate SomeRefused(live: seq<Area>, ops: seq<Op>, max: nat) {
    exists i :: 0 <= i < |ops| && Refused(Held(live, ops[..i]), ops[i], max)
  }

  /** A run gets stuck exactly then. Otherwise the table holds exactly the blocks allocated and not
      freed since, in allocation order, and no block twice. */
  lemma {:induction false} RunHoldsSurvivors(live: seq<Area>, ops: seq<Op>, max: nat)
    requires Blocks(live) && |live| <= max && FreshMemory(live, ops)
    ensures Replay(live, ops, max) == Stuck <==> SomeRefused(live, ops, max)
    ensures !SomeRefused(live, ops, max) ==>
      Replay(live, ops, max) == Running(Held(live, ops)) && Blocks(Held(live, ops)) && |Held(live, ops)| <= max
    decreases |ops|
  {
    NoneFreed(live);
    Empty(live);
    if ops != [] {
      assert ops[..0] == [] && Held(live, ops[..0]) == live;
      PerformExactly(live, ops[0], max);
      match Perform(live, ops[0], max) {
        case Stuck => assert Refused(Held(live, ops[..0]), ops[0], max);
        case Running(next) =>
          StepKeeps(live, ops, max);
          RefusedLater(live, ops, max, next);
          RunHoldsSurvivors(next, ops[1..], max);
      }
    }
  }

  /** The first operation does not change what is held before a later one. */
  lemma RefusedLater(live: seq<Area>, ops: seq<Op>, max: nat, next: seq<Area>)
    requires Blocks(live) && |live| <= max && ops != [] && FreshMemory(live, ops)
    requires Perform(live, ops[0], max) == Running(next) && !Refused(Held(live, ops[..0]), ops[0], max)
    ensures FreshMemory(next, ops[1..]) && (SomeRefused(next, ops[1..], max) <==> SomeRefused(live, ops, max))
  {
    forall i | 0 <= i < |ops| - 1
      ensures ops[1..][i] == ops[i + 1] && Held(next, ops[1..][..i]) == Held(live, ops[..i + 1])
    {
      HeldLater(live, ops, max, next, i);
    }
    if SomeRefused(live, ops, max) {
      var i :| 0 <= i < |ops| && Refused(Held(live, ops[..i]), ops[i], max);
      assert Refused(Held(next, ops[1..][..i - 1]), ops[1..][i - 1], max);
    }
    if SomeRefused(next, ops[1..], max) {
      var i :| 0 <= i < |ops[1..]| && Refused(Held(next, ops[1..][..i]), ops[1..][i], max);
      assert Refused(Held(live, ops[..i + 1]), ops[i + 1], max);
    }
  }

  lemma HeldLater(live: seq<Area>, ops: seq<Op>, max: nat, next: seq<Area>, i: nat)
    requires Blocks(live) && |live| <= max && i < |ops| - 1 && FreshMemory(live, ops)
    requires Perform(live, ops[0], max) == Running(next)
    ensures Held(next, ops[1..][..i]) == Held(live, ops[..i + 1])
  {
    var first := ops[..i + 1];
    assert first[0] == ops[0] && first[1..] == ops[1..][..i];
    assert FreshMemory(live, first) by {
      assert forall j :: 0 <= j < |first| ==> first[..j] == ops[..j] && first[j] == ops[j];
    }
    StepKeeps(live, first, max);
  }

  /** One operation moves a block from the allocations to the kept ones, or drops a freed one. */
  lemma StepKeeps(live: seq<Area>, ops: seq<Op>, max: nat)
    requires Blocks(live) && |live| <= max && ops != [] && FreshMemory(live, ops)
    requires Perform(live, ops[0], max).Running?
    ensures var next := Perform(live, ops[0], max).live;
      Blocks(next) && |next| <= max && Held(next, ops[1..]) == Held(live, ops)
  {
    match ops[0] {
      case Malloc(p, size) =>
        NoneFreed(live);
        Empty(live);
        assert ops[..0] == [] && Held(live, ops[..0]) == live;
        BlocksAppend(live, Area(p, size));
        MallocKeeps(live, ops, p, size);
      case Free(p) =>
        if p == 0 {
          KeptOthers(live, ops);
        } else {
          var k := FoundAt(live, p);
          DistinctWithout(live, k);
          assert forall i :: 0 <= i < |live| - 1 ==> Without(live, k)[i] == live[if i < k then i else i + 1];
          KeptAfterFree(live, k, ops);
        }
    }
  }

  lemma MallocKeeps(live: seq<Area>, ops: seq<Op>, p: nat, size: nat)
    requires ops != [] && ops[0] == Malloc(p, size)
    ensures Kept(live + [Area(p, size)], ops[1..]) + Survivors(ops[1..]) == Kept(live, ops) + Survivors(ops)
  {
    var kept, later := Kept(live, ops), Survivors(ops[1..]);
    KeptAppend(live, Area(p, size), ops[1..]);
    KeptSkipsMalloc(live, ops);
    if FreedIn(ops[1..], p) {
      Empty(kept);
    } else {
      Regroup(kept, [Area(p, size)], later);
    }
  }

  lemma BlocksAppend(live: seq<Area>, a: Area)
    requires Blocks(live) && a.pAllocationStart != 0 && !Holds(live, a.pAllocationStart)
    ensures Blocks(live + [a])
  {
  }

  lemma DistinctWithout(live: seq<Area>, k: nat)
    requires k < |live| && Distinct(live)
    ensures Distinct(Without(live, k))
  {
    var w := Without(live, k);
    assert forall i :: 0 <= i < |w| ==> w[i] == live[if i < k then i else i + 1];
  }

  lemma KeptAppend(live: seq<Area>, a: Area, ops: seq<Op>)
    ensures Kept(live + [a], ops) == Kept(live, ops) + (if FreedIn(ops, a.pAllocationStart) then [] else [a])
  {
    assert (live + [a])[..|live|] == live;
  }

  lemma {:induction false} NoneFreed(live: seq<Area>)
    ensures Kept(live, []) == live
  {
    if live != [] {
      NoneFreed(live[..|live| - 1]);
    }
  }

  lemma {:induction false} KeptSkipsMalloc(live: seq<Area>, ops: seq<Op>)
    requires ops != [] && ops[0].Malloc?
    ensures Kept(live, ops) == Kept(live, ops[1..])
  {
    if live != [] {
      KeptSkipsMalloc(live[..|live| - 1], ops);
      FreedInTail(ops, live[|live| - 1].pAllocationStart);
    }
  }

  lemma FreedInTail(ops: seq<Op>, p: nat)
    requires ops != []
    ensures FreedIn(ops, p) <==> ops[0] == Free(p) || FreedIn(ops[1..], p)
  {
    if FreedIn(ops, p) {
      var i :| 0 <= i < |ops| && ops[i] == Free(p);
      if i > 0 {
        assert ops[1..][i - 1] == Free(p);
      }
    }
    if FreedIn(ops[1..], p) {
      var i :| 0 <= i < |ops[1..]| && ops[1..][i] == Free(p);
      assert ops[i + 1] == Free(p);
    }
  }

  lemma {:induction false} KeptAfterFree(live: seq<Area>, k: nat, ops: seq<Op>)
    requires k < |live| && Distinct(live) && ops != [] && ops[0] == Free(live[k].pAllocationStart)
    ensures Kept(live, ops) == Kept(Without(live, k), ops[1..])
  {
    var last := |live| - 1;
    FreedInTail(ops, live[last].pAllocationStart);
    if k == last {
      assert Without(live, k) == live[..last];
      KeptOthers(live[..last], ops);
    } else {
      KeptAfterFree(live[..last], k, ops);
      assert Without(live, k)[..last - 1] == Without(live[..last], k);
      assert Without(live, k)[last - 1] == live[last];
    }
  }

  lemma {:induction false} KeptOthers(live: seq<Area>, ops: seq<Op>)
    requires ops != [] && ops[0].Free? && !Holds(live, ops[0].p)
    ensures Kept(live, ops) == Kept(live, ops[1..])
  {
    if live != [] {
      var last := |live| - 1;
      FreedInTail(ops, live[last].pAllocationStart);
      assert forall i :: 0 <= i < last ==> live[..last][i] == live[i];
      KeptOthers(live[..last], ops);
    }
  }

  /** The oldest block stays in the table through every run that does not get stuck. */
  lemma {:induction false} OldestStays(live: seq<Area>, ops: seq<Op>, max: nat)
    requires live != [] && Replay(live, ops, max).Running?
    ensures var after := Replay(live, ops, max).live; after != [] && after[0] == live[0]
    decreases |ops|
  {
    if ops != [] {
      OldestStays(Perform(live, ops[0], max).live, ops[1..], max);
    }
  }

  /** So a run that frees it gets stuck, whatever comes before. */
  lemma {:induction false} FreeingOldestGetsStuck(live: seq<Area>, ops: seq<Op>, max: nat)
    requires live != [] && live[0].pAllocationStart != 0 && FreedIn(ops, live[0].pAllocationStart)
    ensures Replay(live, ops, max) == Stuck
    decreases |ops|
  {
    FreedInTail(ops, live[0].pAllocationStart);
    if ops[0] != Free(live[0].pAllocationStart) && Perform(live, ops[0], max).Running? {
      FreeingOldestGetsStuck(Perform(live, ops[0], max).live, ops[1..], max);
    }
  }
}
