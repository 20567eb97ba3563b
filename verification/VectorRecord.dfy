/** What the flash records of all vectors have in common, for any element codec. */
module VectorRecords {
  import opened CInt
  import opened Vectors
  import opened Flash
  import opened Seqs

  function NonNegative(n: int): nat {
    if n < 0 then 0 else n
  }

  // ----- setting a vector element by element

  /** SetValue(0, vals[0]), SetValue(1, vals[1]), ... */
  function SetFront<T>(l: seq<T>, vals: seq<T>, max: int, def: T): seq<T>
    decreases |vals|
  {
    if vals == [] then l
    else SetAt(SetFront(l, vals[..|vals| - 1], max, def), |vals| - 1, vals[|vals| - 1], max, def)
  }

  /** How many elements a vector of size n can take in this way. */
  function Room(n: nat, max: int): nat {
    if n >= max then n else max
  }

  /** The values land at their logical indices as far as there is room; elements behind them stay. */
  lemma {:induction false} SetFrontClosed<T>(l: seq<T>, vals: seq<T>, max: int, def: T)
    ensures var k := Min(|vals|, Room(|l|, max));
      SetFront(l, vals, max, def) == vals[..k] + (if k < |l| then l[k..] else [])
    decreases |vals|
  {
    if vals != [] {
      var front, n := vals[..|vals| - 1], |vals| - 1;
      SetFrontClosed(l, front, max, def);
      var k := Min(n, Room(|l|, max));
      var before := SetFront(l, front, max, def);
      assert front[..k] == vals[..k];
      if k == n {
        assert before == vals[..n] + (if n < |l| then l[n..] else []);
        assert vals[..n] + [vals[n]] == vals;
      }
    }
  }

  /** Setting index i to v changes a vector that starts as l: there is room, and v is new there. */
  predicate SetsNew<T(==)>(l: seq<T>, i: nat, v: T, max: int) {
    i < Room(|l|, max) && (i >= |l| || l[i] != v)
  }

  /** How many of the settings of SetFront change the vector, so that observers are notified. */
  function Notices<T(==)>(l: seq<T>, vals: seq<T>, max: int): nat {
    if vals == [] then 0
    else
      Notices(l, vals[..|vals| - 1], max)
        + (if SetsNew(l, |vals| - 1, vals[|vals| - 1], max) then 1 else 0)
  }

  /** One more value: what it does to the contents and whether that is a change. */
  lemma SetFrontStep<T>(l: seq<T>, vals: seq<T>, v: T, max: int, def: T)
    ensures var now := SetFront(l, vals, max, def);
      var next := SetAt(now, |vals|, v, max, def);
      && SetFront(l, vals + [v], max, def) == next
      && Notices(l, vals + [v], max) == Notices(l, vals, max) + (if next != now then 1 else 0)
  {
    assert (vals + [v])[..|vals|] == vals;
    SetFrontClosed(l, vals, max, def);
    SetAtIsNew(l, vals, v, max, def);
  }

  /** The same when only values below the saved size are set. */
  lemma SetFrontNext<T>(l: seq<T>, vals: seq<T>, v: T, savedSize: int, max: int, def: T)
    ensures var i, m := |vals|, NonNegative(savedSize);
      var kept, kept' := vals[..Min(m, i)], (vals + [v])[..Min(m, i + 1)];
      var now := SetFront(l, kept, max, def);
      var next := if i < savedSize then SetAt(now, i, v, max, def) else now;
      && SetFront(l, kept', max, def) == next
      && Notices(l, kept', max) == Notices(l, kept, max) + (if next != now then 1 else 0)
  {
    if |vals| < savedSize {
      assert vals[..|vals|] == vals && (vals + [v])[..|vals| + 1] == vals + [v];
      SetFrontStep(l, vals, v, max, def);
    } else {
      assert (vals + [v])[..NonNegative(savedSize)] == vals[..NonNegative(savedSize)];
    }
  }

  lemma SetAtIsNew<T>(l: seq<T>, vals: seq<T>, v: T, max: int, def: T)
    ensures var k := Min(|vals|, Room(|l|, max));
      var now := vals[..k] + (if k < |l| then l[k..] else []);
      SetAt(now, |vals|, v, max, def) != now <==> SetsNew(l, |vals|, v, max)
  {
    var k := Min(|vals|, Room(|l|, max));
    var now := vals[..k] + (if k < |l| then l[k..] else []);
    var next := SetAt(now, |vals|, v, max, def);
    if |vals| < |l| {
      assert now[|vals|] == l[|vals|] && next[|vals|] == v;
      assert v == l[|vals|] ==> next == now;
    }
  }

  /** The elements a save writes: one per possible element, padded with the default. */
  function Cells<T>(l: seq<T>, n: nat, def: T): (s: seq<T>)
    ensures |s| == n && forall i :: 0 <= i < n ==> s[i] == if i < |l| then l[i] else def
  {
    seq(n, i requires 0 <= i => if i < |l| then l[i] else def)
  }

  /** Setting the cells of a saved vector, as many as were really saved. */
  lemma SetFrontOfCells<T>(l: seq<T>, n: nat, savedDef: T, target: seq<T>, max: int, def: T)
    ensures var k := Min(Min(|l|, n), Room(|target|, max));
      SetFront(target, Cells(l, n, savedDef)[..Min(|l|, n)], max, def)
        == l[..k] + (if k < |target| then target[k..] else [])
  {
    var m := Min(|l|, n);
    assert Cells(l, n, savedDef)[..m] == l[..m];
    SetFrontClosed(target, l[..m], max, def);
    assert l[..m][..Min(m, Room(|target|, max))] == l[..Min(m, Room(|target|, max))];
  }

  // ----- writing elements

  function FieldsOf<T>(write: T -> seq<Field>, s: seq<T>): seq<Field> {
    if s == [] then [] else FieldsOf(write, s[..|s| - 1]) + write(s[|s| - 1])
  }

  lemma EmitAt<T>(w: Writer, write: T -> seq<Field>, s: seq<T>, k: nat)
    requires k < |s|
    ensures EmitFields(w, FieldsOf(write, s[..k + 1]))
      == EmitFields(EmitFields(w, FieldsOf(write, s[..k])), write(s[k]))
  {
    assert s[..k + 1][..k] == s[..k];
    EmitAppend(w, FieldsOf(write, s[..k]), write(s[k]));
  }

  lemma EncodeAt<T>(write: T -> seq<Field>, front: seq<T>, e: T, tail: seq<U8>)
    ensures Encode(FieldsOf(write, front + [e])) + tail
      == Encode(FieldsOf(write, front)) + (Encode(write(e)) + tail)
  {
    LastOfSum(front, [e]);
    Empty(front);
    EncodeAppend(FieldsOf(write, front), write(e));
    Regroup(Encode(FieldsOf(write, front)), Encode(write(e)), tail);
  }

  ghost predicate Wide<T>(write: T -> seq<Field>, s: seq<T>, width: nat) {
    forall i :: 0 <= i < |s| ==> |Encode(write(s[i]))| == width
  }

  lemma {:induction false} CellsLength<T>(write: T -> seq<Field>, s: seq<T>, width: nat)
    requires Wide(write, s, width)
    ensures |Encode(FieldsOf(write, s))| == width * |s|
    decreases |s|
  {
    if s != [] {
      var front := s[..|s| - 1];
      assert Wide(write, front, width);
      CellsLength(write, front, width);
      EncodeAppend(FieldsOf(write, front), write(s[|s| - 1]));
      assert width * (|front| + 1) == width * |front| + width;
    }
  }

  /** Elements of equal width stand one behind the other. */
  lemma {:induction false} CellAt<T>(write: T -> seq<Field>, s: seq<T>, width: nat, i: nat)
    requires Wide(write, s, width) && i < |s|
    ensures var bytes := Encode(FieldsOf(write, s));
      0 <= width * i <= width * i + width <= |bytes| && bytes[width * i..width * i + width] == Encode(write(s[i]))
    decreases |s|
  {
    var front, last := s[..|s| - 1], s[|s| - 1];
    assert Wide(write, front, width);
    CellsLength(write, front, width);
    CellsLength(write, s, width);
    EncodeAppend(FieldsOf(write, front), write(last));
    CellInside(width, i, |s|);
    if i < |front| {
      CellInside(width, i, |front|);
      CellAt(write, front, width, i);
      SliceOfSum(Encode(FieldsOf(write, front)), Encode(write(last)), width * i, width);
    } else {
      SliceOfSum(Encode(FieldsOf(write, front)), Encode(write(last)), width * i, width);
    }
  }

  lemma CellInside(width: nat, i: nat, n: nat)
    requires i < n
    ensures 0 <= width * i <= width * i + width <= width * n
  {
    var more := n - (i + 1);
    assert width * more >= 0 && width * i >= 0;
    assert width * (i + 1 + more) == width * i + width + width * more;
  }

  lemma SliceOfSum<T>(a: seq<T>, b: seq<T>, x: nat, n: nat)
    ensures x + n <= |a| ==> (a + b)[x..x + n] == a[x..x + n]
    ensures x == |a| && n == |b| ==> (a + b)[x..x + n] == b
  {
  }

  // ----- reading elements

  function TakeMany<T>(take: Reader -> (T, Reader), r: Reader, n: nat): (seq<T>, Reader) {
    if n == 0 then ([], r)
    else
      var (es, r') := TakeMany(take, r, n - 1);
      var (e, r'') := take(r');
      (es + [e], r'')
  }

  lemma {:induction false} TakeManyLength<T>(take: Reader -> (T, Reader), r: Reader, n: nat)
    ensures |TakeMany(take, r, n).0| == n
  {
    if n > 0 {
      TakeManyLength(take, r, n - 1);
    }
  }

  /** An element reads back from what was written for it, and exactly that is consumed. */
  ghost predicate ReadsBack<T>(take: Reader -> (T, Reader), write: T -> seq<Field>, e: T) {
    forall tail: seq<U8> :: take(Reader(Encode(write(e)) + tail, false)) == (e, Reader(tail, false))
  }

  lemma OneMore<T>(take: Reader -> (T, Reader), r: Reader, es: seq<T>, r': Reader, e: T, r'': Reader)
    requires TakeMany(take, r, |es|) == (es, r') && take(r') == (e, r'')
    ensures TakeMany(take, r, |es| + 1) == (es + [e], r'')
  {
  }

  /** Then a whole sequence does. */
  lemma {:induction false} TakeManyBack<T>(take: Reader -> (T, Reader), write: T -> seq<Field>,
                                           es: seq<T>, tail: seq<U8>)
    requires forall i :: 0 <= i < |es| ==> ReadsBack(take, write, es[i])
    ensures TakeMany(take, Reader(Encode(FieldsOf(write, es)) + tail, false), |es|) == (es, Reader(tail, false))
    decreases |es|
  {
    if es == [] {
      Empty(tail);
    } else {
      var front, e := es[..|es| - 1], es[|es| - 1];
      var rest := Encode(write(e)) + tail;
      assert es == front + [e];
      assert ReadsBack(take, write, e);
      EncodeAt(write, front, e, tail);
      TakeManyBack(take, write, front, rest);
      var r := Reader(Encode(FieldsOf(write, front)) + rest, false);
      OneMore(take, r, front, Reader(rest, false), e, Reader(tail, false));
    }
  }

  // ----- the loading loop

  /** The values read in i turns whose index is below the saved size. */
  function Values<T>(take: Reader -> (T, Reader), r: Reader, i: nat, savedSize: int): seq<T> {
    TakeManyLength(take, r, i);
    TakeMany(take, r, i).0[..Min(NonNegative(savedSize), i)]
  }

  /** Contents, reader and number of notifications after i turns. */
  predicate LoadState<T(==)>(take: Reader -> (T, Reader), l: seq<T>, r: Reader, i: nat, savedSize: int,
                             now: seq<T>, input: Reader, notices: int, max: int, def: T)
  {
    && now == SetFront(l, Values(take, r, i, savedSize), max, def)
    && input == TakeMany(take, r, i).1
    && notices == Notices(l, Values(take, r, i, savedSize), max)
  }

  lemma LoadedStep<T>(take: Reader -> (T, Reader), l: seq<T>, r: Reader, i: nat, savedSize: int,
                      now: seq<T>, input: Reader, notices: int, max: int, def: T)
    requires LoadState(take, l, r, i, savedSize, now, input, notices, max, def)
    ensures var (v, next) := take(input);
      var now' := if i < savedSize then SetAt(now, i, v, max, def) else now;
      LoadState(take, l, r, i + 1, savedSize, now', next, notices + (if now' != now then 1 else 0), max, def)
  {
    TakeManyLength(take, r, i);
    SetFrontNext(l, TakeMany(take, r, i).0, take(input).0, savedSize, max, def);
  }
}
