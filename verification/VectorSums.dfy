/** Sums and averages over a window of an I32 vector, in 32-bit arithmetic. */
module VectorSums {
  import opened CInt
  import opened Vectors
  import opened Seqs

  /** Sum and number of the elements that do not carry the invalid mark. */
  function Sum(s: seq<I32>, mark: I32): int {
    if s == [] then 0
    else Sum(s[..|s| - 1], mark) + (if s[|s| - 1] != mark then s[|s| - 1] else 0)
  }

  function Count(s: seq<I32>, mark: I32): (n: nat)
    ensures n <= |s|
  {
    if s == [] then 0
    else Count(s[..|s| - 1], mark) + (if s[|s| - 1] != mark then 1 else 0)
  }

  /** number elements from index, cut at the end of the sequence. */
  function Window(l: seq<I32>, index: nat, number: nat): (w: seq<I32>)
    ensures |w| == Min(number, if index < |l| then |l| - index else 0)
    ensures forall j :: 0 <= j < |w| ==> w[j] == l[index + j]
  {
    if index >= |l| then [] else l[index..if index + number <= |l| then index + number else |l|]
  }

  /** The window GetSumValid walks: index + number is computed in 32 unsigned bits, and when it
      wraps around nothing is left to walk. */
  function Scanned(l: seq<I32>, index: U32, number: U32): seq<I32> {
    if index + number < 0x1_0000_0000 then Window(l, index, number) else []
  }

  /** So the requested window is summed exactly when the sum does not wrap, or lies outside. */
  lemma ScannedExactlyWhen(l: seq<I32>, index: U32, number: U32)
    ensures Scanned(l, index, number) == Window(l, index, number)
      <==> index + number < 0x1_0000_0000 || index >= |l|
    ensures index + number >= 0x1_0000_0000 ==> Scanned(l, index, number) == []
  {
    if index < |l| && number > 0 {
      assert |Window(l, index, number)| > 0;
    }
  }

  method GetSumValid(v: VectorDataPoint<I32>, index: U32, number: U32, invalid_mark: I32)
    returns (ret_value: I32, valid_count: nat)
    requires v.Valid() && |v.mVector| < 0x8000_0000
    ensures ret_value == ToI32(Sum(Scanned(v.Logical(), index, number), invalid_mark))
    ensures valid_count == Count(Scanned(v.Logical(), index, number), invalid_mark)
  {
    var e := ToU32(index + number);
    var v_size := |v.mVector|;
    if e > v_size {
      e := v_size;
    }
    ghost var window := Scanned(v.Logical(), index, number);
    ret_value, valid_count := SumUpTo(v, index, e, invalid_mark, window);
    assert window[..|window|] == window;
  }

  /** The accumulators after k elements of the window. */
  predicate SummedUp(w: seq<I32>, k: nat, mark: I32, sum: I32, count: nat)
    requires k <= |w|
  {
    sum == ToI32(Sum(w[..k], mark)) && count == Count(w[..k], mark)
  }

  lemma SummedUpStep(w: seq<I32>, k: nat, mark: I32, sum: I32, count: nat)
    requires k < |w| && SummedUp(w, k, mark, sum, count)
    ensures if w[k] != mark then SummedUp(w, k + 1, mark, ToI32(sum + w[k]), count + 1)
            else SummedUp(w, k + 1, mark, sum, count)
  {
    assert w[..k + 1][..k] == w[..k];
    AddI32(Sum(w[..k], mark), w[k]);
  }

  /** The slot of logical index i. */
  function Slot(v: seq<I32>, o: nat, i: nat): (slot: nat)
    requires (o == 0 || o < |v|) && i < |v|
    ensures slot < |v| && v[slot] == Rotate(v, o)[i]
  {
    RotateIndex(v, o, i);
    (i + o) % |v|
  }

  /** One turn of the loop, which looks at element k of the window. */
  method AddElement(v: VectorDataPoint<I32>, i: nat, mark: I32, sum: I32, count: nat,
                    ghost window: seq<I32>, ghost k: nat)
    returns (sum': I32, count': nat)
    requires v.Valid() && i < |v.mVector| && k < |window| && window[k] == v.Logical()[i]
    requires SummedUp(window, k, mark, sum, count)
    ensures SummedUp(window, k + 1, mark, sum', count')
  {
    SummedUpStep(window, k, mark, sum, count);
    sum', count' := sum, count;
    var value := v.mVector[Slot(v.mVector, v.mOffset, i)];
    if value != mark {
      sum' := ToI32(sum + value);
      count' := count + 1;
    }
  }

  /** The loop of GetSumValid, over the elements from index up to e. */
  method SumUpTo(v: VectorDataPoint<I32>, index: U32, e: U32, invalid_mark: I32, ghost window: seq<I32>)
    returns (ret_value: I32, valid_count: nat)
    requires v.Valid() && e <= |v.mVector|
    requires window == if index < e then v.Logical()[index..e] else []
    ensures SummedUp(window, |window|, invalid_mark, ret_value, valid_count)
  {
    ret_value := 0;
    valid_count := 0;
    var i := index;
    while i < e
      invariant index <= i && i - index <= |window| && (i >= e ==> i - index == |window|)
      invariant SummedUp(window, i - index, invalid_mark, ret_value, valid_count)
    {
      ret_value, valid_count := AddElement(v, i, invalid_mark, ret_value, valid_count, window, i - index);
      i := i + 1;
    }
  }

  method GetSum(v: VectorDataPoint<I32>, index: U32, number: U32, invalid_mark: I32) returns (sum: I32)
    requires v.Valid() && |v.mVector| < 0x8000_0000
    ensures sum == ToI32(Sum(Scanned(v.Logical(), index, number), invalid_mark))
  {
    var valid_count;
    sum, valid_count := GetSumValid(v, index, number, invalid_mark);
  }

  /** sum / valid_count mixes a signed and an unsigned operand, so C divides unsigned. */
  function UnsignedAverage(sum: I32, count: nat): I32
    requires count > 0
  {
    ToI32(ToU32(sum) / count)
  }

  method GetAverage(v: VectorDataPoint<I32>, index: U32, number: U32, invalid_mark: I32) returns (average: I32)
    requires v.Valid() && |v.mVector| < 0x8000_0000
    ensures var w := Scanned(v.Logical(), index, number);
      average == if Count(w, invalid_mark) == 0 then 0
                 else UnsignedAverage(ToI32(Sum(w, invalid_mark)), Count(w, invalid_mark))
    ensures var w := Scanned(v.Logical(), index, number);
      average == if Count(w, invalid_mark) == 0 then 0 else ToI32(ToU32(Sum(w, invalid_mark)) / Count(w, invalid_mark))
  {
    var sum, valid_count := GetSumValid(v, index, number, invalid_mark);
    if valid_count == 0 {
      average := 0;
    } else {
      AddU32(Sum(Scanned(v.Logical(), index, number), invalid_mark), 0);
      average := ToI32(ToU32(sum) / valid_count);
    }
  }

  // ----- properties

  /** Sums and counts of adjacent windows add up. */
  lemma {:induction false} AdjacentWindows(a: seq<I32>, b: seq<I32>, mark: I32)
    ensures Sum(a + b, mark) == Sum(a, mark) + Sum(b, mark)
    ensures Count(a + b, mark) == Count(a, mark) + Count(b, mark)
    decreases |b|
  {
    if b == [] {
      assert a + b == a;
    } else {
      AdjacentWindows(a, b[..|b| - 1], mark);
      LastOfSum(a, b);
    }
  }

  /** So do those of the windows of a vector, and an element alone counts for itself or not at all. */
  lemma WindowsAddUp(l: seq<I32>, index: nat, first: nat, second: nat, mark: I32)
    ensures var a, b := Window(l, index, first), Window(l, index + first, second);
      && Window(l, index, first + second) == a + b
      && Sum(Window(l, index, first + second), mark) == Sum(a, mark) + Sum(b, mark)
      && Count(Window(l, index, first + second), mark) == Count(a, mark) + Count(b, mark)
    ensures index < |l| ==>
      && Window(l, index, 1) == [l[index]]
      && Sum([l[index]], mark) == (if l[index] == mark then 0 else l[index])
      && Count([l[index]], mark) == (if l[index] == mark then 0 else 1)
  {
    var a, b := Window(l, index, first), Window(l, index + first, second);
    assert Window(l, index, first + second) == a + b;
    AdjacentWindows(a, b, mark);
    if index < |l| {
      assert [l[index]][..0] == [];
    }
  }

  /** After pushing a valid value v the first k elements sum to v plus what the first k-1 did. */
  lemma SumAfterPush(l: seq<I32>, value: I32, k: nat, mark: I32)
    requires 1 <= k <= |l| && value != mark
    ensures Sum(Window(Push(l, value), 0, k), mark) == value + Sum(Window(l, 0, k - 1), mark)
    ensures Count(Window(Push(l, value), 0, k), mark) == 1 + Count(Window(l, 0, k - 1), mark)
  {
    var rest := Window(l, 0, k - 1);
    assert Window(Push(l, value), 0, k) == [value] + rest;
    AdjacentWindows([value], rest, mark);
    assert [value][..0] == [];
  }

  /** Values between lo and hi have a valid sum between count * lo and count * hi. */
  lemma {:induction false} SumBounds(s: seq<I32>, mark: I32, lo: int, hi: int)
    requires forall i :: 0 <= i < |s| && s[i] != mark ==> lo <= s[i] <= hi
    ensures Count(s, mark) * lo <= Sum(s, mark) <= Count(s, mark) * hi
  {
    if s != [] {
      var front := s[..|s| - 1];
      SumBounds(front, mark, lo, hi);
      assert (Count(front, mark) + 1) * lo == Count(front, mark) * lo + lo;
      assert (Count(front, mark) + 1) * hi == Count(front, mark) * hi + hi;
    }
  }

  /** For non-negative values whose sum fits, the average lies between the least and the
      greatest valid value. */
  lemma AverageBetween(s: seq<I32>, mark: I32, lo: int, hi: int)
    requires 0 <= lo && Count(s, mark) > 0 && Sum(s, mark) < 0x8000_0000
    requires forall i :: 0 <= i < |s| && s[i] != mark ==> lo <= s[i] <= hi
    ensures lo <= UnsignedAverage(ToI32(Sum(s, mark)), Count(s, mark)) <= hi
  {
    SumBounds(s, mark, lo, hi);
    MulOrder(Count(s, mark), 0, lo);
    PlainAverage(Sum(s, mark), Count(s, mark));
    QuotientBetween(Sum(s, mark), Count(s, mark), lo, hi);
  }

  /** Without a sign bit there is nothing unsigned about the division. */
  lemma PlainAverage(sum: int, count: nat)
    requires 0 <= sum < 0x8000_0000 && count > 0
    ensures UnsignedAverage(ToI32(sum), count) == sum / count
    ensures 0 <= sum / count <= sum
  {
    QuotientAtMost(sum, count);
    SmallU32(sum);
    SmallU32(sum / count);
  }

  lemma SmallU32(x: int)
    requires 0 <= x < 0x8000_0000
    ensures ToI32(x) == x && ToU32(x) == x
  {
  }

  lemma QuotientBetween(sum: int, n: int, lo: int, hi: int)
    requires n > 0 && n * lo <= sum <= n * hi
    ensures lo <= sum / n <= hi
  {
    var q, r := sum / n, sum % n;
    assert sum == n * q + r && n * (q + 1) == n * q + n && n * (hi + 1) == n * hi + n;
    if q < lo {
      MulOrder(n, q + 1, lo);
    } else if q > hi {
      MulOrder(n, hi + 1, q);
    }
  }

  lemma MulOrder(n: int, a: int, b: int)
    requires n >= 0 && a <= b
    ensures n * a <= n * b
  {
    assert n * (b - a) >= 0;
  }

  lemma QuotientAtMost(sum: int, n: int)
    requires n > 0 && sum >= 0
    ensures 0 <= sum / n <= sum
  {
    MulOrder(sum, 1, n);
    QuotientBetween(sum, n, 0, sum);
  }

  /** The unsigned division gives the signed average exactly when the sum is not negative or
      belongs to a single value. */
  lemma AverageExactlyWhen(sum: int, count: nat)
    requires -0x8000_0000 <= sum < 0x8000_0000 && 0 < count < 0x8000_0000
    ensures UnsignedAverage(sum, count) == TruncDiv(sum, count) <==> sum >= 0 || count == 1
  {
    if sum >= 0 {
      PlainAverage(sum, count);
      SmallU32(sum);
    } else if count == 1 {
      StoredI32(sum);
    } else {
      NegativeAverage(sum, count);
      QuotientAtMost(-sum, count);
    }
  }

  lemma StoredI32(x: I32)
    ensures ToI32(ToU32(x) / 1) == x && TruncDiv(x, 1) == x
  {
  }

  /** With two or more values a negative sum is taken for a large one. */
  lemma NegativeAverage(sum: int, count: nat)
    requires -0x8000_0000 <= sum < 0 && 2 <= count < 0x8000_0000
    ensures UnsignedAverage(sum, count) >= 1
  {
    var u := sum + 0x1_0000_0000;
    DivMod(sum, 0x1_0000_0000, -1, u);
    QuotientRange(u, count);
    SmallU32(u / count);
  }

  lemma QuotientRange(u: int, n: int)
    requires 2 <= n < 0x8000_0000 <= u < 0x1_0000_0000
    ensures 1 <= u / n < 0x8000_0000
  {
    var q, r := u / n, u % n;
    assert u == n * q + r;
    assert q <= 0 ==> n * q <= 0;
    assert q >= 0x8000_0000 ==> n * q >= 2 * 0x8000_0000;
  }
}
