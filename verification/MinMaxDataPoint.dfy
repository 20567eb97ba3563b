/** I32DataPoint: a value kept between two limits (MinMaxDataPoint), its percentage
    (NumberDataPoint) and its flash record. */
module MinMaxPoints {
  import opened CInt
  import opened Flash
  import opened Seqs

  datatype Quality = DP_AVAILABLE | DP_NOT_AVAILABLE | DP_NEVER_AVAILABLE

  datatype Point = Point(value: I32, min: I32, max: I32, quality: Quality, quantity: I32, writable: bool) {
    predicate LimitsOrdered() {
      min <= max
    }

    predicate InRange() {
      min <= value <= max
    }
  }

  /** The two comparisons of SetValuePure, in their order. */
  function Limited(value: I32, min: I32, max: I32): I32 {
    var raised := if value < min then min else value;
    if raised > max then max else raised
  }

  function Distance(a: int, b: int): nat {
    if a < b then b - a else a - b
  }

  /** Between ordered limits the value set is the one nearest to the value asked for: that value
      itself, or the limit it lies beyond. With the limits exchanged it is always the maximum. */
  lemma LimitedIsNearest(value: I32, min: I32, max: I32)
    ensures min <= max ==>
      && min <= Limited(value, min, max) <= max
      && forall w :: min <= w <= max ==> Distance(value, Limited(value, min, max)) <= Distance(value, w)
    ensures min <= max && value < min ==> Limited(value, min, max) == min
    ensures value > max ==> Limited(value, min, max) == max
    ensures min <= value <= max ==> Limited(value, min, max) == value
    ensures min > max ==> Limited(value, min, max) == max
  {
  }

  // ----- the operations on the point as a value

  function WithMin(p: Point, min: I32): Point {
    p.(min := min, value := if min != p.min && p.value < min then min else p.value)
  }

  function WithMax(p: Point, max: I32): Point {
    p.(max := max, value := if max != p.max && p.value > max then max else p.value)
  }

  function WithValue(p: Point, value: I32): Point {
    p.(value := Limited(value, p.min, p.max), quality := DP_AVAILABLE)
  }

  /** Setting a value brings every point with ordered limits into range; moving a limit keeps
      an in-range point in range exactly when the limits stay ordered. */
  lemma SettersKeepRange(p: Point, v: I32)
    ensures p.LimitsOrdered() <==> WithValue(p, v).InRange()
    ensures p.InRange() ==> (WithMin(p, v).InRange() <==> v <= p.max)
    ensures p.InRange() ==> (WithMax(p, v).InRange() <==> p.min <= v)
  {
  }

  // ----- restoring a saved point

  datatype SaveType = FLASH_SAVE_VALUE | FLASH_SAVE_ALL

  function PointBytes(p: Point, save: SaveType): seq<U8> {
    match save
    case FLASH_SAVE_VALUE => Bytes(I32Field(p.value))
    case FLASH_SAVE_ALL =>
      Bytes(I32Field(p.max)) + (Bytes(I32Field(p.min)) + (Bytes(I32Field(p.value)) + Bytes(I32Field(p.quantity))))
  }

  /** What a load makes of any bytes: each value is read with the present one as default and
      set through its setter, so the value may be clamped on the way. */
  function Restored(p: Point, r: Reader, savedAs: SaveType): (Point, Reader) {
    match savedAs
    case FLASH_SAVE_VALUE => RestoredValue(p, r)
    case FLASH_SAVE_ALL =>
      var (p2, r2) := RestoredLimits(p, r);
      var (p3, r3) := RestoredValue(p2, r2);
      var (quantity, r4) := TakeI32(r3, p3.quantity);
      (p3.(quantity := quantity), r4)
  }

  function RestoredLimits(p: Point, r: Reader): (Point, Reader) {
    var (max, r1) := TakeI32(r, p.max);
    var p1 := WithMax(p, max);
    var (min, r2) := TakeI32(r1, p1.min);
    (WithMin(p1, min), r2)
  }

  function RestoredValue(p: Point, r: Reader): (Point, Reader) {
    var (value, r1) := TakeI32(r, p.value);
    (WithValue(p, value), r1)
  }

  /** A setter notifies exactly when it changes the point. */
  function Notice(was: Point, now: Point): nat {
    if was == now then 0 else 1
  }

  function LimitNotices(p: Point, r: Reader): nat {
    var p1 := WithMax(p, TakeI32(r, p.max).0);
    Notice(p, p1) + Notice(p1, RestoredLimits(p, r).0)
  }

  /** How often a load notifies. */
  function RestoreNotices(p: Point, r: Reader, savedAs: SaveType): nat {
    match savedAs
    case FLASH_SAVE_VALUE => Notice(p, RestoredValue(p, r).0)
    case FLASH_SAVE_ALL =>
      var (p2, r2) := RestoredLimits(p, r);
      var p3 := RestoredValue(p2, r2).0;
      LimitNotices(p, r) + Notice(p2, p3) + Notice(p3, Restored(p, r, savedAs).0)
  }

  /** Four values written one after the other. */
  lemma EmitFour(w: Writer, a: seq<U8>, b: seq<U8>, c: seq<U8>, d: seq<U8>)
    ensures var out, bytes := Emit(Emit(Emit(Emit(w, a), b), c), d), a + (b + (c + d));
      && (!w.error && |bytes| <= w.room ==> out == Emit(w, bytes))
      && (w.error || |bytes| > w.room ==> out.error)
  {
    Regroup(w.done, a, b + (c + d));
    Regroup(w.done + a, b, c + d);
    Regroup(w.done + a + b, c, d);
  }

  /** Where the four values stand in a complete record. */
  lemma PointLayout(p: Point)
    ensures var bytes := PointBytes(p, FLASH_SAVE_ALL);
      && |bytes| == 16
      && bytes[..4] == Bytes(I32Field(p.max)) && bytes[4..8] == Bytes(I32Field(p.min))
      && bytes[8..12] == Bytes(I32Field(p.value)) && bytes[12..] == Bytes(I32Field(p.quantity))
    ensures PointBytes(p, FLASH_SAVE_VALUE) == Bytes(I32Field(p.value))
  {
  }

  /** From an exhausted record a point keeps its limits and its quantity, and its value is limited
      by them. */
  lemma RestoreFromNothing(q: Point, r: Reader, savedAs: SaveType)
    requires r.error || |r.rest| < 4
    ensures Restored(q, r, savedAs) == (WithValue(q, q.value), r.(error := true))
    ensures q.InRange() ==> Restored(q, r, savedAs).0 == q.(quality := DP_AVAILABLE)
  {
    TakeNothing(r, q.max);
    TakeNothing(r, q.min);
    TakeNothing(r, q.value);
    TakeNothing(r, q.quantity);
    var failed := r.(error := true);
    TakeNothing(failed, q.min);
    TakeNothing(failed, q.value);
    TakeNothing(failed, q.quantity);
  }

  lemma TakeNothing(r: Reader, def: I32)
    requires r.error || |r.rest| < 4
    ensures TakeI32(r, def) == (def, r.(error := true))
  {
    StoredU32(ToU32(def));
    I32FieldFits(def);
  }

  /** The order of the setters, on a point in any state at all. */
  lemma SettersInLoadOrder(q: Point, max: I32, min: I32, value: I32)
    ensures var r := WithValue(WithMin(WithMax(q, max), min), value);
      r.max == max && r.min == min && r.value == Limited(value, min, max)
  {
  }

  /** Loading a complete record into a point in any state restores the limits and the quantity
      exactly, and the value exactly when it was within the limits (or at the maximum). The
      record is consumed to the byte. */
  lemma RestoreAll(p: Point, q: Point, tail: seq<U8>)
    ensures var (r, rest) := Restored(q, Reader(PointBytes(p, FLASH_SAVE_ALL) + tail, false), FLASH_SAVE_ALL);
      && rest == Reader(tail, false)
      && r.max == p.max && r.min == p.min && r.quantity == p.quantity && r.quality == DP_AVAILABLE
      && (r.value == p.value <==> p.value <= p.max && (p.min <= p.value || p.value == p.max))
      && (p.InRange() ==> r.value == p.value)
      && (p.LimitsOrdered() && p.value < p.min ==> r.value == p.min)
      && (p.value > p.max || p.min > p.max ==> r.value == p.max)
  {
    var t3 := Bytes(I32Field(p.quantity)) + tail;
    var t2 := Bytes(I32Field(p.value)) + t3;
    var t1 := Bytes(I32Field(p.min)) + t2;
    PointBytesBefore(p, tail);
    TakeBackI32(p.max, t1, q.max);
    var q1 := WithMax(q, p.max);
    TakeBackI32(p.min, t2, q1.min);
    var q2 := WithMin(q1, p.min);
    TakeBackI32(p.value, t3, q2.value);
    TakeBackI32(p.quantity, tail, WithValue(q2, p.value).quantity);
  }

  lemma PointBytesBefore(p: Point, tail: seq<U8>)
    ensures PointBytes(p, FLASH_SAVE_ALL) + tail == Bytes(I32Field(p.max))
      + (Bytes(I32Field(p.min)) + (Bytes(I32Field(p.value)) + (Bytes(I32Field(p.quantity)) + tail)))
  {
    var a, b := Bytes(I32Field(p.max)), Bytes(I32Field(p.min));
    var c, d := Bytes(I32Field(p.value)), Bytes(I32Field(p.quantity));
    Regroup(a, b + (c + d), tail);
    Regroup(b, c + d, tail);
    Regroup(c, d, tail);
  }

  /** A value alone is limited by the limits of the point it is loaded into. */
  lemma RestoreValue(p: Point, q: Point, tail: seq<U8>)
    ensures Restored(q, Reader(PointBytes(p, FLASH_SAVE_VALUE) + tail, false), FLASH_SAVE_VALUE)
      == (WithValue(q, p.value), Reader(tail, false))
    ensures var r := Restored(q, Reader(PointBytes(p, FLASH_SAVE_VALUE) + tail, false), FLASH_SAVE_VALUE).0;
      && (r.min, r.max, r.quantity) == (q.min, q.max, q.quantity)
      && (q.min <= p.value <= q.max ==> r.value == p.value)
      && (q.LimitsOrdered() && p.value < q.min ==> r.value == q.min)
      && (p.value > q.max || q.min > q.max ==> r.value == q.max)
  {
    TakeBackI32(p.value, tail, q.value);
  }

  // ----- percentages, in exact arithmetic

  /** C conversion from a real to an integer: truncation toward zero. */
  function Truncate(x: real): (n: int)
    ensures x >= 0.0 ==> n as real <= x < n as real + 1.0
    ensures x < 0.0 ==> n as real - 1.0 < x <= n as real
  {
    if x >= 0.0 then x.Floor else -((-x).Floor)
  }

  /** max - min as the compiler computes it. */
  function Delta(p: Point): I32 {
    ToI32(p.max - p.min)
  }

  function PercentOf(steps: int, delta: int): real {
    if delta > 0 then steps as real * 100.0 / delta as real else 0.0
  }

  function Percent(p: Point): real {
    PercentOf(ToI32(p.value - p.min), Delta(p))
  }

  function Scaled(percent: real, delta: int, min: int): real {
    percent * delta as real / 100.0 + min as real
  }

  function ValueOfPercent(p: Point, percent: real): real {
    Scaled(percent, Delta(p), p.min)
  }

  /** The value asked for grows by the 32-bit distance of the limits per hundred percent, from the
      minimum on. */
  lemma ValueOfPercentGrows(p: Point, a: real, b: real)
    ensures ValueOfPercent(p, 0.0) == p.min as real
    ensures (ValueOfPercent(p, b) - ValueOfPercent(p, a)) * 100.0 == (b - a) * Delta(p) as real
    ensures -0x8000_0000 <= p.max - p.min < 0x8000_0000 ==> ValueOfPercent(p, 100.0) == p.max as real
  {
    var d := Delta(p) as real;
    assert b * d - a * d == (b - a) * d;
    DeltaOf(p);
  }

  lemma DeltaOf(p: Point)
    ensures -0x8000_0000 <= p.max - p.min < 0x8000_0000 ==> Delta(p) == p.max - p.min
    ensures p.max - p.min >= 0x8000_0000 ==> Delta(p) == p.max - p.min - 0x1_0000_0000
    ensures p.max - p.min < -0x8000_0000 ==> Delta(p) == p.max - p.min + 0x1_0000_0000
  {
  }

  /** Where the value stands between the limits, in percent. */
  function TruePercent(p: Point): real
    requires p.min < p.max
  {
    (p.value - p.min) as real * 100.0 / (p.max - p.min) as real
  }

  lemma DistanceFits(p: Point)
    requires p.min < p.max && p.InRange()
    ensures p.max - p.min < 0x8000_0000 ==> Delta(p) == p.max - p.min && ToI32(p.value - p.min) == p.value - p.min
    ensures p.max - p.min >= 0x8000_0000 ==> Delta(p) < 0
  {
  }

  /** GetValueAsPercent is the true percentage of an in-range point exactly when the distance of
      the limits fits in an int, or the value is at the minimum. */
  lemma PercentExactlyWhen(p: Point)
    requires p.min < p.max && p.InRange()
    ensures Percent(p) == TruePercent(p) <==> p.max - p.min < 0x8000_0000 || p.value == p.min
  {
    DistanceFits(p);
    QuotientZero((p.value - p.min) as real * 100.0, (p.max - p.min) as real);
  }

  lemma QuotientZero(x: real, y: real)
    requires x >= 0.0 && y > 0.0
    ensures x / y == 0.0 <==> x == 0.0
  {
    assert x == x / y * y;
  }

  /** Setting a percentage between 0 and 100 reads back within one step of the value. */
  lemma PercentReadsBack(p: Point, percent: real)
    requires 0 < p.max - p.min < 0x8000_0000 && 0.0 <= percent <= 100.0
    ensures var d := (p.max - p.min) as real;
      var v := Truncate(ValueOfPercent(p, percent));
      && p.min <= v <= p.max
      && WithValue(p, v).value == v
      && -100.0 / d < Percent(WithValue(p, v)) - percent < 100.0 / d
  {
    DistanceFits(p.(value := p.min));
    PercentStep(percent, p.min, p.max - p.min);
    DistanceFits(WithValue(p, Truncate(ValueOfPercent(p, percent))));
  }

  lemma PercentStep(percent: real, min: int, delta: int)
    requires 0 < delta && 0.0 <= percent <= 100.0
    ensures var v := Truncate(Scaled(percent, delta, min));
      && min <= v <= min + delta
      && -100.0 / delta as real < PercentOf(v - min, delta) - percent < 100.0 / delta as real
  {
    var d, x := delta as real, Scaled(percent, delta, min);
    ScaleBounds(percent, d);
    TruncateBounds(x, min, min + delta);
    var v := Truncate(x);
    PercentError(percent, d, (v - min) as real, v as real - x);
  }

  lemma ScaleBounds(percent: real, d: real)
    requires 0.0 <= percent <= 100.0 && d > 0.0
    ensures 0.0 <= percent * d / 100.0 <= d
  {
    assert 0.0 <= percent * d;
    assert (100.0 - percent) * d >= 0.0;
  }

  lemma TruncateBounds(x: real, lo: int, hi: int)
    requires lo as real <= x <= hi as real
    ensures lo <= Truncate(x) <= hi && -1.0 < Truncate(x) as real - x < 1.0
  {
  }

  /** An error of err in the value is an error of err * 100 / d in the percentage. */
  lemma PercentError(percent: real, d: real, steps: real, err: real)
    requires d > 0.0 && steps == percent * d / 100.0 + err && -1.0 < err < 1.0
    ensures -100.0 / d < steps * 100.0 / d - percent < 100.0 / d
  {
    var e := err * 100.0 / d;
    assert steps * 100.0 == percent * d + err * 100.0;
    SumQuotient(percent, err * 100.0, d);
    QuotientOrder(err * 100.0, 100.0, d);
    QuotientOrder(-100.0, err * 100.0, d);
  }

  lemma SumQuotient(a: real, b: real, d: real)
    requires d > 0.0
    ensures (a * d + b) / d == a + b / d
  {
    assert (a * d + b) / d == a * d / d + b / d;
  }

  lemma QuotientOrder(a: real, b: real, d: real)
    requires a < b && d > 0.0
    ensures a / d < b / d
  {
    FactorOrder(a / d, b / d, d);
  }

  lemma FactorOrder(q: real, r: real, d: real)
    requires q * d < r * d && d > 0.0
    ensures q < r
  {
    assert q >= r ==> (q - r) * d >= 0.0;
  }

  /** Setting the percentage just read leaves an in-range value as it is. */
  lemma SetPercentAfterGet(p: Point)
    requires p.InRange() && 0 < p.max - p.min < 0x8000_0000
    ensures Truncate(ValueOfPercent(p, Percent(p))) == p.value
    ensures WithValue(p, p.value).value == p.value
  {
    DistanceFits(p);
    ScaleBack(p.value - p.min, p.max - p.min, p.min);
  }

  lemma ScaleBack(steps: int, delta: int, min: int)
    requires delta > 0
    ensures Scaled(PercentOf(steps, delta), delta, min) == (steps + min) as real
  {
    var s, d := steps as real, delta as real;
    assert s * 100.0 / d * d == s * 100.0;
  }

  // ----- the object

  class I32DataPoint {
    var mValue: I32
    var mMinValue: I32
    var mMaxValue: I32
    var mQuality: Quality
    var mQuantity: I32
    var mWritable: bool
    var notified: nat

    function State(): Point
      reads this
    {
      Point(mValue, mMinValue, mMaxValue, mQuality, mQuantity, mWritable)
    }

    /** The limits and the value are not initialised by the source; any values will do. */
    constructor (value: I32, min: I32, max: I32, quantity: I32)
      ensures State() == Point(value, min, max, DP_NEVER_AVAILABLE, quantity, true) && notified == 0
    {
      mValue, mMinValue, mMaxValue := value, min, max;
      mQuality, mQuantity, mWritable, notified := DP_NEVER_AVAILABLE, quantity, true, 0;
    }

    method SetValuePure(newValue: I32, notify: bool) returns (ret_val: bool)
      modifies `mValue, `notified
      ensures State() == old(State()).(value := Limited(newValue, mMinValue, mMaxValue))
      ensures mMinValue <= mMaxValue && newValue < mMinValue ==> mValue == mMinValue
      ensures newValue > mMaxValue || mMinValue > mMaxValue ==> mValue == mMaxValue
      ensures mMinValue <= newValue <= mMaxValue ==> mValue == newValue
      ensures ret_val <==> State() != old(State())
      ensures notified == old(notified) + (if notify && ret_val then 1 else 0)
    {
      var v := newValue;
      if v < mMinValue {
        v := mMinValue;
      }
      if v > mMaxValue {
        v := mMaxValue;
      }
      if mValue != v {
        mValue := v;
        ret_val := true;
      } else {
        ret_val := false;
      }
      if notify {
        if ret_val {
          notified := notified + 1;
        }
      }
    }

    method SetValue(newValue: I32) returns (ret_val: bool)
      modifies `mValue, `mQuality, `notified
      ensures State() == WithValue(old(State()), newValue)
      ensures mMinValue <= mMaxValue && newValue < mMinValue ==> mValue == mMinValue
      ensures newValue > mMaxValue || mMinValue > mMaxValue ==> mValue == mMaxValue
      ensures mMinValue <= newValue <= mMaxValue ==> mValue == newValue
      ensures mQuality == DP_AVAILABLE
      ensures ret_val <==> State() != old(State())
      ensures notified == old(notified) + (if ret_val then 1 else 0)
    {
      ret_val := SetValuePure(newValue, false);
      ret_val := ret_val || mQuality != DP_AVAILABLE;
      mQuality := DP_AVAILABLE;
      if ret_val {
        notified := notified + 1;
      }
    }

    /** Does not look at the limits. */
    method SetValueUnLtd(newValue: I32) returns (ret_val: bool)
      modifies `mValue, `notified
      ensures State() == old(State()).(value := newValue)
      ensures ret_val <==> State() != old(State())
      ensures notified == old(notified) + (if ret_val then 1 else 0)
    {
      ret_val := mValue != newValue;
      if ret_val {
        mValue := newValue;
        notified := notified + 1;
      }
    }

    method SetMinValue(newMinValue: I32) returns (ret_val: bool)
      modifies `mMinValue, `mValue, `notified
      ensures State() == WithMin(old(State()), newMinValue) && mMinValue == newMinValue
      ensures newMinValue != old(mMinValue) && old(mValue) < newMinValue ==> mValue == newMinValue
      ensures newMinValue == old(mMinValue) || old(mValue) >= newMinValue ==> mValue == old(mValue)
      ensures ret_val <==> State() != old(State())
      ensures notified == old(notified) + (if ret_val then 1 else 0)
    {
      if mMinValue != newMinValue {
        mMinValue := newMinValue;
        if mValue < mMinValue {
          mValue := mMinValue;
        }
        ret_val := true;
      } else {
        ret_val := false;
      }
      if ret_val {
        notified := notified + 1;
      }
    }

    method SetMaxValue(newMaxValue: I32) returns (ret_val: bool)
      modifies `mMaxValue, `mValue, `notified
      ensures State() == WithMax(old(State()), newMaxValue) && mMaxValue == newMaxValue
      ensures newMaxValue != old(mMaxValue) && old(mValue) > newMaxValue ==> mValue == newMaxValue
      ensures newMaxValue == old(mMaxValue) || old(mValue) <= newMaxValue ==> mValue == old(mValue)
      ensures ret_val <==> State() != old(State())
      ensures notified == old(notified) + (if ret_val then 1 else 0)
    {
      if mMaxValue != newMaxValue {
        mMaxValue := newMaxValue;
        if mValue > mMaxValue {
          mValue := mMaxValue;
        }
        ret_val := true;
      } else {
        ret_val := false;
      }
      if ret_val {
        notified := notified + 1;
      }
    }

    method SetQuantity(quantity: I32) returns (notify: bool)
      modifies `mQuantity, `notified
      ensures State() == old(State()).(quantity := quantity)
      ensures notify <==> State() != old(State())
      ensures notified == old(notified) + (if notify then 1 else 0)
    {
      notify := mQuantity != quantity;
      if notify {
        mQuantity := quantity;
        notified := notified + 1;
      }
    }

    /** An exact copy, in range or not. */
    method CopyValues(pSource: I32DataPoint) returns (notify: bool)
      modifies this
      ensures State() == old(pSource.State())
      ensures notify <==> State() != old(State())
      ensures notified == old(notified) + (if notify then 1 else 0)
    {
      notify := false;
      if pSource.mMinValue != mMinValue {
        notify := true;
        mMinValue := pSource.mMinValue;
      }
      if pSource.mMaxValue != mMaxValue {
        notify := true;
        mMaxValue := pSource.mMaxValue;
      }
      if pSource.mValue != mValue {
        notify := true;
        mValue := pSource.mValue;
      }
      if pSource.mQuality != mQuality {
        notify := true;
        mQuality := pSource.mQuality;
      }
      if pSource.mQuantity != mQuantity {
        notify := true;
        mQuantity := pSource.mQuantity;
      }
      if pSource.mWritable != mWritable {
        notify := true;
        mWritable := pSource.mWritable;
      }
      if notify {
        notified := notified + 1;
      }
    }

    method GetValueAsPercent() returns (ret_val: real)
      ensures ret_val == Percent(State())
      ensures ret_val == if 0 < ToI32(mMaxValue - mMinValue)
        then ToI32(mValue - mMinValue) as real * 100.0 / ToI32(mMaxValue - mMinValue) as real else 0.0
    {
      var delta := ToI32(mMaxValue - mMinValue);
      if delta > 0 {
        ret_val := ToI32(mValue - mMinValue) as real * 100.0 / delta as real;
      } else {
        ret_val := 0.0;
      }
    }

    /** The conversion to an integer must not overflow. */
    method SetValueAsPercent(newPercentage: real) returns (ret_val: bool)
      requires -0x8000_0000 <= Truncate(ValueOfPercent(State(), newPercentage)) < 0x8000_0000
      modifies `mValue, `mQuality, `notified
      ensures State() == WithValue(old(State()), Truncate(ValueOfPercent(old(State()), newPercentage)))
      ensures var asked := Truncate(ValueOfPercent(old(State()), newPercentage));
        && (mMinValue <= mMaxValue && asked < mMinValue ==> mValue == mMinValue)
        && (asked > mMaxValue || mMinValue > mMaxValue ==> mValue == mMaxValue)
        && (mMinValue <= asked <= mMaxValue ==> mValue == asked)
      ensures ret_val <==> State() != old(State())
      ensures notified == old(notified) + (if ret_val then 1 else 0)
    {
      ghost var p := State();
      var delta := ToI32(mMaxValue - mMinValue);
      assert delta == Delta(p);
      var val := Scaled(newPercentage, delta, mMinValue);
      assert val == ValueOfPercent(p, newPercentage);
      var target := Truncate(val);
      ret_val := SetValue(target);
      assert State() == WithValue(p, target);
    }

    method SaveToFlash(pWriter: FlashBlock, save: SaveType)
      requires pWriter.Valid()
      modifies pWriter`mWritePos, pWriter`mWriteAvailable, pWriter`mWriteError, pWriter`mModified,
               pWriter.mpBlockData
      ensures pWriter.Valid()
      ensures !old(pWriter.mWriteError) && |PointBytes(State(), save)| <= old(pWriter.mWriteAvailable) ==>
        pWriter.Output() == Emit(old(pWriter.Output()), PointBytes(State(), save))
      ensures old(pWriter.mWriteError) || |PointBytes(State(), save)| > old(pWriter.mWriteAvailable) ==>
        pWriter.mWriteError
    {
      match save {
        case FLASH_SAVE_VALUE =>
          pWriter.WriteI32(mValue);
        case FLASH_SAVE_ALL =>
          ghost var w := pWriter.Output();
          pWriter.WriteI32(mMaxValue);
          pWriter.WriteI32(mMinValue);
          pWriter.WriteI32(mValue);
          pWriter.WriteI32(mQuantity);
          EmitFour(w, Bytes(I32Field(mMaxValue)), Bytes(I32Field(mMinValue)), Bytes(I32Field(mValue)),
                   Bytes(I32Field(mQuantity)));
      }
    }

    method LoadFromFlash(pReader: FlashBlock, savedAs: SaveType)
      requires pReader.Valid()
      modifies this, pReader`mReadPos, pReader`mReadAvailable, pReader`mReadError
      ensures pReader.Valid() && (State(), pReader.Input()) == Restored(old(State()), old(pReader.Input()), savedAs)
      ensures notified == old(notified) + RestoreNotices(old(State()), old(pReader.Input()), savedAs)
      ensures pReader.mReadPos + pReader.mReadAvailable == old(pReader.mReadPos + pReader.mReadAvailable)
    {
      match savedAs {
        case FLASH_SAVE_VALUE =>
          LoadValue(pReader);
        case FLASH_SAVE_ALL =>
          LoadLimits(pReader);
          LoadValue(pReader);
          var quantity := pReader.ReadI32(mQuantity);
          var n := SetQuantity(quantity);
      }
    }

    method LoadLimits(pReader: FlashBlock)
      requires pReader.Valid()
      modifies this, pReader`mReadPos, pReader`mReadAvailable, pReader`mReadError
      ensures pReader.Valid() && (State(), pReader.Input()) == RestoredLimits(old(State()), old(pReader.Input()))
      ensures notified == old(notified) + LimitNotices(old(State()), old(pReader.Input()))
      ensures pReader.mReadPos + pReader.mReadAvailable == old(pReader.mReadPos + pReader.mReadAvailable)
    {
      var max := pReader.ReadI32(mMaxValue);
      var n := SetMaxValue(max);
      var min := pReader.ReadI32(mMinValue);
      n := SetMinValue(min);
    }

    method LoadValue(pReader: FlashBlock)
      requires pReader.Valid()
      modifies this, pReader`mReadPos, pReader`mReadAvailable, pReader`mReadError
      ensures pReader.Valid() && (State(), pReader.Input()) == RestoredValue(old(State()), old(pReader.Input()))
      ensures notified == old(notified) + Notice(old(State()), State())
      ensures pReader.mReadPos + pReader.mReadAvailable == old(pReader.mReadPos + pReader.mReadAvailable)
    {
      var value := pReader.ReadI32(mValue);
      var n := SetValue(value);
    }
  }
}
