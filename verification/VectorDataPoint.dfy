/** The cyclic vector. mVector is a ring that starts at mOffset; every operation is specified on
    the plain sequence a caller sees. */
module Vectors {
  import opened CInt

  // ----- the logical view and the operations on it

  /** The ring v read from slot o on. */
  function Rotate<T>(v: seq<T>, o: nat): (l: seq<T>)
    requires o <= |v|
    ensures |l| == |v| && (o == 0 ==> l == v)
  {
    v[o..] + v[..o]
  }

  /** Logical index i is slot (i + offset) % size. */
  lemma RotateIndex<T>(v: seq<T>, o: nat, i: nat)
    requires o < |v| && i < |v|
    ensures Rotate(v, o)[i] == v[(i + o) % |v|]
  {
    WrapOnce(i + o, |v|);
  }

  function Defaults<T>(n: nat, def: T): (s: seq<T>)
    ensures |s| == n && forall i :: 0 <= i < n ==> s[i] == def
  {
    seq(n, _ => def)
  }

  /** Setting an element: in place, or growing with default values as far as max allows. */
  function SetAt<T>(l: seq<T>, index: int, value: T, max: int, def: T): seq<T> {
    if 0 <= index < |l| then l[index := value]
    else if |l| <= index < max then l + Defaults(index - |l|, def) + [value]
    else l
  }

  /** Element by element: only the given index receives the value, everything before the growth stays,
      and what the vector grows by is filled with the default. */
  lemma SetAtElements<T>(l: seq<T>, index: int, value: T, max: int, def: T)
    ensures var r := SetAt(l, index, value, max, def);
      && |r| == (if |l| <= index < max then index + 1 else |l|)
      && forall i :: 0 <= i < |r| ==> r[i] == if i == index then value else if i < |l| then l[i] else def
  {
  }

  /** One push: the new value in front, the last one dropped. */
  function Push<T>(l: seq<T>, value: T): seq<T> {
    if l == [] then [] else [value] + l[..|l| - 1]
  }

  function PushTimes<T>(l: seq<T>, value: T, times: nat): seq<T> {
    if times == 0 then l else Push(PushTimes(l, value, times - 1), value)
  }

  function PushAll<T>(l: seq<T>, values: seq<T>): seq<T>
    decreases |values|
  {
    if values == [] then l else Push(PushAll(l, values[..|values| - 1]), values[|values| - 1])
  }

  /** Pushing k copies moves everything k places and fills the front. */
  lemma {:induction false} PushTimesClosed<T>(l: seq<T>, value: T, times: nat)
    requires times <= |l|
    ensures PushTimes(l, value, times) == Defaults(times, value) + l[..|l| - times]
  {
    if times > 0 {
      PushTimesClosed(l, value, times - 1);
      var kept := l[..|l| - (times - 1)];
      var before := Defaults(times - 1, value) + kept;
      assert before[..|before| - 1] == Defaults(times - 1, value) + kept[..|kept| - 1];
      assert [value] + Defaults(times - 1, value) == Defaults(times, value);
    }
  }

  /** However long the run of pushes, the vector shows the latest samples, newest first, and
      behind them what is left of the start. */
  lemma {:induction false} PushHistory<T>(l: seq<T>, values: seq<T>, i: nat)
    requires i < |l|
    ensures |PushAll(l, values)| == |l|
    ensures PushAll(l, values)[i] ==
      if i < |values| then values[|values| - 1 - i] else l[i - |values|]
    decreases |values|
  {
    if values != [] {
      PushHistory(l, values[..|values| - 1], if i > 0 then i - 1 else 0);
    }
  }

  // ----- range reads

  /** GetValues on these arguments keeps its signed indices from going negative; nothing is read
      otherwise, or when the call is refused. */
  predicate Readable(n: nat, offset: nat, index: U32, number: U32) {
    ToU32(index + number) <= n && number > 0 ==> ToU32(offset + index) < 0x8000_0000 && number < 0x8000_0000
  }

  /** index + number is computed in 32 unsigned bits. When it wraps, the call is readable only if
      the offset makes up for it; index then acts as a small negative number. */
  lemma WrappedIndex(n: nat, offset: nat, index: U32, number: U32)
    requires (offset == 0 || offset < n) && n < 0x8000_0000
    requires Readable(n, offset, index, number) && ToU32(index + number) <= n && index + number >= 0x1_0000_0000
    ensures 0x1_0000_0000 - index <= offset && ToI32(offset + index) == offset + index - 0x1_0000_0000
    ensures number == 0x1_0000_0000 - index + ToU32(index + number)
  {
  }

  lemma PlainIndex(n: nat, offset: nat, index: U32, number: U32)
    requires (offset == 0 || offset < n) && n < 0x8000_0000
    requires Readable(n, offset, index, number) && 0 < number && index + number <= n
    ensures ToI32(offset + index) == offset + index
  {
  }

  datatype Answer<T> = Refused | Delivered(values: seq<T>)

  /** What was asked for. */
  function Asked<T>(l: seq<T>, index: U32, number: U32): Answer<T> {
    if index + number <= |l| then Delivered(l[index..index + number]) else Refused
  }

  /** What GetValues answers for logical contents l in a ring with the given offset. */
  function RangeRead<T>(l: seq<T>, offset: nat, index: U32, number: U32): (r: Answer<T>)
    requires (offset == 0 || offset < |l|) && |l| < 0x8000_0000 && Readable(|l|, offset, index, number)
    ensures r.Delivered? <==> ToU32(index + number) <= |l|
    ensures r.Delivered? ==> |r.values| == number
  {
    if ToU32(index + number) > |l| then Refused
    else if index + number >= 0x1_0000_0000 then
      WrappedIndex(|l|, offset, index, number);
      Delivered(l[|l| - (0x1_0000_0000 - index)..] + l[..index + number - 0x1_0000_0000])
    else if offset + index <= |l| then Delivered(l[index..index + number])
    else Delivered(l[|l| - offset..|l| - offset + number])
  }

  /** Whatever the contents, the answer is what was asked for exactly when index + number does not
      wrap and the read does not start past the physical end of the ring (or asks for nothing, or
      is refused). */
  lemma RangeReadExactlyWhen(n: nat, offset: nat, index: U32, number: U32)
    requires (offset == 0 || offset < n) && n < 0x8000_0000 && Readable(n, offset, index, number)
    ensures (forall l: seq<int> :: |l| == n ==> RangeRead(l, offset, index, number) == Asked(l, index, number))
      <==> (ToU32(index + number) > n || (index + number < 0x1_0000_0000 && (offset + index <= n || number == 0)))
  {
    var l := seq(n, i => i);
    if ToU32(index + number) > n {
      assert forall l: seq<int> :: |l| == n ==> RangeRead(l, offset, index, number) == Asked(l, index, number);
    } else if index + number >= 0x1_0000_0000 {
      assert RangeRead(l, offset, index, number).Delivered? && Asked(l, index, number).Refused?;
    } else if offset + index > n && number > 0 {
      assert RangeRead(l, offset, index, number).values[0] == n - offset;
      assert Asked(l, index, number).values[0] == index;
    }
  }

  /** src_index in GetValues before element k is read, when the first one is start. */
  function NextSlot(n: nat, start: int, k: nat): int {
    if k == 0 then start
    else if start > n then k
    else if start + k <= n then start + k
    else start + k - n
  }

  /** The slot a source index stands for. */
  function Reset(n: nat, src_index: int): int {
    if src_index >= n then 0 else src_index
  }

  /** Element k is read from the right slot, and the next one from the next. */
  predicate SlotHolds<T(==)>(v: seq<T>, start: int, values: seq<T>, k: nat)
    requires k < |values|
  {
    var slot := Reset(|v|, NextSlot(|v|, start, k));
    0 <= slot < |v| && v[slot] == values[k] && slot + 1 == NextSlot(|v|, start, k + 1)
  }

  predicate HoldsFrom<T(==)>(v: seq<T>, start: int, values: seq<T>) {
    forall k :: 0 <= k < |values| ==> SlotHolds(v, start, values, k)
  }

  lemma RangeReadSlots<T>(v: seq<T>, offset: nat, index: U32, number: U32)
    requires (offset == 0 || offset < |v|) && |v| < 0x8000_0000 && Readable(|v|, offset, index, number)
    requires ToU32(index + number) <= |v|
    ensures HoldsFrom(v, ToI32(offset + index), RangeRead(Rotate(v, offset), offset, index, number).values)
  {
    var start, values := ToI32(offset + index), RangeRead(Rotate(v, offset), offset, index, number).values;
    forall k | 0 <= k < number ensures SlotHolds(v, start, values, k) {
      RangeReadSlot(v, offset, index, number, k);
    }
  }

  lemma RangeReadSlot<T>(v: seq<T>, offset: nat, index: U32, number: U32, k: nat)
    requires (offset == 0 || offset < |v|) && |v| < 0x8000_0000 && Readable(|v|, offset, index, number)
    requires ToU32(index + number) <= |v| && k < number
    ensures SlotHolds(v, ToI32(offset + index), RangeRead(Rotate(v, offset), offset, index, number).values, k)
  {
    if index + number >= 0x1_0000_0000 {
      WrappedIndex(|v|, offset, index, number);
      WrappedSlot(v, offset, 0x1_0000_0000 - index, ToU32(index + number), k);
    } else {
      PlainIndex(|v|, offset, index, number);
      PlainSlot(v, offset, index, number, k);
    }
  }

  /** Element by element: the last elements and then the first ones for an index close to 2^32, the
      physical slots from 0 on when the read starts past the physical end, and otherwise the elements
      asked for. */
  lemma RangeReadElements<T>(v: seq<T>, offset: nat, index: U32, number: U32)
    requires (offset == 0 || offset < |v|) && |v| < 0x8000_0000 && Readable(|v|, offset, index, number)
    requires ToU32(index + number) <= |v|
    ensures var l, r := Rotate(v, offset), RangeRead(Rotate(v, offset), offset, index, number).values;
      && |r| == number
      && (index + number >= 0x1_0000_0000 ==> 0x1_0000_0000 - index <= offset < |v|)
      && forall k :: 0 <= k < number ==>
           r[k] == (if index + number >= 0x1_0000_0000 then
                      (var d := 0x1_0000_0000 - index; l[if k < d then |v| - d + k else k - d])
                    else if offset + index > |v| then v[k]
                    else l[index + k])
  {
    if index + number >= 0x1_0000_0000 {
      WrappedIndex(|v|, offset, index, number);
    }
  }

  lemma WrappedSlot<T>(v: seq<T>, offset: nat, d: nat, rest: nat, k: nat)
    requires d <= offset < |v| && rest <= |v| && k < d + rest
    ensures var l, slot := Rotate(v, offset), Reset(|v|, NextSlot(|v|, offset - d, k));
      && 0 <= slot < |v| && v[slot] == (l[|l| - d..] + l[..rest])[k]
      && slot + 1 == NextSlot(|v|, offset - d, k + 1)
  {
    RotateSlot(v, offset, if k < d then |v| - d + k else k - d);
  }

  lemma PlainSlot<T>(v: seq<T>, offset: nat, index: nat, number: nat, k: nat)
    requires (offset == 0 || offset < |v|) && index + number <= |v| && k < number
    ensures var l, slot := Rotate(v, offset), Reset(|v|, NextSlot(|v|, offset + index, k));
      && 0 <= slot < |v| && v[slot] == (if offset + index <= |v| then l[index + k] else l[|v| - offset + k])
      && slot + 1 == NextSlot(|v|, offset + index, k + 1)
  {
    RotateSlot(v, offset, (if offset + index <= |v| then index else |v| - offset) + k);
  }

  lemma RotateSlot<T>(v: seq<T>, offset: nat, i: nat)
    requires (offset == 0 || offset < |v|) && i < |v|
    ensures Rotate(v, offset)[i] == v[if offset + i < |v| then offset + i else offset + i - |v|]
  {
  }

  // ----- the class

  class VectorDataPoint<T(==)> {
    const mInitialSize: int
    const mMaxSize: int
    var mOffset: nat
    var mDefaultValue: T
    var mVector: seq<T>
    /** How often NotifyObservers has been called. */
    var notified: nat

    /** Only a fully allocated vector is ever rotated. */
    predicate Valid()
      reads this
    {
      mOffset == 0 || (mOffset < |mVector| && |mVector| == mMaxSize)
    }

    function Logical(): seq<T>
      reads this
      requires Valid()
    {
      Rotate(mVector, mOffset)
    }

    constructor (initialSize: nat, maxSize: int, defaultValue: T)
      ensures Valid() && Logical() == Defaults(initialSize, defaultValue)
      ensures mMaxSize == maxSize && mInitialSize == initialSize
      ensures mDefaultValue == defaultValue && mOffset == 0 && notified == 0
    {
      mInitialSize, mMaxSize := initialSize, maxSize;
      mOffset, mDefaultValue, notified := 0, defaultValue, 0;
      mVector := Defaults(initialSize, defaultValue);
    }

    method Clear()
      requires Valid()
      modifies `mVector, `mOffset
      ensures Valid() && mOffset == 0
      ensures Logical() == Defaults(|old(mVector)|, mDefaultValue)
    {
      var v_size := |mVector|;
      var i := 0;
      while i < v_size
        invariant 0 <= i <= v_size == |mVector|
        invariant forall k :: 0 <= k < i ==> mVector[k] == mDefaultValue
        invariant mOffset == old(mOffset)
      {
        mVector := mVector[i := mDefaultValue];
        i := i + 1;
      }
      mOffset := 0;
      assert mVector == Defaults(v_size, mDefaultValue);
    }

    method SetValue(index: int, value: T) returns (notify: bool)
      requires Valid()
      modifies `mVector, `notified
      ensures Valid()
      ensures Logical() == SetAt(old(Logical()), index, value, mMaxSize, mDefaultValue)
      ensures |Logical()| == if |old(Logical())| <= index < mMaxSize then index + 1 else |old(Logical())|
      ensures forall i :: 0 <= i < |Logical()| ==>
        Logical()[i] == (if i == index then value
                         else if i < |old(Logical())| then old(Logical())[i] else mDefaultValue)
      ensures notify <==> Logical() != old(Logical())
      ensures notified == old(notified) + (if notify then 1 else 0)
    {
      notify := false;
      SetAtElements(Logical(), index, value, mMaxSize, mDefaultValue);
      if index >= 0 {
        if index < |mVector| {
          var i := index;
          if mOffset > 0 {
            i := (index + mOffset) % |mVector|;
            RotateIndex(mVector, mOffset, index);
            RotateUpdate(mVector, mOffset, index, value);
          }
          notify := mVector[i] != value;
          assert mVector[i] == Logical()[index];
          mVector := mVector[i := value];
        } else if index < mMaxSize {
          while |mVector| <= index
            invariant |old(mVector)| <= |mVector| <= index + 1 && notified == old(notified)
            invariant mVector == old(mVector) + Defaults(|mVector| - |old(mVector)|, mDefaultValue)
            decreases index + 1 - |mVector|
          {
            mVector := mVector + [mDefaultValue];
          }
          mVector := mVector[index := value];
          notify := true;
          assert mVector == SetAt(old(mVector), index, value, mMaxSize, mDefaultValue);
        }
        if notify {
          notified := notified + 1;
        }
      }
    }

    method GetValue(index: int) returns (value: T)
      requires Valid()
      ensures value == if 0 <= index < |mVector| then Logical()[index] else mDefaultValue
    {
      value := mDefaultValue;
      if index >= 0 && index < |mVector| {
        var i := index;
        if mOffset > 0 {
          i := (index + mOffset) % |mVector|;
          RotateIndex(mVector, mOffset, index);
        }
        value := mVector[i];
      }
    }

    /** The read must not leave the vector, nor the destination. */
    method GetValues(index: U32, number: U32, p_destination: array<T>) returns (return_value: bool)
      requires Valid() && |mVector| < 0x8000_0000 && Readable(|mVector|, mOffset, index, number)
      requires ToU32(index + number) <= |mVector| ==> number <= p_destination.Length
      modifies p_destination
      ensures return_value <==> RangeRead(Logical(), mOffset, index, number).Delivered?
      ensures return_value <==> ToU32(index + number) <= |mVector|
      ensures !return_value ==> p_destination[..] == old(p_destination[..])
      ensures var answer := RangeRead(Logical(), mOffset, index, number);
        return_value ==> p_destination[..] == answer.values + old(p_destination[..])[number..]
    {
      return_value := false;
      var v_size := |mVector|;
      if ToU32(index + number) <= v_size {
        RangeReadSlots(mVector, mOffset, index, number);
        ReadElements(ToI32(mOffset + index), number, p_destination,
                     RangeRead(Logical(), mOffset, index, number).values);
        return_value := true;
      }
    }

    /** The reading loop. */
    method ReadElements(start: int, number: U32, p_destination: array<T>, ghost values: seq<T>)
      requires |values| == number <= p_destination.Length && HoldsFrom(mVector, start, values)
      modifies p_destination
      ensures p_destination[..] == values + old(p_destination[..])[number..]
    {
      ghost var was := p_destination[..];
      SplicedEnds(values, was);
      var src_index := start;
      var dst_index := 0;
      while dst_index < number
        invariant 0 <= dst_index <= number && src_index == NextSlot(|mVector|, start, dst_index)
        invariant p_destination[..] == Spliced(values, was, dst_index)
      {
        src_index := ReadElement(start, src_index, dst_index, p_destination, values, was);
        dst_index := dst_index + 1;
      }
    }

    /** One turn of the reading loop; returns the next source index. */
    method ReadElement(ghost start: int, src_index: int, dst_index: nat, p_destination: array<T>,
                       ghost values: seq<T>, ghost was: seq<T>)
      returns (next: int)
      requires dst_index < |values| <= |was| && p_destination[..] == Spliced(values, was, dst_index)
      requires src_index == NextSlot(|mVector|, start, dst_index) && HoldsFrom(mVector, start, values)
      modifies p_destination
      ensures p_destination[..] == Spliced(values, was, dst_index + 1)
      ensures next == NextSlot(|mVector|, start, dst_index + 1)
    {
      assert SlotHolds(mVector, start, values, dst_index);
      StoreElement(Reset(|mVector|, src_index), dst_index, p_destination, values, was);
      next := Reset(|mVector|, src_index) + 1;
    }

    method StoreElement(slot: nat, dst_index: nat, p_destination: array<T>, ghost values: seq<T>, ghost was: seq<T>)
      requires dst_index < |values| <= |was| && p_destination[..] == Spliced(values, was, dst_index)
      requires slot < |mVector| && mVector[slot] == values[dst_index]
      modifies p_destination
      ensures p_destination[..] == Spliced(values, was, dst_index + 1)
    {
      SplicedStep(values, was, dst_index);
      ghost var now := p_destination[..];
      p_destination[dst_index] := mVector[slot];
      assert p_destination[..] == now[dst_index := values[dst_index]];
    }

    /** Copies the logical values of the source into the physical slots; a rotated target
        therefore shows them rotated. */
    method CopyValues(pSource: VectorDataPoint<T>) returns (notify: bool)
      requires Valid() && pSource.Valid() && |pSource.mVector| <= |mVector|
      modifies `mVector, `notified
      ensures Valid()
      ensures mVector == Copied(old(pSource.Logical()), old(mVector), mOffset, pSource == this)
        + old(mVector)[|old(pSource.mVector)|..]
      ensures notify <==> mVector != old(mVector)
      ensures notified == old(notified) + (if notify then 1 else 0)
    {
      SplicedEnds(Copied(pSource.Logical(), mVector, mOffset, pSource == this), mVector);
      notify := CopyElements(pSource, Copied(pSource.Logical(), mVector, mOffset, pSource == this));
      if notify {
        notified := notified + 1;
      }
    }

    /** The copying loop. */
    method CopyElements(pSource: VectorDataPoint<T>, ghost goal: seq<T>) returns (notify: bool)
      requires Valid() && pSource.Valid() && |pSource.mVector| <= |mVector|
      requires goal == Copied(pSource.Logical(), mVector, mOffset, pSource == this)
      modifies `mVector
      ensures CopyState(goal, old(mVector), |goal|, mVector, notify)
    {
      notify := false;
      ghost var was := mVector;
      SplicedEnds(goal, was);
      var i := 0;
      while i < |pSource.mVector|
        invariant 0 <= i <= |goal| == |pSource.mVector| <= |mVector| == |was| && Valid() && pSource.Valid()
        invariant CopyState(goal, was, i, mVector, notify) && (pSource != this ==> pSource.Logical() == goal)
      {
        var changed := CopyElement(pSource, i, goal, was, notify);
        notify := notify || changed;
        i := i + 1;
      }
    }

    /** One turn of the copying loop. */
    method CopyElement(pSource: VectorDataPoint<T>, i: nat, ghost goal: seq<T>, ghost was: seq<T>, ghost notify: bool)
      returns (changed: bool)
      requires Valid() && pSource.Valid() && i < |pSource.mVector| <= |mVector|
      requires i < |goal| && CopyState(goal, was, i, mVector, notify)
      requires if pSource == this then |was| == |mVector| && goal == Copied(Rotate(was, mOffset), was, mOffset, true)
               else pSource.Logical() == goal
      modifies `mVector
      ensures CopyState(goal, was, i + 1, mVector, notify || changed)
    {
      ghost var now := mVector;
      if pSource == this {
        SelfCopyReads(was, mOffset, i);
      }
      var val := pSource.GetValue(i);
      changed := val != mVector[i];
      if changed {
        mVector := mVector[i := val];
      }
      CopyStep(goal, was, i, now, notify);
    }

    /** Only a fully allocated vector is pushed to; on any other the call is a reported error
        that changes nothing. */
    method PushValue(value: T, no_of_times: nat)
      requires Valid()
      modifies `mVector, `mOffset, `notified
      ensures Valid()
      ensures Logical() == if |old(mVector)| == mMaxSize
        then PushTimes(old(Logical()), value, Min(no_of_times, |old(mVector)|)) else old(Logical())
      ensures notified == old(notified)
        + (if |old(mVector)| == mMaxSize && mMaxSize > 0 && no_of_times > 0 then 1 else 0)
    {
      var notify := false;
      var v_size := |mVector|;
      if v_size == mMaxSize {
        var count := 0;
        while count < no_of_times && count < v_size
          invariant 0 <= count <= no_of_times && count <= v_size == |mVector| == mMaxSize && Valid()
          invariant Logical() == PushTimes(old(Logical()), value, count)
          invariant (notify <==> count > 0) && notified == old(notified)
        {
          PushRotates(mVector, mOffset, value);
          if mOffset == 0 {
            mOffset := mMaxSize - 1;
          } else {
            mOffset := mOffset - 1;
          }
          mVector := mVector[mOffset := value];
          notify := true;
          count := count + 1;
        }
      }
      if notify {
        notified := notified + 1;
      }
    }
  }

  function Min(a: nat, b: nat): (m: nat)
    ensures m <= a && m <= b && (m == a || m == b)
  {
    if a < b then a else b
  }

  function Spliced<T>(src: seq<T>, was: seq<T>, i: nat): (s: seq<T>)
    requires i <= |src| <= |was|
    ensures |s| == |was|
  {
    src[..i] + was[i..]
  }

  lemma SplicedEnds<T>(src: seq<T>, was: seq<T>)
    requires |src| <= |was|
    ensures Spliced(src, was, 0) == was && Spliced(src, was, |src|) == src + was[|src|..]
  {
  }

  lemma SplicedStep<T>(src: seq<T>, was: seq<T>, i: nat)
    requires i < |src| <= |was|
    ensures Spliced(src, was, i)[i := src[i]] == Spliced(src, was, i + 1)
  {
  }

  /** What the slots receive: the source's logical values, except that a rotated vector copied
      onto itself reads what it has just written and repeats the values behind its offset. */
  function Copied<T>(src: seq<T>, was: seq<T>, offset: nat, self: bool): (goal: seq<T>)
    requires offset == 0 || offset < |was|
    ensures !self ==> goal == src
    ensures self && offset == 0 ==> goal == src
  {
    if self && offset > 0
    then seq(|was|, i requires 0 <= i < |was| => was[offset + i % (|was| - offset)])
    else src
  }

  /** Slot by slot: a rotated vector copied onto itself repeats the values behind its offset; any
      other target gets the logical values of its source. */
  lemma CopiedElements<T>(src: seq<T>, was: seq<T>, offset: nat, self: bool)
    requires (offset == 0 || offset < |was|) && (self ==> src == Rotate(was, offset))
    ensures var goal := Copied(src, was, offset, self);
      && |goal| == |src|
      && forall i :: 0 <= i < |src| ==>
           goal[i] == (if self && offset > 0 then was[offset + i % (|was| - offset)] else src[i])
  {
  }

  lemma SelfCopyReads<T>(was: seq<T>, offset: nat, i: nat)
    requires (offset == 0 || offset < |was|) && i < |was|
    ensures var goal := Copied(Rotate(was, offset), was, offset, true);
      |goal| == |was| && Rotate(Spliced(goal, was, i), offset)[i] == goal[i]
  {
    var n, now := |was| - offset, Spliced(Copied(Rotate(was, offset), was, offset, true), was, i);
    if offset > 0 {
      RotateSlot(now, offset, i);
      if i < n {
        DivMod(i, n, 0, i);
      } else {
        DivMod(i - n, n, i / n - 1, i % n);
      }
    }
  }

  /** After i turns: the target spliced, and changed or not. */
  predicate CopyState<T(==)>(goal: seq<T>, was: seq<T>, i: nat, now: seq<T>, notify: bool) {
    i <= |goal| <= |was| && now == Spliced(goal, was, i) && (notify <==> now != was)
  }

  lemma CopyStep<T>(goal: seq<T>, was: seq<T>, i: nat, now: seq<T>, notify: bool)
    requires i < |goal| && CopyState(goal, was, i, now, notify)
    ensures CopyState(goal, was, i + 1, now[i := goal[i]], notify || goal[i] != now[i])
    ensures goal[i] == now[i] ==> now[i := goal[i]] == now
  {
    var next := now[i := goal[i]];
    SplicedStep(goal, was, i);
    assert now[i] == was[i] && next[i] == goal[i];
  }

  /** Stepping the offset back and writing there is a push. */
  lemma PushRotates<T>(v: seq<T>, o: nat, value: T)
    requires v != [] && o < |v|
    ensures var o' := if o == 0 then |v| - 1 else o - 1;
      Rotate(v[o' := value], o') == Push(Rotate(v, o), value)
  {
  }

  lemma RotateUpdate<T>(v: seq<T>, o: nat, i: nat, value: T)
    requires o < |v| && i < |v|
    ensures Rotate(v[(i + o) % |v| := value], o) == Rotate(v, o)[i := value]
  {
    WrapOnce(i + o, |v|);
    if i + o < |v| {
      assert v[i + o := value][o..] == v[o..][i := value];
    } else {
      assert v[i + o - |v| := value][..o] == v[..o][i + o - |v| := value];
    }
  }

  lemma WrapOnce(x: nat, n: nat)
    requires x < 2 * n
    ensures x % n == if x < n then x else x - n
  {
    if x >= n {
      assert x == n * 1 + (x - n);
    }
  }

  /** After copying m values the target shows them, and behind them what it showed before, for
      every source exactly when it is not rotated or there was nothing to copy. */
  lemma CopyExactlyWhen(m: nat, n: nat, offset: nat)
    requires m <= n && (offset == 0 || offset < n)
    ensures (forall src: seq<int>, was: seq<int> :: |src| == m && |was| == n ==>
        Rotate(Copied(src, was, offset, false) + was[m..], offset)[..m] == src)
      <==> offset == 0 || m == 0
    ensures (forall src: seq<int>, was: seq<int> :: |src| == m && |was| == n ==>
        Rotate(Copied(src, was, offset, false) + was[m..], offset) == src + Rotate(was, offset)[m..])
      <==> offset == 0 || m == 0
  {
    var src, was := seq(m, i => i), seq(n, i => -1);
    if offset > 0 && m > 0 {
      CopyShows(src, was, offset);
    } else {
      forall src: seq<int>, was: seq<int> | |src| == m && |was| == n
        ensures Rotate(Copied(src, was, offset, false) + was[m..], offset)[..m] == src
        ensures Rotate(Copied(src, was, offset, false) + was[m..], offset) == src + Rotate(was, offset)[m..]
      {
        assert Rotate(src + was[m..], 0)[..m] == src;
        assert m == 0 ==> src + was[m..] == was;
      }
    }
  }

  /** The first logical value of a rotated target is not the first value of the source. */
  lemma CopyShows(src: seq<int>, was: seq<int>, offset: nat)
    requires 0 < |src| <= |was| && 0 < offset < |was|
    requires (forall i :: 0 <= i < |src| ==> src[i] == i) && (forall i :: 0 <= i < |was| ==> was[i] == -1)
    ensures var shown := Rotate(Copied(src, was, offset, false) + was[|src|..], offset);
      shown[..|src|] != src && shown != src + Rotate(was, offset)[|src|..]
  {
    var shown := Rotate(Copied(src, was, offset, false) + was[|src|..], offset);
    assert shown[0] != src[0];
    assert shown[..|src|][0] == shown[0] && (src + Rotate(was, offset)[|src|..])[0] == src[0];
  }

  /** A vector copied onto itself shows what it showed before. */
  predicate SelfCopyFaithful(was: seq<int>, offset: nat)
    requires offset == 0 || offset < |was|
  {
    Rotate(Copied(Rotate(was, offset), was, offset, true), offset) == Rotate(was, offset)
  }

  /** It does, for all contents, exactly when it is not rotated. */
  lemma SelfCopyExactlyWhen(n: nat, offset: nat)
    requires offset == 0 || offset < n
    ensures (forall was: seq<int> :: |was| == n ==> SelfCopyFaithful(was, offset)) <==> offset == 0
  {
    if offset > 0 {
      SelfCopyShows(seq(n, i => i), offset);
    } else {
      forall was: seq<int> | |was| == n ensures SelfCopyFaithful(was, 0) {
      }
    }
  }

  /** The last logical value is overwritten before it is read. */
  lemma SelfCopyShows(was: seq<int>, offset: nat)
    requires 0 < offset < |was| && forall i :: 0 <= i < |was| ==> was[i] == i
    ensures !SelfCopyFaithful(was, offset)
  {
    var goal := Copied(Rotate(was, offset), was, offset, true);
    RotateSlot(goal, offset, |was| - 1);
    RotateSlot(was, offset, |was| - 1);
    assert goal[offset - 1] >= offset > was[offset - 1];
  }
}
