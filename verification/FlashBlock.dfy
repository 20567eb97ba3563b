/** The byte cursor data points are saved through and loaded from. Values are stored in the
    processor's byte order, taken to be little-endian. */
module Flash {
  import opened CInt
  import opened Seqs

  /** A value of a fixed width in bytes. */
  datatype Field = Field(value: nat, width: nat)

  function Pow256(n: nat): nat {
    if n == 0 then 1 else 256 * Pow256(n - 1)
  }

  predicate Fits(f: Field) {
    f.value < Pow256(f.width)
  }

  function Bytes(f: Field): (s: seq<U8>)
    ensures |s| == f.width
    decreases f.width
  {
    if f.width == 0 then [] else [f.value % 256] + Bytes(Field(f.value / 256, f.width - 1))
  }

  function Value(s: seq<U8>): nat {
    if s == [] then 0 else s[0] + 256 * Value(s[1..])
  }

  lemma {:induction false} ValueOfBytes(f: Field)
    requires Fits(f)
    ensures Value(Bytes(f)) == f.value
    decreases f.width
  {
    if f.width > 0 {
      ValueOfBytes(Field(f.value / 256, f.width - 1));
      assert Bytes(f)[1..] == Bytes(Field(f.value / 256, f.width - 1));
    }
  }

  /** The bytes stand in little-endian order: byte i is the i-th digit in base 256. */
  lemma {:induction false} LittleEndian(f: Field, i: nat)
    requires i < f.width
    ensures Pow256(i) > 0 && Bytes(f)[i] == f.value / Pow256(i) % 256
    decreases i
  {
    if i == 0 {
      assert f.value / 1 == f.value;
    } else {
      var rest := Field(f.value / 256, f.width - 1);
      LittleEndian(rest, i - 1);
      assert Bytes(f)[i] == Bytes(rest)[i - 1];
      DivideTwice(f.value, Pow256(i - 1));
    }
  }

  lemma DivideTwice(x: nat, b: nat)
    requires b > 0
    ensures x / 256 / b == x / (256 * b)
  {
    var q, r := x / 256, x % 256;
    var q', r' := q / b, q % b;
    Decompose(q, b);
    assert (256 * b) * q' == 256 * (b * q');
    DivMod(x, 256 * b, q', 256 * r' + r);
  }

  lemma Decompose(x: nat, b: nat)
    requires b > 0
    ensures x == b * (x / b) + x % b && 0 <= x % b < b
  {
  }

  function I32Field(v: I32): Field {
    Field(ToU32(v), 4)
  }

  lemma I32FieldFits(v: I32)
    ensures Fits(I32Field(v)) && ToI32(I32Field(v).value) == v
  {
    assert Pow256(4) == 256 * Pow256(3) && Pow256(3) == 256 * Pow256(2) && Pow256(2) == 256 * Pow256(1);
  }

  lemma UnsignedFits(u8: U8, u16: U16, u32: U32)
    ensures Fits(Field(u8, 1)) && Fits(Field(u16, 2)) && Fits(Field(u32, 4))
  {
    assert Pow256(4) == 256 * Pow256(3) && Pow256(3) == 256 * Pow256(2) && Pow256(2) == 256 * Pow256(1);
  }

  // ----- writing: the bytes written so far, the room left, and a sticky error

  datatype Writer = Writer(done: seq<U8>, room: nat, error: bool)

  function Emit(w: Writer, bytes: seq<U8>): Writer {
    if !w.error && |bytes| <= w.room then Writer(w.done + bytes, w.room - |bytes|, false)
    else w.(error := true)
  }

  function EmitFields(w: Writer, fs: seq<Field>): Writer {
    if fs == [] then w else Emit(EmitFields(w, fs[..|fs| - 1]), Bytes(fs[|fs| - 1]))
  }

  function Encode(fs: seq<Field>): seq<U8> {
    if fs == [] then [] else Encode(fs[..|fs| - 1]) + Bytes(fs[|fs| - 1])
  }

  lemma {:induction false} EncodeAppend(a: seq<Field>, b: seq<Field>)
    ensures Encode(a + b) == Encode(a) + Encode(b)
    decreases |b|
  {
    if b == [] {
      Empty(a);
      Empty(Encode(a));
    } else {
      var front, last := b[..|b| - 1], Bytes(b[|b| - 1]);
      EncodeAppend(a, front);
      LastOfSum(a, b);
      Regroup(Encode(a), Encode(front), last);
    }
  }

  lemma {:induction false} EmitAppend(w: Writer, a: seq<Field>, b: seq<Field>)
    ensures EmitFields(w, a + b) == EmitFields(EmitFields(w, a), b)
    decreases |b|
  {
    if b == [] {
      Empty(a);
    } else {
      EmitAppend(w, a, b[..|b| - 1]);
      LastOfSum(a, b);
    }
  }

  /** Writing field by field is writing the record as a whole: it lands completely when there
      is room for it, and is reported otherwise. */
  lemma {:induction false} EmitWholeRecord(w: Writer, fs: seq<Field>)
    requires !w.error
    ensures EmitFields(w, fs).error <==> |Encode(fs)| > w.room
    ensures |Encode(fs)| <= w.room ==> EmitFields(w, fs) == Emit(w, Encode(fs))
  {
    if fs != [] {
      EmitWholeRecord(w, fs[..|fs| - 1]);
    }
  }

  /** What a record with room adds to the block is its encoding. */
  lemma RecordAdded(w: Writer, fs: seq<Field>)
    requires !w.error && |Encode(fs)| <= w.room
    ensures var out := EmitFields(w, fs);
      !out.error && |w.done| <= |out.done| && out.done[|w.done|..] == Encode(fs)
  {
    EmitWholeRecord(w, fs);
  }

  // ----- reading: the bytes left in the record, and a sticky error

  datatype Reader = Reader(rest: seq<U8>, error: bool)

  function Take(r: Reader, width: nat, def: nat): (nat, Reader) {
    if !r.error && width <= |r.rest| then (Value(r.rest[..width]), r.(rest := r.rest[width..]))
    else (def, r.(error := true))
  }

  lemma {:induction false} ValueBound(s: seq<U8>)
    ensures Value(s) < Pow256(|s|)
  {
    if s != [] {
      ValueBound(s[1..]);
    }
  }

  lemma TakeBound(r: Reader, width: nat, def: nat)
    requires width <= 4 && def < Pow256(width)
    ensures Take(r, width, def).0 < Pow256(width)
    ensures Pow256(1) == 0x100 && Pow256(2) == 0x1_0000 && Pow256(4) == 0x1_0000_0000
  {
    if width <= |r.rest| {
      ValueBound(r.rest[..width]);
    }
    UnsignedFits(0, 0, 0);
    assert Pow256(4) == 256 * Pow256(3) && Pow256(3) == 256 * Pow256(2) && Pow256(2) == 256 * Pow256(1);
  }

  function TakeU8(r: Reader, def: U8): (U8, Reader) {
    UnsignedFits(def, 0, 0);
    TakeBound(r, 1, def);
    Take(r, 1, def)
  }

  function TakeU16(r: Reader, def: U16): (U16, Reader) {
    UnsignedFits(0, def, 0);
    TakeBound(r, 2, def);
    Take(r, 2, def)
  }

  function TakeU32(r: Reader, def: U32): (U32, Reader) {
    UnsignedFits(0, 0, def);
    TakeBound(r, 4, def);
    Take(r, 4, def)
  }

  function TakeI32(r: Reader, def: I32): (I32, Reader) {
    var (u, r') := Take(r, 4, ToU32(def));
    (ToI32(u), r')
  }

  /** A field at the head of the record reads back, and exactly its bytes are consumed. */
  lemma TakeBack(f: Field, tail: seq<U8>, def: nat)
    requires Fits(f)
    ensures Take(Reader(Bytes(f) + tail, false), f.width, def) == (f.value, Reader(tail, false))
  {
    ValueOfBytes(f);
    assert (Bytes(f) + tail)[..f.width] == Bytes(f);
    assert (Bytes(f) + tail)[f.width..] == tail;
  }

  lemma TakeBackI32(v: I32, tail: seq<U8>, def: I32)
    ensures TakeI32(Reader(Bytes(I32Field(v)) + tail, false), def) == (v, Reader(tail, false))
  {
    I32FieldFits(v);
    TakeBack(I32Field(v), tail, ToU32(def));
  }

  // ----- the block

  /** A buffer after storing bytes at p. */
  lemma Stored(was: seq<U8>, now: seq<U8>, p: nat, bytes: seq<U8>)
    requires |now| == |was| && p + |bytes| <= |was|
    requires forall i :: 0 <= i < |was| ==> now[i] == if p <= i < p + |bytes| then bytes[i - p] else was[i]
    ensures now[..p + |bytes|] == was[..p] + bytes && now[p + |bytes|..] == was[p + |bytes|..]
    ensures now == was <==> was[p..p + |bytes|] == bytes
  {
    assert now[p..p + |bytes|] == bytes;
    if was[p..p + |bytes|] == bytes {
      forall i | 0 <= i < |was| ensures now[i] == was[i] {
        if p <= i < p + |bytes| {
          assert was[i] == was[p..p + |bytes|][i - p];
        }
      }
    }
  }

  class FlashBlock {
    const mpBlockData: array<U8>
    var mWritePos: nat
    var mWriteAvailable: nat
    var mWriteError: bool
    var mModified: bool
    var mReadPos: nat
    var mReadAvailable: nat
    var mReadError: bool

    predicate Valid()
      reads this
    {
      mWritePos + mWriteAvailable <= mpBlockData.Length && mReadPos + mReadAvailable <= mpBlockData.Length
    }

    function Output(): Writer
      reads this, mpBlockData
      requires Valid()
    {
      Writer(mpBlockData[..mWritePos], mWriteAvailable, mWriteError)
    }

    function Input(): Reader
      reads this, mpBlockData
      requires Valid()
    {
      Reader(mpBlockData[mReadPos..mReadPos + mReadAvailable], mReadError)
    }

    constructor (size: nat)
      ensures Valid() && fresh(mpBlockData) && mpBlockData.Length == size
      ensures Output() == Writer([], size, false) && Input() == Reader([], false)
    {
      mpBlockData := new U8[size](_ => 0xCC);
      mWritePos, mWriteAvailable, mWriteError, mModified := 0, size, false, true;
      mReadPos, mReadAvailable, mReadError := 0, 0, false;
    }

    /** Starts reading the record of the given length at the given position. */
    method StartRead(pos: nat, length: nat)
      requires pos + length <= mpBlockData.Length && Valid()
      modifies `mReadPos, `mReadAvailable, `mReadError
      ensures Valid() && Input() == Reader(mpBlockData[pos..pos + length], false)
      ensures mReadPos == pos
    {
      mReadPos, mReadAvailable, mReadError := pos, length, false;
    }

    method CanWrite(noOfBytes: nat) returns (can: bool)
      modifies `mWriteError
      ensures can <==> !old(mWriteError) && mWriteAvailable >= noOfBytes
      ensures mWriteError <==> !can
    {
      if !mWriteError && mWriteAvailable >= noOfBytes {
        can := true;
      } else {
        mWriteError := true;
        can := false;
      }
    }

    method CanRead(noOfBytes: nat) returns (can: bool)
      modifies `mReadError
      ensures can <==> !old(mReadError) && mReadAvailable >= noOfBytes
      ensures mReadError <==> !can
    {
      if !mReadError && mReadAvailable >= noOfBytes {
        can := true;
      } else {
        mReadError := true;
        can := false;
      }
    }

    /** WriteU8, WriteU16, WriteU32: stores one value of the given width. Bytes past the new
        write position keep their value, and mModified notices every change. */
    method Write(f: Field)
      requires Valid()
      modifies `mWritePos, `mWriteAvailable, `mWriteError, `mModified, mpBlockData
      ensures Valid() && Output() == Emit(old(Output()), Bytes(f))
      ensures mWritePos + mWriteAvailable == old(mWritePos + mWriteAvailable)
      ensures mpBlockData[mWritePos..] == old(mpBlockData[..])[mWritePos..]
      ensures mModified <==> old(mModified) || mpBlockData[..] != old(mpBlockData[..])
      ensures old(mWriteError) || f.width > old(mWriteAvailable) ==>
        mWriteError && mWritePos == old(mWritePos) && mpBlockData[..] == old(mpBlockData[..])
    {
      var can := CanWrite(f.width);
      if can {
        Store(Bytes(f));
      }
    }

    /** Stores bytes there is room for and moves the write position. */
    method Store(bytes: seq<U8>)
      requires Valid() && |bytes| <= mWriteAvailable
      modifies `mWritePos, `mWriteAvailable, `mModified, mpBlockData
      ensures Valid() && mWritePos == old(mWritePos) + |bytes| && mWriteAvailable == old(mWriteAvailable) - |bytes|
      ensures mpBlockData[..mWritePos] == old(mpBlockData[..mWritePos]) + bytes
      ensures mpBlockData[mWritePos..] == old(mpBlockData[..])[mWritePos..]
      ensures mModified <==> old(mModified) || mpBlockData[..] != old(mpBlockData[..])
    {
      ghost var was, p := mpBlockData[..], mWritePos;
      var changed := mpBlockData[mWritePos..mWritePos + |bytes|] != bytes;
      mModified := mModified || changed;
      forall i | 0 <= i < |bytes| {
        mpBlockData[mWritePos + i] := bytes[i];
      }
      Stored(was, mpBlockData[..], p, bytes);
      mWritePos := mWritePos + |bytes|;
      mWriteAvailable := mWriteAvailable - |bytes|;
    }

    method WriteI32(value: I32)
      requires Valid()
      modifies `mWritePos, `mWriteAvailable, `mWriteError, `mModified, mpBlockData
      ensures Valid() && Output() == Emit(old(Output()), Bytes(I32Field(value)))
      ensures mWritePos + mWriteAvailable == old(mWritePos + mWriteAvailable)
      ensures mpBlockData[mWritePos..] == old(mpBlockData[..])[mWritePos..]
      ensures mModified <==> old(mModified) || mpBlockData[..] != old(mpBlockData[..])
    {
      Write(I32Field(value));
    }

    /** ReadU8, ReadU16, ReadU32: the next value of the record, or the default when the record
        is exhausted or an earlier read failed. */
    method Read(width: nat, defaultValue: nat) returns (value: nat)
      requires Valid()
      modifies `mReadPos, `mReadAvailable, `mReadError
      ensures Valid() && (value, Input()) == Take(old(Input()), width, defaultValue)
      ensures old(mReadError) || width > old(mReadAvailable) ==>
        value == defaultValue && mReadError && mReadPos == old(mReadPos)
      ensures mReadPos + mReadAvailable == old(mReadPos + mReadAvailable)
    {
      value := defaultValue;
      var can := CanRead(width);
      if can {
        ghost var rest := mpBlockData[mReadPos..mReadPos + mReadAvailable];
        value := Value(mpBlockData[mReadPos..mReadPos + width]);
        assert rest[..width] == mpBlockData[mReadPos..mReadPos + width];
        mReadPos := mReadPos + width;
        mReadAvailable := mReadAvailable - width;
        assert rest[width..] == mpBlockData[mReadPos..mReadPos + mReadAvailable];
      }
    }

    method ReadU8(defaultValue: U8) returns (value: U8)
      requires Valid()
      modifies `mReadPos, `mReadAvailable, `mReadError
      ensures Valid() && (value, Input()) == TakeU8(old(Input()), defaultValue)
      ensures old(mReadError) || 1 > old(mReadAvailable) ==> value == defaultValue && mReadError
      ensures mReadPos + mReadAvailable == old(mReadPos + mReadAvailable)
    {
      ghost var r := TakeU8(Input(), defaultValue);
      value := Read(1, defaultValue);
    }

    method ReadU16(defaultValue: U16) returns (value: U16)
      requires Valid()
      modifies `mReadPos, `mReadAvailable, `mReadError
      ensures Valid() && (value, Input()) == TakeU16(old(Input()), defaultValue)
      ensures old(mReadError) || 2 > old(mReadAvailable) ==> value == defaultValue && mReadError
      ensures mReadPos + mReadAvailable == old(mReadPos + mReadAvailable)
    {
      ghost var r := TakeU16(Input(), defaultValue);
      value := Read(2, defaultValue);
    }

    method ReadU32(defaultValue: U32) returns (value: U32)
      requires Valid()
      modifies `mReadPos, `mReadAvailable, `mReadError
      ensures Valid() && (value, Input()) == TakeU32(old(Input()), defaultValue)
      ensures old(mReadError) || 4 > old(mReadAvailable) ==> value == defaultValue && mReadError
      ensures mReadPos + mReadAvailable == old(mReadPos + mReadAvailable)
    {
      ghost var r := TakeU32(Input(), defaultValue);
      value := Read(4, defaultValue);
    }

    method ReadI32(defaultValue: I32) returns (value: I32)
      requires Valid()
      modifies `mReadPos, `mReadAvailable, `mReadError
      ensures Valid() && (value, Input()) == TakeI32(old(Input()), defaultValue)
      ensures old(mReadError) || 4 > old(mReadAvailable) ==> value == defaultValue && mReadError
      ensures mReadPos + mReadAvailable == old(mReadPos + mReadAvailable)
    {
      I32FieldFits(defaultValue);
      var u := Read(4, ToU32(defaultValue));
      value := ToI32(u);
    }
  }
}
