/** The flash record of I32VectorDataPoint: the sizes, and one cell per possible element. */
module VectorFlash {
  import opened CInt
  import opened Vectors
  import opened Flash
  import opened VectorRecords
  import opened Seqs

  // ----- one cell

  function I32Cell(v: I32): seq<Field> {
    [I32Field(v)]
  }

  function I32Take(def: I32): Reader -> (I32, Reader) {
    r => TakeI32(r, def)
  }

  lemma EncodeI32(v: I32)
    ensures Encode(I32Cell(v)) == Bytes(I32Field(v))
  {
    assert I32Cell(v)[..0] == [];
    Empty(Bytes(I32Field(v)));
  }

  lemma EmitI32(w: Writer, v: I32)
    ensures EmitFields(w, I32Cell(v)) == Emit(w, Bytes(I32Field(v)))
  {
    assert I32Cell(v)[..0] == [];
  }

  lemma I32ReadsBack(v: I32, def: I32)
    ensures ReadsBack(I32Take(def), I32Cell, v)
  {
    EncodeI32(v);
    forall tail: seq<U8>
      ensures I32Take(def)(Reader(Encode(I32Cell(v)) + tail, false)) == (v, Reader(tail, false))
    {
      TakeBackI32(v, tail, def);
    }
  }

  // ----- the record

  function Header(max: I32, size: I32): seq<Field> {
    I32Cell(max) + I32Cell(size)
  }

  /** The record of a vector with logical contents l. */
  function I32Record(l: seq<I32>, max: I32, def: I32): seq<Field>
    requires |l| < 0x8000_0000
  {
    Header(max, |l|) + FieldsOf(I32Cell, Cells(l, NonNegative(max), def))
  }

  /** The values a load sets, on any bytes at all, and the rest of the record. */
  function I32Values(r: Reader, def: I32): (seq<I32>, Reader) {
    var (savedMaxSize, r1) := TakeI32(r, -1);
    var (savedSize, r2) := TakeI32(r1, -1);
    (Values(I32Take(def), r2, NonNegative(savedMaxSize), savedSize),
     TakeMany(I32Take(def), r2, NonNegative(savedMaxSize)).1)
  }

  /** What a load makes of the logical contents: cleared, then set from the front. */
  function LoadI32(r: Reader, l: seq<I32>, max: int, def: I32): (seq<I32>, Reader) {
    (SetFront(Defaults(|l|, def), I32Values(r, def).0, max, def), I32Values(r, def).1)
  }

  lemma EncodeHeader(max: I32, size: I32)
    ensures Encode(Header(max, size)) == Bytes(I32Field(max)) + Bytes(I32Field(size))
  {
    EncodeAppend(I32Cell(max), I32Cell(size));
    EncodeI32(max);
    EncodeI32(size);
  }

  /** The bytes of a vector record: maximal size, size, and the cells. */
  lemma EncodeI32Record(l: seq<I32>, max: I32, def: I32, tail: seq<U8>)
    requires |l| < 0x8000_0000
    ensures Encode(I32Record(l, max, def)) + tail == Bytes(I32Field(max))
      + (Bytes(I32Field(|l|)) + (Encode(FieldsOf(I32Cell, Cells(l, NonNegative(max), def))) + tail))
  {
    var cells := FieldsOf(I32Cell, Cells(l, NonNegative(max), def));
    EncodeAppend(Header(max, |l|), cells);
    EncodeHeader(max, |l|);
    var a, b := Bytes(I32Field(max)), Bytes(I32Field(|l|));
    Regroup(a + b, Encode(cells), tail);
    Regroup(a, b, Encode(cells) + tail);
  }

  /** Where everything stands in the record: four bytes for the maximal size, four for the size, and
      four for each possible element in logical order, the default behind the last one. */
  lemma I32Layout(l: seq<I32>, max: I32, def: I32)
    requires |l| < 0x8000_0000
    ensures var bytes := Encode(I32Record(l, max, def));
      && |bytes| == 8 + 4 * NonNegative(max)
      && bytes[..4] == Bytes(I32Field(max)) && bytes[4..8] == Bytes(I32Field(|l|))
      && forall i :: 0 <= i < NonNegative(max) ==>
           bytes[8 + 4 * i..12 + 4 * i] == Bytes(I32Field(if i < |l| then l[i] else def))
  {
    var cells := Cells(l, NonNegative(max), def);
    var rest := Encode(FieldsOf(I32Cell, cells));
    RecordBytes(l, max, def);
    forall i | 0 <= i < |cells| ensures |Encode(I32Cell(cells[i]))| == 4 {
      EncodeI32(cells[i]);
    }
    CellsLength(I32Cell, cells, 4);
    var a, b := Bytes(I32Field(max)), Bytes(I32Field(|l|));
    forall i | 0 <= i < NonNegative(max)
      ensures (a + (b + rest))[8 + 4 * i..12 + 4 * i] == Bytes(I32Field(if i < |l| then l[i] else def))
    {
      CellAt(I32Cell, cells, 4, i);
      EncodeI32(cells[i]);
      Behind(a, b, rest, 4 * i);
    }
    Behind(a, b, rest, 0);
  }

  lemma RecordBytes(l: seq<I32>, max: I32, def: I32)
    requires |l| < 0x8000_0000
    ensures Encode(I32Record(l, max, def)) == Bytes(I32Field(max))
      + (Bytes(I32Field(|l|)) + Encode(FieldsOf(I32Cell, Cells(l, NonNegative(max), def))))
  {
    EncodeI32Record(l, max, def, []);
    Empty(Encode(I32Record(l, max, def)));
    Empty(Encode(FieldsOf(I32Cell, Cells(l, NonNegative(max), def))));
  }

  lemma Behind(a: seq<U8>, b: seq<U8>, rest: seq<U8>, k: nat)
    requires |a| == 4 && |b| == 4 && k <= |rest|
    ensures (a + (b + rest))[..4] == a && (a + (b + rest))[4..8] == b
    ensures k + 4 <= |rest| ==> (a + (b + rest))[8 + k..12 + k] == rest[k..k + 4]
  {
  }

  /** A record that ends early, at a cell or within one: the complete cells are loaded and the others
      read as the default. */
  lemma I32Truncated(s: seq<I32>, stub: seq<U8>, n: nat, def: I32)
    requires |stub| < 4 && |s| <= n
    ensures TakeMany(I32Take(def), Reader(Encode(FieldsOf(I32Cell, s)) + stub, false), n).0
      == s + Defaults(n - |s|, def)
    ensures TakeMany(I32Take(def), Reader(Encode(FieldsOf(I32Cell, s)) + stub, false), n).1
      == Reader(stub, n > |s|)
    decreases n
  {
    var r := Reader(Encode(FieldsOf(I32Cell, s)) + stub, false);
    if n == |s| {
      forall i | 0 <= i < |s| ensures ReadsBack(I32Take(def), I32Cell, s[i]) {
        I32ReadsBack(s[i], def);
      }
      TakeManyBack(I32Take(def), I32Cell, s, stub);
      Empty(s);
    } else {
      var read := s + Defaults(n - 1 - |s|, def);
      I32Truncated(s, stub, n - 1, def);
      I32FromNothing(Reader(stub, n - 1 > |s|), def);
      OneMore(I32Take(def), r, read, Reader(stub, n - 1 > |s|), def, Reader(stub, true));
      assert read + [def] == s + Defaults(n - |s|, def);
    }
  }

  lemma I32FromNothing(r: Reader, def: I32)
    requires r.error || |r.rest| < 4
    ensures I32Take(def)(r) == (def, r.(error := true))
  {
    I32FieldFits(def);
  }

  lemma I32ValuesBack(l: seq<I32>, max: I32, def: I32, targetDef: I32, tail: seq<U8>)
    requires |l| < 0x8000_0000
    ensures I32Values(Reader(Encode(I32Record(l, max, def)) + tail, false), targetDef)
      == (Cells(l, NonNegative(max), def)[..Min(|l|, NonNegative(max))], Reader(tail, false))
  {
    var cells := Cells(l, NonNegative(max), def);
    var rest := Encode(FieldsOf(I32Cell, cells)) + tail;
    EncodeI32Record(l, max, def, tail);
    TakeBackI32(max, Bytes(I32Field(|l|)) + rest, -1);
    TakeBackI32(|l|, rest, -1);
    forall i | 0 <= i < |cells| ensures ReadsBack(I32Take(targetDef), I32Cell, cells[i]) {
      I32ReadsBack(cells[i], targetDef);
    }
    TakeManyBack(I32Take(targetDef), I32Cell, cells, tail);
  }

  /** Loading what was saved consumes exactly that record and gives, whatever the offsets of
      the two rings and the old contents of the target: the saved elements as far as they were
      saved and the target has room for them, and default values behind them. */
  lemma I32RoundTrip(l: seq<I32>, max: I32, def: I32, target: seq<I32>, targetMax: int, targetDef: I32, tail: seq<U8>)
    requires |l| < 0x8000_0000
    ensures var k := Min(Min(|l|, NonNegative(max)), Room(|target|, targetMax));
      LoadI32(Reader(Encode(I32Record(l, max, def)) + tail, false), target, targetMax, targetDef)
        == (l[..k] + Defaults(NonNegative(|target| - k), targetDef), Reader(tail, false))
  {
    I32ValuesBack(l, max, def, targetDef, tail);
    SetFrontOfCells(l, NonNegative(max), def, Defaults(|target|, targetDef), targetMax, targetDef);
    DefaultsTail(|target|, Min(Min(|l|, NonNegative(max)), Room(|target|, targetMax)), targetDef);
  }

  lemma DefaultsTail<T>(n: nat, k: nat, def: T)
    ensures (if k < |Defaults(n, def)| then Defaults(n, def)[k..] else []) == Defaults(NonNegative(n - k), def)
  {
  }

  /** So a vector written to a block with room for it comes back from the bytes added there. */
  lemma I32SaveThenLoad(w: Writer, l: seq<I32>, max: I32, def: I32, target: seq<I32>, targetMax: int, targetDef: I32)
    requires |l| < 0x8000_0000 && !w.error && |Encode(I32Record(l, max, def))| <= w.room
    ensures var out := EmitFields(w, I32Record(l, max, def));
      var k := Min(Min(|l|, NonNegative(max)), Room(|target|, targetMax));
      && !out.error && |w.done| <= |out.done|
      && LoadI32(Reader(out.done[|w.done|..], false), target, targetMax, targetDef)
        == (l[..k] + Defaults(NonNegative(|target| - k), targetDef), Reader([], false))
  {
    RecordAdded(w, I32Record(l, max, def));
    I32RoundTrip(l, max, def, target, targetMax, targetDef, []);
    Empty(Encode(I32Record(l, max, def)));
  }

  // ----- the methods

  method SaveI32Vector(v: VectorDataPoint<I32>, pWriter: FlashBlock)
    requires v.Valid() && pWriter.Valid()
    requires |v.mVector| < 0x8000_0000 && -0x8000_0000 <= v.mMaxSize < 0x8000_0000
    modifies pWriter`mWritePos, pWriter`mWriteAvailable, pWriter`mWriteError, pWriter`mModified,
             pWriter.mpBlockData
    ensures pWriter.Valid() && pWriter.Output() ==
      EmitFields(old(pWriter.Output()), I32Record(v.Logical(), v.mMaxSize, v.mDefaultValue))
  {
    var maxSize: I32 := v.mMaxSize;
    var size: I32 := |v.mVector|;
    ghost var w, cells := pWriter.Output(), Cells(v.Logical(), NonNegative(maxSize), v.mDefaultValue);
    pWriter.WriteI32(maxSize);
    pWriter.WriteI32(size);
    EmitHeader(w, maxSize, size);
    WriteI32Cells(v, pWriter);
    EmitAppend(w, Header(maxSize, size), FieldsOf(I32Cell, cells));
  }

  lemma EmitHeader(w: Writer, max: I32, size: I32)
    ensures EmitFields(w, Header(max, size)) == Emit(Emit(w, Bytes(I32Field(max))), Bytes(I32Field(size)))
  {
    EmitAppend(w, I32Cell(max), I32Cell(size));
    EmitI32(w, max);
    EmitI32(EmitFields(w, I32Cell(max)), size);
  }

  /** The loop of SaveToFlash. */
  method WriteI32Cells(v: VectorDataPoint<I32>, pWriter: FlashBlock)
    requires v.Valid() && pWriter.Valid()
    modifies pWriter`mWritePos, pWriter`mWriteAvailable, pWriter`mWriteError, pWriter`mModified,
             pWriter.mpBlockData
    ensures pWriter.Valid() && pWriter.Output() == EmitFields(old(pWriter.Output()),
      FieldsOf(I32Cell, Cells(v.Logical(), NonNegative(v.mMaxSize), v.mDefaultValue)))
  {
    var size := |v.mVector|;
    ghost var w, cells := pWriter.Output(), Cells(v.Logical(), NonNegative(v.mMaxSize), v.mDefaultValue);
    var i := 0;
    while i < v.mMaxSize
      invariant 0 <= i <= |cells| && pWriter.Valid()
      invariant pWriter.Output() == EmitFields(w, FieldsOf(I32Cell, cells[..i]))
    {
      var value := v.mDefaultValue;
      if i < size {
        value := v.GetValue(i);
      }
      EmitI32(pWriter.Output(), value);
      pWriter.WriteI32(value);
      EmitAt(w, I32Cell, cells, i);
      i := i + 1;
    }
    assert cells[..i] == cells;
  }

  /** Observers hear of every element that changes after the clearing, which itself is silent. */
  method LoadI32Vector(v: VectorDataPoint<I32>, pReader: FlashBlock)
    requires v.Valid() && pReader.Valid()
    modifies v`mVector, v`mOffset, v`notified, pReader`mReadPos, pReader`mReadAvailable, pReader`mReadError
    ensures v.Valid() && v.mOffset == 0 && pReader.Valid()
    ensures (v.Logical(), pReader.Input())
      == LoadI32(old(pReader.Input()), old(v.Logical()), v.mMaxSize, v.mDefaultValue)
    ensures v.notified == old(v.notified) + Notices(Defaults(|old(v.Logical())|, v.mDefaultValue),
      I32Values(old(pReader.Input()), v.mDefaultValue).0, v.mMaxSize)
    ensures pReader.mReadPos + pReader.mReadAvailable == old(pReader.mReadPos + pReader.mReadAvailable)
  {
    var savedMaxSize := pReader.ReadI32(-1);
    var savedSize := pReader.ReadI32(-1);
    v.Clear();
    LoadI32Cells(v, pReader, savedMaxSize, savedSize);
  }

  /** The loop of LoadFromFlash. */
  method LoadI32Cells(v: VectorDataPoint<I32>, pReader: FlashBlock, savedMaxSize: I32, savedSize: I32)
    requires v.Valid() && pReader.Valid() && v.mOffset == 0
    modifies v`mVector, v`notified, pReader`mReadPos, pReader`mReadAvailable, pReader`mReadError
    ensures v.Valid() && pReader.Valid()
    ensures LoadState(I32Take(v.mDefaultValue), old(v.Logical()), old(pReader.Input()), NonNegative(savedMaxSize),
                      savedSize, v.Logical(), pReader.Input(), v.notified - old(v.notified), v.mMaxSize,
                      v.mDefaultValue)
    ensures pReader.mReadPos + pReader.mReadAvailable == old(pReader.mReadPos + pReader.mReadAvailable)
  {
    ghost var l, r, n, before := v.Logical(), pReader.Input(), NonNegative(savedMaxSize), v.notified;
    var i := 0;
    while i < savedMaxSize
      invariant 0 <= i <= n && v.Valid() && pReader.Valid()
      invariant pReader.mReadPos + pReader.mReadAvailable == old(pReader.mReadPos + pReader.mReadAvailable)
      invariant LoadState(I32Take(v.mDefaultValue), l, r, i, savedSize, v.Logical(), pReader.Input(),
                          v.notified - before, v.mMaxSize, v.mDefaultValue)
    {
      LoadI32Cell(v, pReader, i, savedSize, l, r, before);
      i := i + 1;
    }
    assert i == n;
  }

  /** One turn of the loading loop. */
  method LoadI32Cell(v: VectorDataPoint<I32>, pReader: FlashBlock, i: nat, savedSize: I32,
                     ghost l: seq<I32>, ghost r: Reader, ghost before: nat)
    requires v.Valid() && pReader.Valid()
    requires LoadState(I32Take(v.mDefaultValue), l, r, i, savedSize, v.Logical(), pReader.Input(),
                       v.notified - before, v.mMaxSize, v.mDefaultValue)
    modifies v`mVector, v`notified, pReader`mReadPos, pReader`mReadAvailable, pReader`mReadError
    ensures v.Valid() && pReader.Valid()
    ensures LoadState(I32Take(v.mDefaultValue), l, r, i + 1, savedSize, v.Logical(), pReader.Input(),
                      v.notified - before, v.mMaxSize, v.mDefaultValue)
    ensures pReader.mReadPos + pReader.mReadAvailable == old(pReader.mReadPos + pReader.mReadAvailable)
  {
    LoadedStep(I32Take(v.mDefaultValue), l, r, i, savedSize, v.Logical(), pReader.Input(), v.notified - before,
               v.mMaxSize, v.mDefaultValue);
    var value := pReader.ReadI32(v.mDefaultValue);
    if i < savedSize {
      var notify := v.SetValue(i, value);
    }
  }

  /** Saving a vector to a block with room for it and loading another one from there. */
  method SaveAndReload(v: VectorDataPoint<I32>, target: VectorDataPoint<I32>, block: FlashBlock)
    requires v != target && v.Valid() && target.Valid() && block.Valid() && !block.mWriteError
    requires |v.mVector| < 0x8000_0000 && -0x8000_0000 <= v.mMaxSize < 0x8000_0000
    requires |Encode(I32Record(v.Logical(), v.mMaxSize, v.mDefaultValue))| <= block.mWriteAvailable
    modifies block, block.mpBlockData, target`mVector, target`mOffset, target`notified
    ensures target.Valid()
    ensures var l := v.Logical();
      var k := Min(Min(|l|, NonNegative(v.mMaxSize)), Room(|old(target.Logical())|, target.mMaxSize));
      target.Logical() == l[..k] + Defaults(NonNegative(|old(target.Logical())| - k), target.mDefaultValue)
  {
    var start := block.mWritePos;
    I32SaveThenLoad(block.Output(), v.Logical(), v.mMaxSize, v.mDefaultValue, target.Logical(), target.mMaxSize,
                    target.mDefaultValue);
    SaveI32Vector(v, block);
    block.StartRead(start, block.mWritePos - start);
    assert block.Input().rest == block.Output().done[start..];
    LoadI32Vector(target, block);
  }
}
