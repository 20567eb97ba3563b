/** Flash records of EventLogVectorDataPoint: a version byte, the sizes, and five fields per
    event. Loading does not clear the vector first. */
module EventLogFlash {
  import opened CInt
  import opened Vectors
  import opened Flash
  import opened VectorRecords
  import opened Seqs

  datatype EventLogRecord = EventLogRecord(
    EventId: U16, EventCode: U8, EventSource: U8, EventType: U8, EventTimeValue: U32)

  const VERSION: U8 := 1

  // ----- one event

  function EventFields(e: EventLogRecord): seq<Field> {
    [Field(e.EventId, 2), Field(e.EventCode, 1), Field(e.EventSource, 1), Field(e.EventType, 1),
     Field(e.EventTimeValue, 4)]
  }

  function EventBytes(e: EventLogRecord): seq<U8> {
    Bytes(Field(e.EventId, 2)) + (Bytes(Field(e.EventCode, 1)) + (Bytes(Field(e.EventSource, 1))
      + (Bytes(Field(e.EventType, 1)) + Bytes(Field(e.EventTimeValue, 4)))))
  }

  function TakeEvent(r: Reader): (EventLogRecord, Reader) {
    var (id, r1) := TakeU16(r, 0);
    var (code, r2) := TakeU8(r1, 0);
    var (source, r3) := TakeU8(r2, 0);
    var (kind, r4) := TakeU8(r3, 0);
    var (time, r5) := TakeU32(r4, 0);
    (EventLogRecord(id, code, source, kind, time), r5)
  }

  function EventTake(): Reader -> (EventLogRecord, Reader) {
    r => TakeEvent(r)
  }

  lemma TakeEventBack(e: EventLogRecord, tail: seq<U8>)
    ensures TakeEvent(Reader(EventBytes(e) + tail, false)) == (e, Reader(tail, false))
  {
    UnsignedFits(e.EventCode, e.EventId, e.EventTimeValue);
    UnsignedFits(e.EventSource, e.EventId, e.EventTimeValue);
    UnsignedFits(e.EventType, e.EventId, e.EventTimeValue);
    var t4 := Bytes(Field(e.EventTimeValue, 4)) + tail;
    var t3 := Bytes(Field(e.EventType, 1)) + t4;
    var t2 := Bytes(Field(e.EventSource, 1)) + t3;
    var t1 := Bytes(Field(e.EventCode, 1)) + t2;
    assert EventBytes(e) + tail == Bytes(Field(e.EventId, 2)) + t1;
    TakeBack(Field(e.EventId, 2), t1, 0);
    TakeBack(Field(e.EventCode, 1), t2, 0);
    TakeBack(Field(e.EventSource, 1), t3, 0);
    TakeBack(Field(e.EventType, 1), t4, 0);
    TakeBack(Field(e.EventTimeValue, 4), tail, 0);
  }

  /** Five fields appended one after the other are the bytes of the event. */
  lemma EncodeEvent(e: EventLogRecord)
    ensures Encode(EventFields(e)) == EventBytes(e)
  {
    var fs := EventFields(e);
    assert fs[..4][..3] == fs[..3] && fs[..3][..2] == fs[..2] && fs[..2][..1] == fs[..1] && fs[..1][..0] == [];
    assert Encode(fs[..1]) == [] + Bytes(fs[0]);
    assert Encode(fs[..2]) == Encode(fs[..1]) + Bytes(fs[1]);
    assert Encode(fs[..3]) == Encode(fs[..2]) + Bytes(fs[2]);
    assert Encode(fs[..4]) == Encode(fs[..3]) + Bytes(fs[3]);
    assert fs[..4] == fs[..|fs| - 1];
  }

  /** Where the fields of an event stand, nine bytes in all. */
  lemma EventLayout(e: EventLogRecord)
    ensures var bytes := Encode(EventFields(e));
      && |bytes| == 9
      && bytes[..2] == Bytes(Field(e.EventId, 2)) && bytes[2..3] == Bytes(Field(e.EventCode, 1))
      && bytes[3..4] == Bytes(Field(e.EventSource, 1)) && bytes[4..5] == Bytes(Field(e.EventType, 1))
      && bytes[5..] == Bytes(Field(e.EventTimeValue, 4))
  {
    EncodeEvent(e);
  }

  /** From an exhausted record all fields of an event read as 0. */
  lemma EventFromNothing(r: Reader)
    requires r.error || r.rest == []
    ensures TakeEvent(r) == (EventLogRecord(0, 0, 0, 0, 0), r.(error := true))
  {
  }

  lemma EventReadsBack(e: EventLogRecord)
    ensures ReadsBack(EventTake(), EventFields, e)
  {
    EncodeEvent(e);
    forall tail: seq<U8>
      ensures EventTake()(Reader(Encode(EventFields(e)) + tail, false)) == (e, Reader(tail, false))
    {
      TakeEventBack(e, tail);
    }
  }

  // ----- the record

  function Header(max: I32, size: I32): seq<Field> {
    [Field(VERSION, 1), I32Field(max), I32Field(size)]
  }

  function EventLogFields(l: seq<EventLogRecord>, max: I32, def: EventLogRecord): seq<Field>
    requires |l| < 0x8000_0000
  {
    Header(max, |l|) + FieldsOf(EventFields, Cells(l, NonNegative(max), def))
  }

  /** The values a load sets, on any bytes at all, and the rest of the record. */
  function EventValues(r: Reader): (seq<EventLogRecord>, Reader) {
    var (version, r1) := TakeU8(r, 0);
    var (savedMaxSize, r2) := TakeI32(r1, -1);
    var (savedSize, r3) := TakeI32(r2, -1);
    if version != VERSION then ([], r3)
    else
      (Values(EventTake(), r3, NonNegative(savedMaxSize), savedSize),
       TakeMany(EventTake(), r3, NonNegative(savedMaxSize)).1)
  }

  /** What a load makes of the logical contents, without clearing them first. */
  function LoadEvents(r: Reader, l: seq<EventLogRecord>, max: int, def: EventLogRecord)
    : (seq<EventLogRecord>, Reader)
  {
    (SetFront(l, EventValues(r).0, max, def), EventValues(r).1)
  }

  lemma EncodeHeader(max: I32, size: I32)
    ensures Encode(Header(max, size)) == Bytes(Field(VERSION, 1)) + (Bytes(I32Field(max)) + Bytes(I32Field(size)))
  {
    var fs := Header(max, size);
    assert fs[..2][..1] == fs[..1] && fs[..1][..0] == [];
    assert Encode(fs[..1]) == [] + Bytes(fs[0]);
    assert Encode(fs[..2]) == Encode(fs[..1]) + Bytes(fs[1]);
    assert fs[..2] == fs[..|fs| - 1];
  }

  lemma TakeHeaderBack(max: I32, size: I32, tail: seq<U8>)
    ensures var r := Reader(Encode(Header(max, size)) + tail, false);
      var r1 := Reader(Bytes(I32Field(max)) + (Bytes(I32Field(size)) + tail), false);
      var r2 := Reader(Bytes(I32Field(size)) + tail, false);
      && TakeU8(r, 0) == (VERSION, r1)
      && TakeI32(r1, -1) == (max, r2)
      && TakeI32(r2, -1) == (size, Reader(tail, false))
  {
    EncodeHeader(max, size);
    var r2 := Bytes(I32Field(size)) + tail;
    assert Encode(Header(max, size)) + tail == Bytes(Field(VERSION, 1)) + (Bytes(I32Field(max)) + r2);
    UnsignedFits(VERSION, 0, 0);
    TakeBack(Field(VERSION, 1), Bytes(I32Field(max)) + r2, 0);
    TakeBackI32(max, r2, -1);
    TakeBackI32(size, tail, -1);
  }

  /** Where everything stands in the record: the version, which is 1, the maximal size, the size, and
      nine bytes for each possible event in logical order, the default behind the last one. */
  lemma EventLogLayout(l: seq<EventLogRecord>, max: I32, def: EventLogRecord)
    requires |l| < 0x8000_0000
    ensures var bytes := Encode(EventLogFields(l, max, def));
      && |bytes| == 9 + 9 * NonNegative(max)
      && bytes[0] == 1 && bytes[1..5] == Bytes(I32Field(max)) && bytes[5..9] == Bytes(I32Field(|l|))
      && forall i :: 0 <= i < NonNegative(max) ==>
           bytes[9 + 9 * i..18 + 9 * i] == Encode(EventFields(if i < |l| then l[i] else def))
  {
    var cells := Cells(l, NonNegative(max), def);
    var header, rest := Encode(Header(max, |l|)), Encode(FieldsOf(EventFields, cells));
    EncodeAppend(Header(max, |l|), FieldsOf(EventFields, cells));
    HeaderLayout(max, |l|);
    forall i | 0 <= i < |cells| ensures |Encode(EventFields(cells[i]))| == 9 {
      EventLayout(cells[i]);
    }
    CellsLength(EventFields, cells, 9);
    assert (header + rest)[1..5] == header[1..5] && (header + rest)[5..9] == header[5..9];
    forall i | 0 <= i < NonNegative(max)
      ensures (header + rest)[9 + 9 * i..18 + 9 * i] == Encode(EventFields(if i < |l| then l[i] else def))
    {
      CellAt(EventFields, cells, 9, i);
      assert (header + rest)[9 + 9 * i..18 + 9 * i] == rest[9 * i..9 * i + 9];
    }
  }

  lemma HeaderLayout(max: I32, size: I32)
    ensures var bytes := Encode(Header(max, size));
      && |bytes| == 9 && bytes[0] == 1
      && bytes[1..5] == Bytes(I32Field(max)) && bytes[5..9] == Bytes(I32Field(size))
  {
    EncodeHeader(max, size);
    assert Bytes(Field(VERSION, 1)) == [1];
  }

  lemma EventValuesBack(l: seq<EventLogRecord>, max: I32, def: EventLogRecord, tail: seq<U8>)
    requires |l| < 0x8000_0000
    ensures EventValues(Reader(Encode(EventLogFields(l, max, def)) + tail, false))
      == (Cells(l, NonNegative(max), def)[..Min(|l|, NonNegative(max))], Reader(tail, false))
  {
    var cells := Cells(l, NonNegative(max), def);
    var rest := Encode(FieldsOf(EventFields, cells)) + tail;
    EncodeAppend(Header(max, |l|), FieldsOf(EventFields, cells));
    Regroup(Encode(Header(max, |l|)), Encode(FieldsOf(EventFields, cells)), tail);
    TakeHeaderBack(max, |l|, rest);
    forall i | 0 <= i < |cells| ensures ReadsBack(EventTake(), EventFields, cells[i]) {
      EventReadsBack(cells[i]);
    }
    TakeManyBack(EventTake(), EventFields, cells, tail);
  }

  /** Loading what was saved puts every saved event at its logical index, even into a rotated
      ring, leaves the elements behind them as they were, and consumes exactly the record. */
  lemma EventLogRoundTrip(l: seq<EventLogRecord>, max: I32, def: EventLogRecord,
                          target: seq<EventLogRecord>, targetMax: int, targetDef: EventLogRecord, tail: seq<U8>)
    requires |l| < 0x8000_0000
    ensures var k := Min(Min(|l|, NonNegative(max)), Room(|target|, targetMax));
      LoadEvents(Reader(Encode(EventLogFields(l, max, def)) + tail, false), target, targetMax, targetDef)
        == (l[..k] + (if k < |target| then target[k..] else []), Reader(tail, false))
  {
    EventValuesBack(l, max, def, tail);
    SetFrontOfCells(l, NonNegative(max), def, target, targetMax, targetDef);
  }

  /** So a log written to a block with room for it comes back from the bytes added there. */
  lemma EventLogSaveThenLoad(w: Writer, l: seq<EventLogRecord>, max: I32, def: EventLogRecord,
                             target: seq<EventLogRecord>, targetMax: int, targetDef: EventLogRecord)
    requires |l| < 0x8000_0000 && !w.error && |Encode(EventLogFields(l, max, def))| <= w.room
    ensures var out := EmitFields(w, EventLogFields(l, max, def));
      var k := Min(Min(|l|, NonNegative(max)), Room(|target|, targetMax));
      && !out.error && |w.done| <= |out.done|
      && LoadEvents(Reader(out.done[|w.done|..], false), target, targetMax, targetDef)
        == (l[..k] + (if k < |target| then target[k..] else []), Reader([], false))
  {
    var fs := EventLogFields(l, max, def);
    RecordAdded(w, fs);
    EventLogRoundTrip(l, max, def, target, targetMax, targetDef, []);
    Empty(Encode(fs));
  }

  /** A record of another version changes nothing. */
  lemma OtherVersionIgnored(r: Reader, l: seq<EventLogRecord>, max: int, def: EventLogRecord)
    requires TakeU8(r, 0).0 != 1
    ensures var (version, r1) := TakeU8(r, 0);
      LoadEvents(r, l, max, def) == (l, TakeI32(TakeI32(r1, -1).1, -1).1)
  {
  }

  // ----- the methods

  method WriteEvent(pWriter: FlashBlock, e: EventLogRecord)
    requires pWriter.Valid()
    modifies pWriter`mWritePos, pWriter`mWriteAvailable, pWriter`mWriteError, pWriter`mModified,
             pWriter.mpBlockData
    ensures pWriter.Valid() && pWriter.Output() == EmitFields(old(pWriter.Output()), EventFields(e))
  {
    ghost var w, fs := pWriter.Output(), EventFields(e);
    assert fs[..0] == [] && fs[..5] == fs;
    pWriter.Write(Field(e.EventId, 2));
    EmitField(w, fs, 0);
    pWriter.Write(Field(e.EventCode, 1));
    EmitField(w, fs, 1);
    pWriter.Write(Field(e.EventSource, 1));
    EmitField(w, fs, 2);
    pWriter.Write(Field(e.EventType, 1));
    EmitField(w, fs, 3);
    pWriter.Write(Field(e.EventTimeValue, 4));
    EmitField(w, fs, 4);
  }

  lemma EmitField(w: Writer, fs: seq<Field>, k: nat)
    requires k < |fs|
    ensures EmitFields(w, fs[..k + 1]) == Emit(EmitFields(w, fs[..k]), Bytes(fs[k]))
  {
    assert fs[..k + 1][..k] == fs[..k];
  }

  method SaveEventLog(v: VectorDataPoint<EventLogRecord>, pWriter: FlashBlock)
    requires v.Valid() && pWriter.Valid()
    requires |v.mVector| < 0x8000_0000 && -0x8000_0000 <= v.mMaxSize < 0x8000_0000
    modifies pWriter`mWritePos, pWriter`mWriteAvailable, pWriter`mWriteError, pWriter`mModified,
             pWriter.mpBlockData
    ensures pWriter.Valid() && pWriter.Output() ==
      EmitFields(old(pWriter.Output()), EventLogFields(v.Logical(), v.mMaxSize, v.mDefaultValue))
  {
    var maxSize: I32 := v.mMaxSize;
    var size: I32 := |v.mVector|;
    ghost var w, header := pWriter.Output(), Header(maxSize, size);
    assert header[..0] == [] && header[..3] == header;
    pWriter.Write(Field(VERSION, 1));
    EmitField(w, header, 0);
    pWriter.WriteI32(maxSize);
    EmitField(w, header, 1);
    pWriter.WriteI32(size);
    EmitField(w, header, 2);
    WriteEvents(v, pWriter);
    EmitAppend(w, header, FieldsOf(EventFields, Cells(v.Logical(), NonNegative(maxSize), v.mDefaultValue)));
  }

  method WriteEvents(v: VectorDataPoint<EventLogRecord>, pWriter: FlashBlock)
    requires v.Valid() && pWriter.Valid()
    modifies pWriter`mWritePos, pWriter`mWriteAvailable, pWriter`mWriteError, pWriter`mModified,
             pWriter.mpBlockData
    ensures pWriter.Valid() && pWriter.Output() == EmitFields(old(pWriter.Output()),
      FieldsOf(EventFields, Cells(v.Logical(), NonNegative(v.mMaxSize), v.mDefaultValue)))
  {
    ghost var w, cells := pWriter.Output(), Cells(v.Logical(), NonNegative(v.mMaxSize), v.mDefaultValue);
    var i := 0;
    while i < v.mMaxSize
      invariant 0 <= i <= |cells| && pWriter.Valid()
      invariant pWriter.Output() == EmitFields(w, FieldsOf(EventFields, cells[..i]))
    {
      WriteCell(v, pWriter, i, w, cells);
      i := i + 1;
    }
    assert cells[..i] == cells;
  }

  /** One turn of the writing loop. */
  method WriteCell(v: VectorDataPoint<EventLogRecord>, pWriter: FlashBlock, i: nat,
                   ghost w: Writer, ghost cells: seq<EventLogRecord>)
    requires v.Valid() && pWriter.Valid() && i < |cells|
    requires cells == Cells(v.Logical(), |cells|, v.mDefaultValue)
    requires pWriter.Output() == EmitFields(w, FieldsOf(EventFields, cells[..i]))
    modifies pWriter`mWritePos, pWriter`mWriteAvailable, pWriter`mWriteError, pWriter`mModified,
             pWriter.mpBlockData
    ensures pWriter.Valid() && pWriter.Output() == EmitFields(w, FieldsOf(EventFields, cells[..i + 1]))
  {
    var value := v.mDefaultValue;
    if i < |v.mVector| {
      value := v.GetValue(i);
    }
    EmitAt(w, EventFields, cells, i);
    WriteEvent(pWriter, value);
  }

  /** Observers hear of every element that changes. */
  method LoadEventLog(v: VectorDataPoint<EventLogRecord>, pReader: FlashBlock)
    requires v.Valid() && pReader.Valid()
    modifies v`mVector, v`notified, pReader`mReadPos, pReader`mReadAvailable, pReader`mReadError
    ensures v.Valid() && pReader.Valid()
    ensures (v.Logical(), pReader.Input())
      == LoadEvents(old(pReader.Input()), old(v.Logical()), v.mMaxSize, v.mDefaultValue)
    ensures v.notified == old(v.notified)
      + Notices(old(v.Logical()), EventValues(old(pReader.Input())).0, v.mMaxSize)
    ensures pReader.mReadPos + pReader.mReadAvailable == old(pReader.mReadPos + pReader.mReadAvailable)
  {
    var version := pReader.ReadU8(0);
    var savedMaxSize := pReader.ReadI32(-1);
    var savedSize := pReader.ReadI32(-1);
    if version != VERSION {
    } else {
      LoadRecords(v, pReader, savedMaxSize, savedSize);
    }
  }

  method ReadEvent(pReader: FlashBlock) returns (e: EventLogRecord)
    requires pReader.Valid()
    modifies pReader`mReadPos, pReader`mReadAvailable, pReader`mReadError
    ensures pReader.Valid() && (e, pReader.Input()) == TakeEvent(old(pReader.Input()))
    ensures pReader.mReadPos + pReader.mReadAvailable == old(pReader.mReadPos + pReader.mReadAvailable)
  {
    var id := pReader.ReadU16(0);
    var code := pReader.ReadU8(0);
    var source := pReader.ReadU8(0);
    var kind := pReader.ReadU8(0);
    var time := pReader.ReadU32(0);
    e := EventLogRecord(id, code, source, kind, time);
  }

  /** One turn of the loading loop. */
  method LoadRecord(v: VectorDataPoint<EventLogRecord>, pReader: FlashBlock, i: nat, savedSize: I32,
                    ghost l: seq<EventLogRecord>, ghost r: Reader, ghost before: nat)
    requires v.Valid() && pReader.Valid()
    requires LoadState(EventTake(), l, r, i, savedSize, v.Logical(), pReader.Input(), v.notified - before,
                       v.mMaxSize, v.mDefaultValue)
    modifies v`mVector, v`notified, pReader`mReadPos, pReader`mReadAvailable, pReader`mReadError
    ensures v.Valid() && pReader.Valid()
    ensures LoadState(EventTake(), l, r, i + 1, savedSize, v.Logical(), pReader.Input(), v.notified - before,
                      v.mMaxSize, v.mDefaultValue)
    ensures pReader.mReadPos + pReader.mReadAvailable == old(pReader.mReadPos + pReader.mReadAvailable)
  {
    LoadedStep(EventTake(), l, r, i, savedSize, v.Logical(), pReader.Input(), v.notified - before,
               v.mMaxSize, v.mDefaultValue);
    var value := ReadEvent(pReader);
    if i < savedSize {
      var notify := v.SetValue(i, value);
    }
  }

  /** The loop of LoadFromFlash. */
  method LoadRecords(v: VectorDataPoint<EventLogRecord>, pReader: FlashBlock, savedMaxSize: I32, savedSize: I32)
    requires v.Valid() && pReader.Valid()
    modifies v`mVector, v`notified, pReader`mReadPos, pReader`mReadAvailable, pReader`mReadError
    ensures v.Valid() && pReader.Valid()
    ensures LoadState(EventTake(), old(v.Logical()), old(pReader.Input()), NonNegative(savedMaxSize), savedSize,
                      v.Logical(), pReader.Input(), v.notified - old(v.notified), v.mMaxSize, v.mDefaultValue)
    ensures pReader.mReadPos + pReader.mReadAvailable == old(pReader.mReadPos + pReader.mReadAvailable)
  {
    ghost var l, r, n, before := v.Logical(), pReader.Input(), NonNegative(savedMaxSize), v.notified;
    var i := 0;
    while i < savedMaxSize
      invariant 0 <= i <= n && v.Valid() && pReader.Valid()
      invariant pReader.mReadPos + pReader.mReadAvailable == old(pReader.mReadPos + pReader.mReadAvailable)
      invariant LoadState(EventTake(), l, r, i, savedSize, v.Logical(), pReader.Input(), v.notified - before,
                          v.mMaxSize, v.mDefaultValue)
    {
      LoadRecord(v, pReader, i, savedSize, l, r, before);
      i := i + 1;
    }
    assert i == n;
  }
}
