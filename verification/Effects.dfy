/** What records of one field below submessages do to the decoder's state, fixed-count arrays
    included: they replace the field's cells and touch nothing else. */
module Effects {
  import opened Bits
  import opened Wire
  import opened Varint32
  import opened Descriptor
  import opened StructMemory
  import opened Encoding
  import opened Decoding
  import opened Locality
  import opened Records

  /** Entry i's cells as the decoder loads them for its next record. */
  function Loaded(x: Struct, st: State, i: nat): (slot: Slot)
    requires StateFor(x, st) && i < |x.fields|
    ensures |slot.data| == DataLen(x.fields[i])
  {
    PlacedEntry(x, i, |st.mem|);
    CursorSlot(st.mem, x.fields[i], Addr(x, i), Enter(x.fields, st, i).fixedSize)
  }

  predicate CanEnter(x: Struct, st: State, i: nat)
    requires StateFor(x, st) && i < |x.fields|
  {
    FixedCount(x.fields[i]) && st.fixedField != Some(i) ==> FixedComplete(x.fields, st)
  }

  /** The local variables after records of entry i that left `count` entries. */
  predicate LocalsAfter(fields: seq<Field>, st: State, i: nat, st': State, count: nat)
    requires i < |fields|
  {
    && st'.seen == st.seen + Mark(fields, i)
    && (if FixedCount(fields[i]) then st'.fixedField == Some(i) && st'.fixedSize == count
        else st'.fixedField == st.fixedField && st'.fixedSize == st.fixedSize)
  }

  /** One or more records of entry i took st to st', leaving t in its cells. */
  ghost predicate Effect(x: Struct, st: State, i: nat, st': State, t: Slot)
    requires StateFor(x, st) && StateFor(x, st') && i < |x.fields|
  {
    && |t.data| == DataLen(x.fields[i])
    && Holds(st.mem, x.fields[i], Addr(x, i), t, st'.mem, t.size)
    && LocalsAfter(x.fields, st, i, st', t.size)
  }

  /** A key with the field's tag and a payload that a reader of the wire type uses up. */
  lemma FieldRecord(fields: seq<Field>, size: nat, i: nat, wireType: nat, payload: seq<byte>)
    requires WellFormed(fields, size) && i < |fields| && WireTypeAgrees(fields[i], wireType)
    requires SkipField(wireType, payload) == Got((), [])
    ensures AgreeingRecord(fields, KeyBytes(fields[i].tag, wireType) + payload)
    ensures FieldOfRecord(fields, KeyBytes(fields[i].tag, wireType) + payload) == i
    ensures KeyOf(KeyBytes(fields[i].tag, wireType) + payload) == fields[i].tag * 8 + wireType
    ensures PayloadOf(KeyBytes(fields[i].tag, wireType) + payload) == payload
  {
    hide SkipField, DecodeVarint32, KeyBytes;
    FieldOf(fields, size, i);
    FieldIndex(fields, size, i);
    hide WellFormed, IndexOf;
    KeyRoundTrip(fields[i].tag, wireType, payload);
  }

  lemma SmallWireType(f: Field, wireType: nat)
    requires WireTypeAgrees(f, wireType)
    ensures wireType < 8 && (f.tag * 8 + wireType) % 8 == wireType
  {
  }

  /** The record loop on a record of entry i that the field's decoder accepts. */
  lemma LoopOfField(x: Struct, st: State, i: nat, wireType: nat, payload: seq<byte>, tail: seq<byte>)
    requires StateFor(x, st) && i < |x.fields| && WireTypeAgrees(x.fields[i], wireType)
    requires SkipField(wireType, payload) == Got((), [])
    ensures var r := DecodeField(x, st, i, wireType, payload);
            var s := KeyBytes(x.fields[i].tag, wireType) + payload + tail;
            if r.Ok? then r.rest == [] && DecodeLoop(x, st, s) == DecodeLoop(x, r.value, tail)
            else DecodeLoop(x, st, s) == Broken(r.value)
  {
    hide Placed, SkipField, KeyBytes, DecodeLoop, AgreeingRecord, FieldOfRecord, KeyOf, PayloadOf, DecodeField;
    TableOf(x, |st.mem|);
    FieldRecord(x.fields, x.size, i, wireType, payload);
    SmallWireType(x.fields[i], wireType);
    LoopOneRecord(x, st, KeyBytes(x.fields[i].tag, wireType) + payload, tail);
  }

  lemma TableOf(x: Struct, len: nat)
    requires Placed(x, len)
    ensures WellFormed(x.fields, x.size) && x.base + x.size <= len
  {
  }

  /** A field below submessages: the effect is what its slot decoder says. */
  lemma FieldEffect(x: Struct, st: State, i: nat, wireType: nat, payload: seq<byte>)
    requires StateFor(x, st) && i < |x.fields| && CanEnter(x, st, i) && !x.fields[i].ltype.Submessage?
    requires SlotFor(x.fields[i], Loaded(x, st, i))
    requires DecodeSlot(x.fields[i], Loaded(x, st, i), wireType, payload).Ok?
    requires ArrivedFits(x.fields[i], DecodeSlot(x.fields[i], Loaded(x, st, i), wireType, payload).value.size)
    ensures DecodeField(x, st, i, wireType, payload).Ok?
    ensures DecodeField(x, st, i, wireType, payload).rest
        == DecodeSlot(x.fields[i], Loaded(x, st, i), wireType, payload).rest
    ensures Effect(x, st, i, DecodeField(x, st, i, wireType, payload).value,
                   DecodeSlot(x.fields[i], Loaded(x, st, i), wireType, payload).value)
  {
    hide Placed, DecodeSlot, PutSlotAt, CursorSlot, Mark, FixedComplete, FieldReaches, WellFormedField;
    PlacedEntry(x, i, |st.mem|);
  }

  /** A count or flag that the field's size cell can hold. */
  predicate ArrivedFits(f: Field, n: nat) {
    FixedCount(f) || SizeFits(f, n)
  }

  lemma RecordStep(x: Struct, st: State, i: nat, wireType: nat, payload: seq<byte>, tail: seq<byte>)
    returns (st': State)
    requires StateFor(x, st) && i < |x.fields| && CanEnter(x, st, i) && !x.fields[i].ltype.Submessage?
    requires SlotFor(x.fields[i], Loaded(x, st, i)) && WireTypeAgrees(x.fields[i], wireType)
    requires DecodeSlot(x.fields[i], Loaded(x, st, i), wireType, payload).Ok?
    requires DecodeSlot(x.fields[i], Loaded(x, st, i), wireType, payload).rest == []
    requires ArrivedFits(x.fields[i], DecodeSlot(x.fields[i], Loaded(x, st, i), wireType, payload).value.size)
    ensures StateFor(x, st') && |st'.mem| == |st.mem|
    ensures Effect(x, st, i, st', DecodeSlot(x.fields[i], Loaded(x, st, i), wireType, payload).value)
    ensures DecodeLoop(x, st, KeyBytes(x.fields[i].tag, wireType) + payload + tail) == DecodeLoop(x, st', tail)
  {
    hide DecodeSlot, Placed, SkipField, KeyBytes, DecodeLoop, Effect, Loaded, CanEnter, DecodeField,
      WellFormedField, ArrivedFits;
    DecodeSlotConsumes(x.fields[i], Loaded(x, st, i), wireType, payload);
    LoopOfField(x, st, i, wireType, payload, tail);
    FieldEffect(x, st, i, wireType, payload);
    st' := DecodeField(x, st, i, wireType, payload).value;
  }

  lemma LoadedAfter(x: Struct, st: State, i: nat, st': State, t: Slot)
    requires StateFor(x, st) && StateFor(x, st') && i < |x.fields| && Effect(x, st, i, st', t)
    ensures Loaded(x, st', i) == t
  {
    hide Placed, PlacedField, Mark, PutSlotAt, Read, FromLittleEndian, DataLen;
    var f, p := x.fields[i], Addr(x, i);
    HoldsRead(st.mem, f, p, t, st'.mem, t.size, 0, DataLen(f));
    assert Read(t.data, 0, |t.data|) == t.data by { ReadAll(t.data); }
    if SizeLen(f) > 0 {
      HoldsSizeRead(st.mem, f, p, t, st'.mem, t.size);
    }
  }

  lemma EffectTrans(x: Struct, st: State, i: nat, st1: State, t1: Slot, st2: State, t2: Slot)
    requires StateFor(x, st) && StateFor(x, st1) && StateFor(x, st2) && i < |x.fields|
    requires Effect(x, st, i, st1, t1) && Effect(x, st1, i, st2, t2)
    ensures Effect(x, st, i, st2, t2)
  {
    hide Placed, Mark, PutSlotAt;
    PutSlotAtTwice(st.mem, x.fields[i], Addr(x, i), t1, t2);
  }

  lemma ArrayBounds(f: Field, k: nat)
    requires WellFormedField(f) && k <= f.arraySize && f.htype.Repeated?
    ensures ArrivedFits(f, k)
    ensures f.arraySize * f.dataSize >= 0 && k < TWO32
  {
    SizeFitsFacts(f, k);
  }

  lemma EffectEnter(x: Struct, st: State, i: nat, st': State, t: Slot)
    requires StateFor(x, st) && StateFor(x, st') && i < |x.fields| && Effect(x, st, i, st', t)
    ensures CanEnter(x, st', i)
  {
  }
}
