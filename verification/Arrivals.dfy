/** What records of one field do to the decoder's state when they are accepted, submessages included:
    the field's cells hold the decoded value, and other memory changes only where a short fixed-count
    array in a submessage spills over. */
module Arrivals {
  import opened Bits
  import opened Wire
  import opened Descriptor
  import opened StructMemory
  import opened Encoding
  import opened Decoding
  import opened Locality
  import opened Effects
  import opened Messages

  /** Records of entry i took st to st', leaving t in its cells. */
  ghost predicate Arrival(x: Struct, st: State, i: nat, st': State, t: Slot)
    requires StateFor(x, st) && StateFor(x, st') && i < |x.fields| && |st'.mem| == |st.mem|
  {
    PlacedEntry(x, i, |st.mem|);
    && CursorSlot(st'.mem, x.fields[i], Addr(x, i), t.size) == t
    && FieldSpill(x.fields[i], Addr(x, i), st.mem, st'.mem, LongBelow(x.fields[i]))
    && LocalsAfter(x.fields, st, i, st', t.size)
  }

  lemma EffectArrival(x: Struct, st: State, i: nat, st': State, t: Slot)
    requires StateFor(x, st) && StateFor(x, st') && i < |x.fields| && |st'.mem| == |st.mem|
    requires Effect(x, st, i, st', t)
    ensures Arrival(x, st, i, st', t)
  {
    var f, p := x.fields[i], Addr(x, i);
    hide Placed, PutSlotAt, Mark, Addr, PlacedField, DataLen, Read, FromLittleEndian, LongBelow;
    PlacedEntry(x, i, |st.mem|);
    HoldsCursor(st.mem, f, p, t, st'.mem);
    forall k | 0 <= k < |st.mem| && !InCells(f, p, k)
      ensures st'.mem[k] == st.mem[k]
    {
      PutSlotAtByte(st.mem, f, p, t, k);
    }
  }

  lemma HoldsCursor(m0: Memory, f: Field, p: nat, t: Slot, m: Memory)
    requires |m| == |m0| && Holds(m0, f, p, t, m, t.size)
    ensures CursorSlot(m, f, p, t.size) == t
  {
    hide PutSlotAt, Read, FromLittleEndian, DataLen;
    HoldsRead(m0, f, p, t, m, t.size, 0, DataLen(f));
    ReadAll(t.data);
    if SizeLen(f) > 0 {
      HoldsSizeRead(m0, f, p, t, m, t.size);
    }
  }

  lemma ArrivalTrans(x: Struct, st: State, i: nat, st1: State, t1: Slot, st2: State, t2: Slot)
    requires StateFor(x, st) && StateFor(x, st1) && StateFor(x, st2) && i < |x.fields|
    requires |st1.mem| == |st.mem| == |st2.mem|
    requires Arrival(x, st, i, st1, t1) && Arrival(x, st1, i, st2, t2)
    ensures Arrival(x, st, i, st2, t2)
  {
    hide Placed, Mark, Addr, PlacedField, DataLen, CursorSlot, InCells, LongBelow;
    PlacedEntry(x, i, |st.mem|);
  }

  lemma ArrivalLoaded(x: Struct, st: State, i: nat, st': State, t: Slot)
    requires StateFor(x, st) && StateFor(x, st') && i < |x.fields| && |st'.mem| == |st.mem|
    requires Arrival(x, st, i, st', t)
    ensures Loaded(x, st', i) == t && CanEnter(x, st', i)
  {
    hide Placed, Mark, Addr, PlacedField, DataLen, Read, FromLittleEndian, FieldSpill;
  }

  /** The arrived value, seen in the struct. */
  lemma ArrivalSlot(x: Struct, st: State, i: nat, st': State, t: Slot)
    requires StateFor(x, st) && StateFor(x, st') && i < |x.fields| && |st'.mem| == |st.mem|
    requires Arrival(x, st, i, st', t)
    ensures SlotFor(x.fields[i], t) && GetSlot(x.fields, i, View(x, st'.mem)).data == t.data
    ensures !FixedCount(x.fields[i]) ==> GetSlot(x.fields, i, View(x, st'.mem)) == t
  {
    hide Placed, Mark, Addr, PlacedField, DataLen, Read, FromLittleEndian, FieldSpill, GetSlot, View;
    ViewSlot(x, i, st'.mem);
  }

  // ---- One record of a submessage field ----

  /** Where decode_static_field lets the decoder of a single submessage start. */
  ghost function Prepared(f: Field, m: Memory, p: nat): (m': Memory)
    requires PlacedField(f, p, |m|) && f.ltype.Submessage? && !f.htype.Repeated?
    ensures |m'| == |m|
  {
    match f.htype
    case Required => m
    case Optional => if f.sizeOffset != 0 then PutSizeAt(m, f, p, 1) else m
    case Oneof => PutSizeAt(ResetMember(f, m, p), f, p, f.tag)
  }

  /** The flag or which_ value of a field that was received. */
  function SentSize(f: Field): nat {
    if SizeLen(f) == 0 then 0 else if f.htype.Oneof? then f.tag else 1
  }

  lemma SentFits(f: Field)
    requires WellFormedField(f) && !f.htype.Repeated?
    ensures SizeLen(f) > 0 ==> FromLittleEndian(LittleEndian(SentSize(f), SizeLen(f))) == SentSize(f)
  {
    Pow2Facts();
    if SizeLen(f) > 0 {
      FromLittleEndianInverse(SentSize(f), SizeLen(f));
    }
  }

  lemma SubView(f: Field, m: Memory, p: nat)
    requires PlacedField(f, p, |m|) && f.ltype.Submessage? && !f.htype.Repeated?
    ensures Placed(SubAt(f, p, 0), |m|) && CellsFor(f, p, |m|)
    ensures View(SubAt(f, p, 0), m) == SlotAt(m, f, p).data
  {
    PlacedSub(f, p, |m|, 0);
    hide WellFormed, Reaches, FromLittleEndian;
  }

  lemma PreparedReady(f: Field, m: Memory, p: nat)
    requires PlacedField(f, p, |m|) && f.ltype.Submessage? && !f.htype.Repeated? && ZeroDefault(f)
    requires f.htype.Oneof? ==> SlotAt(m, f, p).size != f.tag
    requires !f.htype.Oneof? ==> Fresh(f.ptr.fields, SlotAt(m, f, p).data)
    ensures Placed(SubAt(f, p, 0), |m|) && Fresh(f.ptr.fields, View(SubAt(f, p, 0), Prepared(f, m, p)))
    ensures FieldSpill(f, p, m, Prepared(f, m, p), LongBelow(f))
    ensures SlotAt(Prepared(f, m, p), f, p).size == SentSize(f)
  {
    hide PlacedField, SlotAt, View, Fresh, FieldSpill, Placed, PutSizeAt, ResetMember, LittleEndian, FromLittleEndian,
      WellFormedField, DataLen, CellsFor, SentSize;
    SubView(f, m, p);
    SubView(f, Prepared(f, m, p), p);
    PlacedCells(f, p, |m|);
    SentFits(f);
    NoSize(f, m, p);
    SpillNothing(f, p, m, LongBelow(f));
    match f.htype {
      case Required =>
      case Optional =>
        SlotAtPutSize(m, f, p, 1);
        SpillNothing(f, p, PutSizeAt(m, f, p, 1), LongBelow(f));
        PutSizeSpill(f, p, m, 1, PutSizeAt(m, f, p, 1), LongBelow(f));
      case Oneof =>
        var m1 := ResetMember(f, m, p);
        ResetReady(f, m, p);
        SubView(f, m1, p);
        SlotAtPutSize(m1, f, p, f.tag);
        SpillOfPut(f, p, m, m1, f.tag, LongBelow(f));
    }
  }

  lemma NoSize(f: Field, m: Memory, p: nat)
    requires CellsFor(f, p, |m|) && !f.htype.Repeated?
    ensures SizeLen(f) == 0 ==> SlotAt(m, f, p).size == 0 == SentSize(f)
    ensures f.htype.Required? || Implicit(f) ==> SizeLen(f) == 0
    ensures HasFlag(f) ==> SizeLen(f) == 1 && SentSize(f) == 1
    ensures f.htype.Oneof? ==> SizeLen(f) == SIZE_BYTES && SentSize(f) == f.tag
  {
  }

  lemma SpillNothing(f: Field, p: nat, m: Memory, long: bool)
    ensures FieldSpill(f, p, m, m, long)
  {
  }

  lemma SpillOfPut(f: Field, p: nat, m: Memory, m1: Memory, n: nat, long: bool)
    requires CellsAt(f, p, |m|) && FieldSpill(f, p, m, m1, long)
    ensures FieldSpill(f, p, m, PutSizeAt(m1, f, p, n), long)
  {
    hide PutSizeAt, DataLen;
    forall k | 0 <= k < |m| && !InCells(f, p, k)
      ensures PutSizeAt(m1, f, p, n)[k] == m1[k]
    {
      PutSizeAtByte(m1, f, p, n, k);
    }
  }

  lemma ResetReady(f: Field, m: Memory, p: nat)
    requires PlacedField(f, p, |m|) && f.ltype.Submessage? && f.htype.Oneof? && ZeroDefault(f)
    requires CellsFor(f, p, |m|) && SlotAt(m, f, p).size != f.tag
    ensures Placed(SubAt(f, p, 0), |m|) && Fresh(f.ptr.fields, View(SubAt(f, p, 0), ResetMember(f, m, p)))
    ensures FieldSpill(f, p, m, ResetMember(f, m, p), LongBelow(f))
  {
    hide WellFormed, Reaches, SetDefaults, View, Fresh, ZeroDefaults, SlotAt, LongArrays, Spill;
    PlacedSub(f, p, |m|, 0);
    var x, m1 := SubAt(f, p, 0), Write(m, p, Zeros(f.dataSize));
    DefaultsFresh(x, m1);
    DefaultsSpill(x, m1);
    SpillOfEntry(f, p, m1, SetDefaults(x, m1), 0, LongBelow(f));
    SingleLen(f);
  }

  lemma SubFieldSteps(f: Field, m: Memory, p: nat, count: nat, s: seq<byte>)
    requires PlacedField(f, p, |m|) && f.ltype.Submessage? && !f.htype.Repeated?
    ensures DecodeSubField(f, m, p, count, s) == WithCount(DecodeSubmessage(f, Prepared(f, m, p), p, 0, s), count)
  {
    hide PlacedField, DecodeSubmessage, PutSizeAt, ResetMember, CursorSlot;
  }

  /** What spills from an entry's struct leaves the field's own size cell alone. */
  lemma SizeKept(f: Field, p: nat, m: Memory, m': Memory, e: nat)
    requires CellsFor(f, p, |m|) && e < Entries(f) && TameField(f)
    requires Spill(m, m', EntryAddr(f, p, e), EntryAddr(f, p, e) + f.dataSize, LongBelow(f))
    ensures SlotAt(m', f, p).size == SlotAt(m, f, p).size
  {
    EntryInData(f, p, e);
    hide DataLen, SizeLen, FromLittleEndian, LongBelow, SizesFirstBelow;
    if SizeLen(f) > 0 {
      assert Read(m', p + f.sizeOffset, SizeLen(f)) == Read(m, p + f.sizeOffset, SizeLen(f));
    }
  }

  /** The record loop on a record of a submessage field whose decoder accepted it. */
  lemma SubArrival(x: Struct, st: State, i: nat, payload: seq<byte>, m: Memory, t: Slot, tail: seq<byte>)
    returns (st': State)
    requires StateFor(x, st) && i < |x.fields| && CanEnter(x, st, i) && x.fields[i].ltype.Submessage?
    requires PlacedField(x.fields[i], Addr(x, i), |st.mem|) && |m| == |st.mem|
    requires DecodeSubField(x.fields[i], st.mem, Addr(x, i), Enter(x.fields, st, i).fixedSize, payload)
          == Ok(Cells(m, if FixedCount(x.fields[i]) then t.size else Enter(x.fields, st, i).fixedSize), [])
    requires CursorSlot(m, x.fields[i], Addr(x, i), t.size) == t
    requires FieldSpill(x.fields[i], Addr(x, i), st.mem, m, LongBelow(x.fields[i]))
    ensures StateFor(x, st') && |st'.mem| == |st.mem| && Arrival(x, st, i, st', t)
    ensures DecodeLoop(x, st, FieldKey(x.fields[i]) + payload + tail) == DecodeLoop(x, st', tail)
  {
    hide Placed, PlacedField, DecodeSubField, CursorSlot, FieldSpill, FixedComplete, DecodeLoop, KeyBytes, SkipField,
      LongBelow, Mark;
    var f, p := x.fields[i], Addr(x, i);
    var count := Enter(x.fields, st, i).fixedSize;
    PlacedEntry(x, i, |st.mem|);
    DecodeCellsConsumes(f, st.mem, p, count, STRING, payload);
    LoopOfField(x, st, i, STRING, payload, tail);
    st' := DecodeField(x, st, i, STRING, payload).value;
  }

  // ---- The other entries ----

  /** Entries that start no later than entry i keep their cells. */
  lemma SlotKept(x: Struct, m: Memory, m': Memory, i: nat, j: nat, long: bool)
    requires Placed(x, |m|) && |m'| == |m| && i < |x.fields| && j < |x.fields|
    requires Leader(x.fields, i) != Leader(x.fields, j) && FieldSpill(x.fields[i], Addr(x, i), m, m', long)
    requires long || (SizeFirst(x.fields[j]) && PData(x.fields, j) <= PData(x.fields, i))
    ensures GetSlot(x.fields, j, View(x, m')) == GetSlot(x.fields, j, View(x, m))
  {
    CellsSpilled(x, m, m', i, j, long);
    ViewSlot(x, j, m);
    ViewSlot(x, j, m');
    forall k | 0 <= k < |m| && InCells(x.fields[j], Addr(x, j), k)
      ensures m'[k] == m[k]
    {
      if !long && DataLen(x.fields[i]) > 0 {
        CellBelow(x, i, j, k);
      }
    }
    hide Placed, InCells, PlacedField, FieldSpill, Addr, GetSlot, SlotAt, CellsFor;
    SlotOfBytes(x.fields[j], m, m', Addr(x, j));
  }

  lemma CellBelow(x: Struct, i: nat, j: nat, k: nat)
    requires WellFormed(x.fields, x.size) && i < |x.fields| && j < |x.fields|
    requires Leader(x.fields, i) != Leader(x.fields, j) && InCells(x.fields[j], Addr(x, j), k)
    requires SizeFirst(x.fields[j]) && PData(x.fields, j) <= PData(x.fields, i) && DataLen(x.fields[i]) > 0
    ensures k < Addr(x, i) + DataLen(x.fields[i])
  {
    assert CellsApart(x.fields, i, j);
    hide WellFormed, PData, PSize, DataLen, SizeLen;
  }
}
