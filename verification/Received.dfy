/** What pb_decode accepts is a valid message, which encodes and decodes to itself, but for one thing: a
    fixed-count array that the input does not bring holds what memory held. */
module Received {
  import opened Bits
  import opened Wire
  import opened Descriptor
  import opened StructMemory
  import opened Encoding
  import opened Decoding
  import opened Locality
  import opened Messages
  import opened Placement
  import opened EncodeErrors
  import opened RequiredFields
  import opened RoundTrip
  import opened OldMemory

  // ---- When the message is valid ----

  /** Default values fit their fields, in submessages too. */
  ghost predicate DefaultsValid(fields: seq<Field>)
    decreases fields
  {
    forall i :: 0 <= i < |fields| ==> DefaultValid(fields[i])
  }

  ghost predicate DefaultValid(f: Field)
    decreases f
  {
    if f.ltype.Submessage? then f.ptr.Sub? ==> DefaultsValid(f.ptr.fields)
    else WellFormedField(f) ==> ValidItem(f, DefaultBytes(f))
  }

  ghost predicate HeldItem(f: Field, d: seq<byte>)
    requires ItemFor(f, d)
    decreases f, 0
  {
    f.ltype.Submessage? ==> Held(f.ptr.fields, d)
  }

  ghost predicate HeldSlot(f: Field, s: Slot)
    requires SlotFor(f, s)
    decreases f, 1
  {
    if FixedCount(f) then forall k :: 0 <= k < f.arraySize ==> ValidItem(f, ItemAt(f, s.data, k))
    else if f.htype.Repeated? then
      forall k :: 0 <= k < s.size && k < f.arraySize ==> HeldItem(f, ItemAt(f, s.data, k))
    else Present(f, s) ==> HeldItem(f, s.data)
  }

  /** The fixed-count arrays in the message, and in the submessages that are sent with it, hold valid
      values. */
  ghost predicate Held(fields: seq<Field>, v: Memory)
    requires WellFormed(fields, |v|)
    decreases fields
  {
    forall i :: 0 <= i < |fields| ==> HeldSlot(fields[i], GetSlot(fields, i, v))
  }

  lemma ItemHeld(f: Field, a: seq<byte>, b: seq<byte>)
    requires ItemFor(f, a) && ItemFor(f, b) && AgreeItem(f, a, b) && DefaultValid(f)
    ensures ValidItem(f, a) <==> HeldItem(f, a)
    decreases f, 0
  {
    if f.ltype.Submessage? {
      MessageHeld(f.ptr.fields, a, b);
    }
    hide ValidMessage, AgreeMessage, Held, WellFormed, SameItem;
  }

  lemma SlotHeld(f: Field, s: Slot, t: Slot)
    requires SlotFor(f, s) && SlotFor(f, t) && AgreeSlot(f, s, t) && DefaultValid(f)
    ensures ValidSlot(f, s) <==> HeldSlot(f, s)
    decreases f, 1
  {
    hide ValidItem, HeldItem, AgreeItem, ItemAt, DefaultValid, WellFormedField, IsDefault;
    if Counted(f) {
      forall k | 0 <= k < s.size && k < f.arraySize
        ensures ValidItem(f, ItemAt(f, s.data, k)) <==> HeldItem(f, ItemAt(f, s.data, k))
      {
        ItemHeld(f, ItemAt(f, s.data, k), ItemAt(f, t.data, k));
      }
    } else if !f.htype.Repeated? && Present(f, s) {
      ItemHeld(f, s.data, t.data);
    }
  }

  lemma MessageHeld(fields: seq<Field>, v: Memory, v': Memory)
    requires WellFormed(fields, |v|) && WellFormed(fields, |v'|)
    requires AgreeMessage(fields, v, v') && DefaultsValid(fields)
    ensures ValidMessage(fields, v) <==> Held(fields, v)
    decreases fields, 2
  {
    hide WellFormed, ValidSlot, HeldSlot, AgreeSlot, GetSlot, ValidWhich, DefaultValid, WellFormedField, SlotFor;
    forall i | 0 <= i < |fields|
      ensures SlotFor(fields[i], GetSlot(fields, i, v))
      ensures ValidSlot(fields[i], GetSlot(fields, i, v)) <==> HeldSlot(fields[i], GetSlot(fields, i, v))
    {
      WellFormedSlot(fields, i, v);
      WellFormedSlot(fields, i, v');
      SlotHeld(fields[i], GetSlot(fields, i, v), GetSlot(fields, i, v'));
    }
  }

  /** Whatever the input, the message that a successful pb_decode leaves is valid if and only if its
      fixed-count arrays hold valid values. */
  lemma DecodedValidExactly(x: Struct, m: Memory, s: seq<byte>)
    requires Placed(x, |m|) && LongArrays(x.fields) && DefaultsValid(x.fields) && Decode(x, m, s).Ok?
    ensures ValidMessage(x.fields, View(x, Decode(x, m, s).value)) <==> Held(x.fields, View(x, Decode(x, m, s).value))
  {
    hide LongArrays, DefaultsValid, Decode, View, AgreeMessage, ValidMessage, Held;
    OldMemoryIrrelevant(x, m, m, s);
    var v := View(x, Decode(x, m, s).value);
    MessageHeld(x.fields, v, v);
  }

  /** Then it can be encoded, and decoding that gives the same message again, over any memory. */
  lemma DecodeEncodeDecode(x: Struct, m: Memory, s: seq<byte>, m': Memory)
    requires Placed(x, |m|) && LongArrays(x.fields) && DefaultsValid(x.fields) && ZeroDefaults(x.fields)
    requires Decode(x, m, s).Ok? && |m'| == |m|
    ensures var v := View(x, Decode(x, m, s).value);
            Held(x.fields, v) ==>
            && EncodeMessage(x.fields, v).Some?
            && var b := EncodeMessage(x.fields, v).value;
               |b| < TWO32 ==> && Decode(x, m', b).Ok? && Decode(x, m', b).rest == []
                               && SameMessage(x.fields, v, View(x, Decode(x, m', b).value))
  {
    hide LongArrays, DefaultsValid, Decode, View, ValidMessage, Held, EncodeMessage, SameMessage, ZeroDefaults,
      Encodable, WellFormed, Reaches;
    var v := View(x, Decode(x, m, s).value);
    DecodedValidExactly(x, m, s);
    if Held(x.fields, v) {
      ValidEncodable(x.fields, v);
      EncodesExactly(x.fields, v);
      if |EncodeMessage(x.fields, v).value| < TWO32 {
        DecodeUndoesEncode(x, v, m');
      }
    }
  }

  // ---- When a fixed-count array of strings or bytes is valid ----

  /** A fixed-count array of values not all of whose bytes are valid. */
  predicate Doubtful(f: Field) {
    FixedCount(f) && (f.ltype.String? || f.ltype.Bytes?)
  }

  /** The first n values of entry i are valid. */
  ghost predicate Filled(x: Struct, m: Memory, i: nat, n: nat)
    requires Placed(x, |m|) && i < |x.fields| && FixedCount(x.fields[i])
  {
    forall k :: 0 <= k < n && k < x.fields[i].arraySize ==> ValueFilled(x, m, i, k)
  }

  ghost predicate ValueFilled(x: Struct, m: Memory, i: nat, k: nat)
    requires Placed(x, |m|) && i < |x.fields| && FixedCount(x.fields[i]) && k < x.fields[i].arraySize
  {
    ViewSlot(x, i, m);
    ValidItem(x.fields[i], ItemAt(x.fields[i], SlotAt(m, x.fields[i], Addr(x, i)).data, k))
  }

  /** What the record loop keeps for entry i, `got` being whether a record of it occurred. */
  ghost predicate Progress(x: Struct, st: State, i: nat, got: bool)
    requires i < |x.fields| && FixedCount(x.fields[i]) && StateFor(x, st)
  {
    if st.fixedField == Some(i) then got && Filled(x, st.mem, i, st.fixedSize)
    else got ==> Filled(x, st.mem, i, x.fields[i].arraySize)
  }

  /** One record of the array: the next value is stored, and it is valid. */
  lemma NextValue(f: Field, m: Memory, p: nat, count: nat, wireType: nat, s: seq<byte>)
    requires PlacedField(f, p, |m|) && Doubtful(f) && DefaultValid(f) && DecodeCells(f, m, p, count, wireType, s).Ok?
    ensures CellsAt(f, p, |m|) && WellFormedField(f) && count < f.arraySize
    ensures var c := DecodeCells(f, m, p, count, wireType, s).value;
            && c.count == count + 1
            && exists d :: |d| == f.dataSize && ValidItem(f, d)
                        && SlotAt(c.mem, f, p).data == PutItem(f, SlotAt(m, f, p).data, count, d)
  {
    PlacedCells(f, p, |m|);
    hide PlacedField, DecodeValue, PutItem, ItemAt, SlotAt, PutSlotAt, WellFormedField, CellsFor, CellsAt, DefaultBytes;
    var slot := CursorSlot(m, f, p, count);
    assert slot.data == SlotAt(m, f, p).data by { DataRead(m, f, p); }
    var d := DecodeValue(f, Target(f, slot), s).value;
    ValueAgrees(f, Target(f, slot), Target(f, slot), s);
    SlotAtPut(m, f, p, Settle(f, slot, d));
    assert ValidItem(f, d);
  }

  lemma DataRead(m: Memory, f: Field, p: nat)
    requires CellsAt(f, p, |m|)
    ensures SlotAt(m, f, p).data == Read(m, p, DataLen(f))
  {
  }

  lemma FilledNext(x: Struct, m: Memory, m1: Memory, i: nat, n: nat, d: seq<byte>)
    requires Placed(x, |m|) && |m1| == |m| && i < |x.fields| && FixedCount(x.fields[i]) && Filled(x, m, i, n)
    requires n < x.fields[i].arraySize && ItemFor(x.fields[i], d) && ValidItem(x.fields[i], d)
    requires CellsAt(x.fields[i], Addr(x, i), |m|)
    requires SlotAt(m1, x.fields[i], Addr(x, i)).data
          == PutItem(x.fields[i], SlotAt(m, x.fields[i], Addr(x, i)).data, n, d)
    ensures Filled(x, m1, i, n + 1)
  {
    hide Placed, ValidItem, SlotAt, PutItem, ItemAt, Addr, CellsAt, WellFormedField;
    var f, a := x.fields[i], SlotAt(m, x.fields[i], Addr(x, i)).data;
    forall k | 0 <= k < n + 1 && k < f.arraySize
      ensures ValueFilled(x, m1, i, k)
    {
      if k == n {
        ItemPutSame(f, a, n, d);
      } else {
        assert ValueFilled(x, m, i, k);
        ItemPutOther(f, a, n, d, k);
      }
    }
  }

  lemma FilledKept(x: Struct, m: Memory, m1: Memory, i: nat, n: nat)
    requires Placed(x, |m|) && |m1| == |m| && i < |x.fields| && FixedCount(x.fields[i]) && Filled(x, m, i, n)
    requires CellsAt(x.fields[i], Addr(x, i), |m|)
    requires SlotAt(m1, x.fields[i], Addr(x, i)) == SlotAt(m, x.fields[i], Addr(x, i))
    ensures Filled(x, m1, i, n)
  {
    hide Placed, ValidItem, SlotAt, ItemAt, Addr, CellsAt;
    forall k | 0 <= k < n && k < x.fields[i].arraySize
      ensures ValueFilled(x, m1, i, k)
    {
      assert ValueFilled(x, m, i, k);
    }
  }

  /** A record of another field leaves the array alone. */
  lemma OtherKept(x: Struct, st: State, i: nat, tag: nat, wireType: nat, s: seq<byte>)
    requires StateFor(x, st) && LongArrays(x.fields) && i < |x.fields| && FixedCount(x.fields[i])
    requires tag != x.fields[i].tag
    ensures CellsAt(x.fields[i], Addr(x, i), |st.mem|)
    ensures SlotAt(DecodeRecord(x, st, tag, wireType, s).value.mem, x.fields[i], Addr(x, i))
         == SlotAt(st.mem, x.fields[i], Addr(x, i))
  {
    hide Placed, LongArrays, SlotAt, CellsAt, Addr, DecodeCells, PlacedField, OnlyCells, SkipField, Leader, LongBelow;
    PlacedEntry(x, i, |st.mem|);
    PlacedCells(x.fields[i], Addr(x, i), |st.mem|);
    var j := IndexOf(x.fields, tag);
    if j < |x.fields| {
      PlacedEntry(x, j, |st.mem|);
      LongEntry(x.fields, j);
      DecodedOnly(x.fields[j], st.mem, Addr(x, j), Enter(x.fields, st, j).fixedSize, wireType, s);
      if Leader(x.fields, j) == Leader(x.fields, i) {
        SharedAreOneof(x.fields, i, j);
      }
      ApartKept(x, st.mem,
                DecodeCells(x.fields[j], st.mem, Addr(x, j), Enter(x.fields, st, j).fixedSize, wireType, s).value.mem,
                j, i);
    }
  }

  /** It is the array being received still, or it was complete. */
  lemma OtherCursor(x: Struct, st: State, i: nat, tag: nat, wireType: nat, s: seq<byte>)
    requires StateFor(x, st) && i < |x.fields| && FixedCount(x.fields[i]) && tag != x.fields[i].tag
    requires DecodeRecord(x, st, tag, wireType, s).Ok?
    ensures var st1 := DecodeRecord(x, st, tag, wireType, s).value;
            if st1.fixedField == Some(i) then st.fixedField == Some(i) && st1.fixedSize == st.fixedSize
            else st.fixedField == Some(i) ==> st.fixedSize == x.fields[i].arraySize
  {
    hide Placed, Addr, DecodeCells, PlacedField, SkipField, WellFormedField, Mark, DecodeVarint32;
    var j := IndexOf(x.fields, tag);
    if j < |x.fields| {
      PlacedEntry(x, j, |st.mem|);
      if !FixedCount(x.fields[j]) {
        CountKept(x.fields[j], st.mem, Addr(x, j), Enter(x.fields, st, j).fixedSize, wireType, s);
      }
    }
  }

  lemma OtherProgress(x: Struct, st: State, i: nat, got: bool, tag: nat, wireType: nat, s: seq<byte>)
    requires StateFor(x, st) && LongArrays(x.fields) && i < |x.fields| && FixedCount(x.fields[i])
    requires tag != x.fields[i].tag && DecodeRecord(x, st, tag, wireType, s).Ok? && Progress(x, st, i, got)
    ensures Progress(x, DecodeRecord(x, st, tag, wireType, s).value, i, got)
  {
    hide Placed, LongArrays, SlotAt, CellsAt, Addr, DecodeRecord, PlacedField, Filled;
    OtherKept(x, st, i, tag, wireType, s);
    OtherCursor(x, st, i, tag, wireType, s);
    var m1 := DecodeRecord(x, st, tag, wireType, s).value.mem;
    if st.fixedField == Some(i) {
      FilledKept(x, st.mem, m1, i, st.fixedSize);
    } else if got {
      FilledKept(x, st.mem, m1, i, x.fields[i].arraySize);
    }
  }

  /** Only fixed-count arrays advance the local count. */
  lemma CountKept(f: Field, m: Memory, p: nat, count: nat, wireType: nat, s: seq<byte>)
    requires PlacedField(f, p, |m|) && !FixedCount(f)
    ensures DecodeCells(f, m, p, count, wireType, s).value.count == count
  {
    hide PlacedField, DecodeSlot, DecodeSubmessage, PutSlotAt, PutSizeAt, SlotAt;
  }

  lemma OwnProgress(x: Struct, st: State, i: nat, got: bool, wireType: nat, s: seq<byte>)
    requires StateFor(x, st) && i < |x.fields| && Doubtful(x.fields[i]) && DefaultValid(x.fields[i])
    requires DecodeRecord(x, st, x.fields[i].tag, wireType, s).Ok? && Progress(x, st, i, got)
    ensures Progress(x, DecodeRecord(x, st, x.fields[i].tag, wireType, s).value, i, true)
  {
    var f, p := x.fields[i], Addr(x, i);
    FieldIndex(x.fields, x.size, i);
    PlacedEntry(x, i, |st.mem|);
    hide Placed, SlotAt, CellsAt, Addr, DecodeCells, PlacedField, SkipField, Filled, ValidItem, PutItem,
      WellFormedField;
    var n := Enter(x.fields, st, i).fixedSize;
    assert Filled(x, st.mem, i, n) by { NoneFilled(x, st.mem, i); }
    NextValue(f, st.mem, p, n, wireType, s);
    var c := DecodeCells(f, st.mem, p, n, wireType, s).value;
    var d :| |d| == f.dataSize && ValidItem(f, d)
          && SlotAt(c.mem, f, p).data == PutItem(f, SlotAt(st.mem, f, p).data, n, d);
    FilledNext(x, st.mem, c.mem, i, n, d);
  }

  lemma NoneFilled(x: Struct, m: Memory, i: nat)
    requires Placed(x, |m|) && i < |x.fields| && FixedCount(x.fields[i])
    ensures Filled(x, m, i, 0)
  {
  }

  lemma {:induction false} LoopProgress(x: Struct, st: State, s: seq<byte>, i: nat, got: bool)
    requires StateFor(x, st) && LongArrays(x.fields) && WireTypesAgree(x.fields, s)
    requires i < |x.fields| && Doubtful(x.fields[i]) && DefaultValid(x.fields[i]) && Progress(x, st, i, got)
    requires !DecodeLoop(x, st, s).Broken?
    ensures Progress(x, DecodeLoop(x, st, s).st, i, got || x.fields[i].tag in TagsOf(s))
    decreases |s|
  {
    hide DecodeRecord, DecodeVarint32, Placed, SkipField, WireTypeAgrees, IndexOf, Progress, LongArrays, DefaultValid;
    if s != [] && DecodeVarint32(s).Got? && DecodeVarint32(s).value != 0 {
      var key, rest := DecodeVarint32(s).value, DecodeVarint32(s).rest;
      RecordRest(x, st, key / 8, key % 8, rest);
      var r := DecodeRecord(x, st, key / 8, key % 8, rest);
      if key / 8 == x.fields[i].tag {
        OwnProgress(x, st, i, got, key % 8, rest);
      } else {
        OtherProgress(x, st, i, got, key / 8, key % 8, rest);
      }
      LoopProgress(x, r.value, r.rest, i, got || key / 8 == x.fields[i].tag);
    }
  }

  lemma {:induction false} LoopAbsent(x: Struct, st: State, s: seq<byte>, i: nat)
    requires StateFor(x, st) && LongArrays(x.fields) && WireTypesAgree(x.fields, s)
    requires i < |x.fields| && FixedCount(x.fields[i]) && x.fields[i].tag !in TagsOf(s)
    requires !DecodeLoop(x, st, s).Broken?
    ensures CellsAt(x.fields[i], Addr(x, i), |st.mem|)
    ensures SlotAt(DecodeLoop(x, st, s).st.mem, x.fields[i], Addr(x, i)) == SlotAt(st.mem, x.fields[i], Addr(x, i))
    decreases |s|
  {
    PlacedEntry(x, i, |st.mem|);
    PlacedCells(x.fields[i], Addr(x, i), |st.mem|);
    hide DecodeRecord, DecodeVarint32, Placed, SkipField, WireTypeAgrees, IndexOf, LongArrays, CellsAt, SlotAt, Addr,
      PlacedField, CellsFor, WellFormedField;
    if s != [] && DecodeVarint32(s).Got? && DecodeVarint32(s).value != 0 {
      var key, rest := DecodeVarint32(s).value, DecodeVarint32(s).rest;
      RecordRest(x, st, key / 8, key % 8, rest);
      var r := DecodeRecord(x, st, key / 8, key % 8, rest);
      OtherKept(x, st, i, key / 8, key % 8, rest);
      LoopAbsent(x, r.value, r.rest, i);
    }
  }

  /** An array that occurs in an accepted input holds valid values. */
  lemma ReceivedFilled(x: Struct, m: Memory, s: seq<byte>, i: nat)
    requires Placed(x, |m|) && LongArrays(x.fields) && WireTypesAgree(x.fields, s)
    requires i < |x.fields| && Doubtful(x.fields[i]) && DefaultValid(x.fields[i])
    requires Decode(x, m, s).Ok? && x.fields[i].tag in TagsOf(s)
    ensures Filled(x, Decode(x, m, s).value, i, x.fields[i].arraySize)
  {
    hide DecodeLoop, Placed, LongArrays, DefaultValid, WireTypesAgree, TagsOf, AllRequiredSeen, Filled, SetDefaults;
    LoopProgress(x, Start(SetDefaults(x, m)), s, i, false);
  }

  // ---- An array that does not occur ----

  /** Its values are what memory held, past the zero count. */
  lemma AbsentBytes(x: Struct, m: Memory, s: seq<byte>, i: nat)
    requires Placed(x, |m|) && LongArrays(x.fields) && WireTypesAgree(x.fields, s)
    requires i < |x.fields| && FixedCount(x.fields[i]) && x.fields[i].tag !in TagsOf(s) && Decode(x, m, s).Ok?
    ensures CellsAt(x.fields[i], Addr(x, i), |m|) && DataLen(x.fields[i]) >= SIZE_BYTES
    ensures SlotAt(Decode(x, m, s).value, x.fields[i], Addr(x, i)).data
         == Write(Read(m, Addr(x, i), DataLen(x.fields[i])), 0, Zeros(SIZE_BYTES))
  {
    var f, p := x.fields[i], Addr(x, i);
    hide Placed, SetDefaults, LongArrays, Leader, PlacedField, SameCells, Addr, DecodeLoop, WireTypesAgree, TagsOf,
      AllRequiredSeen, SlotAt, CellsAt, DataLen;
    PlacedEntry(x, i, |m|);
    PlacedCells(f, p, |m|);
    forall j | 0 <= j < |x.fields| && j != i
      ensures Leader(x.fields, j) != Leader(x.fields, i)
    {
      if Leader(x.fields, j) == Leader(x.fields, i) {
        SharedAreOneof(x.fields, i, j);
      }
    }
    EntryDefaults(x, m, i);
    LongEntry(x.fields, i);
    LoopAbsent(x, Start(SetDefaults(x, m)), s, i);
    ArrayCleared(f, m, p, SetDefaults(x, m));
  }

  lemma ArrayCleared(f: Field, m: Memory, p: nat, m1: Memory)
    requires PlacedField(f, p, |m|) && FixedCount(f) && HoldsCount(f) && |m1| == |m|
    requires SameCells(f, m1, p, DefaultField(f, m, p), p)
    ensures CellsAt(f, p, |m|)
    ensures SlotAt(m1, f, p).data == Write(Read(m, p, DataLen(f)), 0, Zeros(SIZE_BYTES))
  {
    hide WellFormedField, DataLen, FieldReaches;
  }

  /** Every value in it starts below the zero count. */
  predicate Covered(f: Field) {
    f.dataSize * (f.arraySize - 1) < SIZE_BYTES
  }

  lemma CoveredValid(f: Field, a: seq<byte>, k: nat)
    requires Doubtful(f) && WellFormedField(f) && |a| == f.dataSize * f.arraySize && |a| >= SIZE_BYTES
    requires k < f.arraySize && Covered(f)
    ensures ValidItem(f, ItemAt(f, Write(a, 0, Zeros(SIZE_BYTES)), k))
  {
    var d := ItemAt(f, Write(a, 0, Zeros(SIZE_BYTES)), k);
    ItemInside(f, k);
    MulMono(k, f.arraySize - 1, f.dataSize);
    assert d[0] == 0;
    if f.ltype.Bytes? {
      assert k == 0 by {
        if k > 0 {
          MulMono(1, k, f.dataSize);
        }
      }
      assert d[..SIZE_BYTES] == Zeros(SIZE_BYTES);
      ZerosNumber();
    }
  }

  lemma ZerosNumber()
    ensures FromLittleEndian(Zeros(SIZE_BYTES)) == 0
  {
    assert FromLittleEndian([0]) == 0;
    assert FromLittleEndian([0, 0]) == 0;
    assert FromLittleEndian([0, 0, 0]) == 0;
    assert Zeros(SIZE_BYTES) == [0, 0, 0, 0];
  }

  function Ones(n: nat): (s: seq<byte>)
    ensures |s| == n
  {
    seq(n, k => 255)
  }

  /** Over memory of ones the last value of an array that is not covered is not valid. */
  lemma OnesInvalid(f: Field, a: seq<byte>)
    requires Doubtful(f) && WellFormedField(f) && |a| == f.dataSize * f.arraySize && |a| >= SIZE_BYTES
    requires f.arraySize > 0 && !Covered(f) && a == Ones(|a|)
    ensures !ValidItem(f, ItemAt(f, Write(a, 0, Zeros(SIZE_BYTES)), f.arraySize - 1))
  {
    var d := ItemAt(f, Write(a, 0, Zeros(SIZE_BYTES)), f.arraySize - 1);
    ItemInside(f, f.arraySize - 1);
    assert d == Ones(f.dataSize);
    if f.ltype.String? {
      assert StringLen(d) == |d|;
    } else {
      assert d[..SIZE_BYTES] == [255, 255, 255, 255];
      assert FromLittleEndian([255, 255, 255, 255]) == PB_SIZE_MAX by { OnesNumber(); }
    }
  }

  lemma OnesNumber()
    ensures FromLittleEndian([255, 255, 255, 255]) == TWO32 - 1
  {
    assert FromLittleEndian([255]) == 255;
    assert FromLittleEndian([255, 255]) == 0xFFFF;
    assert FromLittleEndian([255, 255, 255]) == 0xFF_FFFF;
  }

  /** An accepted input leaves valid values in a fixed-count array of strings or bytes, whatever memory
      held, if and only if a record of it occurs, or every value starts below the zero count. */
  lemma FilledExactly(x: Struct, m0: Memory, s: seq<byte>, i: nat)
    requires Placed(x, |m0|) && LongArrays(x.fields) && WireTypesAgree(x.fields, s)
    requires i < |x.fields| && Doubtful(x.fields[i]) && DefaultValid(x.fields[i]) && Decode(x, m0, s).Ok?
    ensures (forall m: Memory :: |m| == |m0| ==> Filled(x, Decode(x, m, s).value, i, x.fields[i].arraySize))
       <==> Brought(x.fields, s, i)
  {
    hide Decode, Placed, LongArrays, WireTypesAgree, TagsOf, Filled, Covered, DefaultValid;
    if Brought(x.fields, s, i) {
      forall m: Memory | |m| == |m0|
        ensures Filled(x, Decode(x, m, s).value, i, x.fields[i].arraySize)
      {
        OldMemoryIrrelevant(x, m0, m, s);
        BroughtFilled(x, m, s, i);
      }
    } else {
      OldMemoryIrrelevant(x, m0, Ones(|m0|), s);
      AbsentOnes(x, |m0|, s, i);
    }
  }

  /** A record of the array occurs, unless none is needed. */
  predicate Brought(fields: seq<Field>, s: seq<byte>, i: nat)
    requires i < |fields|
  {
    fields[i].tag in TagsOf(s) || Covered(fields[i])
  }

  lemma BroughtFilled(x: Struct, m: Memory, s: seq<byte>, i: nat)
    requires Placed(x, |m|) && LongArrays(x.fields) && WireTypesAgree(x.fields, s)
    requires i < |x.fields| && Doubtful(x.fields[i]) && DefaultValid(x.fields[i]) && Decode(x, m, s).Ok?
    requires Brought(x.fields, s, i)
    ensures Filled(x, Decode(x, m, s).value, i, x.fields[i].arraySize)
  {
    hide Decode, Placed, LongArrays, WireTypesAgree, TagsOf, Filled, Covered, DefaultValid;
    if x.fields[i].tag in TagsOf(s) {
      ReceivedFilled(x, m, s, i);
    } else {
      AbsentFilled(x, m, s, i);
    }
  }

  lemma AbsentFilled(x: Struct, m: Memory, s: seq<byte>, i: nat)
    requires Placed(x, |m|) && LongArrays(x.fields) && WireTypesAgree(x.fields, s)
    requires i < |x.fields| && Doubtful(x.fields[i]) && Decode(x, m, s).Ok? && x.fields[i].tag !in TagsOf(s)
    requires Covered(x.fields[i])
    ensures Filled(x, Decode(x, m, s).value, i, x.fields[i].arraySize)
  {
    hide Decode, Placed, LongArrays, WireTypesAgree, TagsOf, Covered, SlotAt, ItemAt, ValidItem, Write, Addr;
    AbsentBytes(x, m, s, i);
    forall k | 0 <= k < x.fields[i].arraySize
      ensures ValueFilled(x, Decode(x, m, s).value, i, k)
    {
      ViewSlot(x, i, m);
      CoveredValid(x.fields[i], Read(m, Addr(x, i), DataLen(x.fields[i])), k);
    }
  }

  lemma AbsentOnes(x: Struct, len: nat, s: seq<byte>, i: nat)
    requires Placed(x, len) && LongArrays(x.fields) && WireTypesAgree(x.fields, s)
    requires i < |x.fields| && Doubtful(x.fields[i]) && Decode(x, Ones(len), s).Ok? && x.fields[i].tag !in TagsOf(s)
    requires !Covered(x.fields[i])
    ensures !Filled(x, Decode(x, Ones(len), s).value, i, x.fields[i].arraySize)
  {
    hide Decode, Placed, LongArrays, WireTypesAgree, TagsOf, Covered, SlotAt, ItemAt, ValidItem, Write, Addr;
    var f, m := x.fields[i], Ones(len);
    AbsentBytes(x, m, s, i);
    ViewSlot(x, i, m);
    var a := Read(m, Addr(x, i), DataLen(f));
    assert a == Ones(|a|);
    assert f.arraySize > 0;
    OnesInvalid(f, a);
    assert !ValueFilled(x, Decode(x, m, s).value, i, f.arraySize - 1);
  }

  // ---- The message again ----

  /** No fixed-count array of submessages, strings or bytes, here or below. */
  ghost predicate Quiet(fields: seq<Field>)
    decreases fields
  {
    forall i :: 0 <= i < |fields| ==> !Doubtful(fields[i]) && QuietBelow(fields[i])
  }

  ghost predicate QuietBelow(f: Field)
    decreases f
  {
    f.ltype.Submessage? ==> !FixedCount(f) && (f.ptr.Sub? ==> Quiet(f.ptr.fields))
  }

  lemma QuietSlot(f: Field, s: Slot)
    requires SlotFor(f, s) && !Doubtful(f) && QuietBelow(f)
    ensures HeldSlot(f, s)
    decreases f, 1
  {
    hide ItemAt, Present;
    if FixedCount(f) {
    } else if f.ltype.Submessage? {
      hide WellFormed, Quiet;
      if f.htype.Repeated? {
        forall k | 0 <= k < s.size && k < f.arraySize
          ensures HeldItem(f, ItemAt(f, s.data, k))
        {
          QuietHeld(f.ptr.fields, ItemAt(f, s.data, k));
        }
      } else {
        QuietHeld(f.ptr.fields, s.data);
      }
    }
  }

  lemma QuietHeld(fields: seq<Field>, v: Memory)
    requires WellFormed(fields, |v|) && Quiet(fields)
    ensures Held(fields, v)
    decreases fields, 2
  {
    hide WellFormed, HeldSlot, GetSlot, QuietBelow, WellFormedField, SlotFor;
    forall i | 0 <= i < |fields|
      ensures SlotFor(fields[i], GetSlot(fields, i, v)) && HeldSlot(fields[i], GetSlot(fields, i, v))
    {
      WellFormedSlot(fields, i, v);
      QuietSlot(fields[i], GetSlot(fields, i, v));
    }
  }

  lemma SlotFilled(x: Struct, m: Memory, i: nat)
    requires Placed(x, |m|) && i < |x.fields| && QuietBelow(x.fields[i])
    ensures SlotFor(x.fields[i], GetSlot(x.fields, i, View(x, m)))
    ensures HeldSlot(x.fields[i], GetSlot(x.fields, i, View(x, m)))
       <==> (Doubtful(x.fields[i]) ==> Filled(x, m, i, x.fields[i].arraySize))
  {
    hide WellFormed, Reaches, SlotAt, GetSlot, View, PlacedField, ItemAt, ValidItem, QuietBelow, Addr, WellFormedField;
    ViewSlot(x, i, m);
    var f, s := x.fields[i], SlotAt(m, x.fields[i], Addr(x, i));
    if Doubtful(f) {
      assert forall k :: 0 <= k < f.arraySize ==> (ValueFilled(x, m, i, k) <==> ValidItem(f, ItemAt(f, s.data, k)));
    } else {
      QuietSlot(f, s);
    }
  }

  lemma HeldFilled(x: Struct, m: Memory)
    requires Placed(x, |m|) && forall i :: 0 <= i < |x.fields| ==> QuietBelow(x.fields[i])
    ensures Held(x.fields, View(x, m))
       <==> forall i :: 0 <= i < |x.fields| && Doubtful(x.fields[i]) ==> Filled(x, m, i, x.fields[i].arraySize)
  {
    hide WellFormed, Reaches, GetSlot, View, QuietBelow, HeldSlot, SlotFor, Filled;
    forall i | 0 <= i < |x.fields|
      ensures SlotFor(x.fields[i], GetSlot(x.fields, i, View(x, m)))
      ensures HeldSlot(x.fields[i], GetSlot(x.fields, i, View(x, m)))
         <==> (Doubtful(x.fields[i]) ==> Filled(x, m, i, x.fields[i].arraySize))
    {
      SlotFilled(x, m, i);
    }
  }

  ghost predicate ValidOver(x: Struct, m: Memory, s: seq<byte>)
    requires Placed(x, |m|)
  {
    ValidMessage(x.fields, View(x, Decode(x, m, s).value))
  }

  /** An accepted input leaves a valid message, whatever memory held, if and only if it brings every
      fixed-count array of strings or bytes. */
  lemma ValidExactlyBrought(x: Struct, m0: Memory, s: seq<byte>)
    requires Placed(x, |m0|) && LongArrays(x.fields) && DefaultsValid(x.fields)
    requires forall i :: 0 <= i < |x.fields| ==> QuietBelow(x.fields[i])
    requires WireTypesAgree(x.fields, s) && Decode(x, m0, s).Ok?
    ensures (forall m: Memory :: |m| == |m0| ==> ValidOver(x, m, s))
       <==> forall i :: 0 <= i < |x.fields| && Doubtful(x.fields[i]) ==> Brought(x.fields, s, i)
  {
    hide Decode, Placed, LongArrays, WireTypesAgree, Brought, QuietBelow, Held, View, ValidMessage,
      DefaultValid, Filled;
    if forall i :: 0 <= i < |x.fields| && Doubtful(x.fields[i]) ==> Brought(x.fields, s, i) {
      forall m: Memory | |m| == |m0|
        ensures ValidOver(x, m, s)
      {
        OldMemoryIrrelevant(x, m0, m, s);
        DecodedValidExactly(x, m, s);
        HeldFilled(x, Decode(x, m, s).value);
        forall i | 0 <= i < |x.fields| && Doubtful(x.fields[i])
          ensures Filled(x, Decode(x, m, s).value, i, x.fields[i].arraySize)
        {
          BroughtFilled(x, m, s, i);
        }
      }
    }
    if forall m: Memory :: |m| == |m0| ==> ValidOver(x, m, s) {
      var m := Ones(|m0|);
      OldMemoryIrrelevant(x, m0, m, s);
      assert ValidOver(x, m, s);
      DecodedValidExactly(x, m, s);
      HeldFilled(x, Decode(x, m, s).value);
      forall i | 0 <= i < |x.fields| && Doubtful(x.fields[i])
        ensures Brought(x.fields, s, i)
      {
        OnesBrought(x, |m0|, s, i);
      }
    }
  }

  lemma OnesBrought(x: Struct, len: nat, s: seq<byte>, i: nat)
    requires Placed(x, len) && LongArrays(x.fields) && WireTypesAgree(x.fields, s)
    requires i < |x.fields| && Doubtful(x.fields[i]) && Decode(x, Ones(len), s).Ok?
    requires Filled(x, Decode(x, Ones(len), s).value, i, x.fields[i].arraySize)
    ensures Brought(x.fields, s, i)
  {
    hide Decode, Placed, LongArrays, WireTypesAgree, Filled, Covered, TagsOf;
    if !Brought(x.fields, s, i) {
      AbsentOnes(x, len, s, i);
    }
  }
}
