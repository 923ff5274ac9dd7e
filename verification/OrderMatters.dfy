/** Two tables with a fixed-count array too short for a pb_size_t: one on which the order of two records
    decides what the struct holds in the end, and one on which the overrun does no harm. */
module OrderMatters {
  import opened Bits
  import opened Wire
  import opened Descriptor
  import opened StructMemory
  import opened Encoding
  import opened Decoding
  import opened Locality
  import opened Effects
  import opened Overrun

  /** A struct of one fixed-count bool array with one entry. */
  const FLAGS: seq<Field> := [Field(1, Static, Repeated, Bool, 0, 0, 1, 1, Null)]

  /** A counted array of one such struct, its count at 0 and the struct at 4, and an optional bool, its
      has_ flag at 5 and its value at 6. */
  const PARENT: seq<Field> := [
    Field(1, Static, Repeated, LType.Submessage, 4, -4, 1, 1, Ptr.Sub(FLAGS)),
    Field(2, Static, Optional, Bool, 1, -1, 1, 0, Null)]

  const STRUCT: Struct := Struct(PARENT, 0, 8)

  lemma FlagsPlaced(base: nat, len: nat)
    requires base + SIZE_BYTES <= len
    ensures Placed(Struct(FLAGS, base, 1), len)
  {
    assert PData(FLAGS, 0) == 0 && Leader(FLAGS, 0) == 0;
    assert WellFormedField(FLAGS[0]);
    assert CellsInside(FLAGS, 0, 1);
  }

  lemma ParentPlaced()
    ensures Placed(STRUCT, 8)
  {
    assert PData(PARENT, 0) == 4 && PData(PARENT, 1) == 6 && Leader(PARENT, 0) == 0 && Leader(PARENT, 1) == 1;
    FlagsPlaced(0, 8);
    FlagsPlaced(4, 8);
    assert WellFormedField(PARENT[0]) && WellFormedField(PARENT[1]);
    assert CellsInside(PARENT, 0, 8) && CellsInside(PARENT, 1, 8);
    assert CellsApart(PARENT, 0, 1) && CellsApart(PARENT, 1, 0);
    assert WellFormed(PARENT, 8);
    forall e: nat | e < Entries(PARENT[0])
      ensures Reaches(FLAGS, EntryAddr(PARENT[0], 4, e), 8)
    {
      assert e == 0 && EntryAddr(PARENT[0], 4, e) == 4;
    }
  }

  // ---- The array entry ----

  lemma FlagsDefaults(m: Memory, base: nat)
    requires Placed(Struct(FLAGS, base, 1), |m|)
    ensures base + SIZE_BYTES <= |m| && SetDefaults(Struct(FLAGS, base, 1), m) == Write(m, base, Zeros(SIZE_BYTES))
  {
    hide WellFormed;
    var x := Struct(FLAGS, base, 1);
    assert FLAGS[0] == FLAGS[0] && PData(FLAGS, 0) == 0;
    assert FieldReaches(FLAGS[0], base + PData(FLAGS, 0), |m|);
    var m1 := Write(m, base, Zeros(SIZE_BYTES));
    PlacedEntry(x, 0, |m|);
    assert DefaultField(FLAGS[0], m, base) == m1;
    assert DefaultsFrom(x, m1, 1) == m1;
  }

  lemma SmallKey(s: seq<byte>)
    requires s != [] && s[0] < 128
    ensures DecodeVarint32(s) == Got(s[0], s[1..])
  {
  }

  lemma OneBool(f: Field, d: seq<byte>)
    requires ItemFor(f, d) && f.ltype.Bool?
    ensures DecodeScalar(f, d, [1]) == Ok([1], [])
  {
    SmallKey([1]);
  }

  /** The packed payload of one true bool fills the array. */
  lemma OneFlag(f: Field, slot: Slot)
    requires SlotFor(f, slot) && f.htype.Repeated? && f.ltype.Bool? && f.arraySize == 1 && slot.size == 0
    ensures DecodeSlot(f, slot, STRING, [1, 1]) == Ok(Slot(1, [1]), [])
  {
    hide DecodeVarint32, DecodeScalar;
    SmallKey([1, 1]);
    assert [1, 1][1..] == [1] && [1][..1] == [1] && [1][1..] == [];
    OneBool(f, ItemAt(f, slot.data, 0));
    assert PutItem(f, slot.data, 0, [1]) == [1] by { WriteWhole(slot.data, [1]); }
    assert PackedLoop(f, Slot(1, [1]), []) == Ok(Slot(1, [1]), []);
  }

  lemma FlagsField(m: Memory, base: nat)
    requires Placed(Struct(FLAGS, base, 1), |m|)
    ensures base < |m|
    ensures DecodeField(Struct(FLAGS, base, 1), Start(m), 0, STRING, [1, 1])
         == Ok(State(Write(m, base, [1]), {}, Some(0), 1), [])
  {
    hide WellFormed, DecodeSlot, Reaches;
    var x := Struct(FLAGS, base, 1);
    assert PData(FLAGS, 0) == 0 && RequiredBefore(FLAGS, 0) == 0;
    PlacedEntry(x, 0, |m|);
    OneFlag(FLAGS[0], CursorSlot(m, FLAGS[0], base, 0));
    assert Start(m).seen + {} == {};
  }

  lemma FlagsDecode(m: Memory, base: nat)
    requires Placed(Struct(FLAGS, base, 1), |m|)
    ensures base < |m| && DecodeNoinit(Struct(FLAGS, base, 1), m, [10, 1, 1]) == Ok(Write(m, base, [1]), [])
  {
    hide Placed, DecodeField, DecodeVarint32, Write, DecodeLoop, SkipField, KeyBytes;
    var x := Struct(FLAGS, base, 1);
    FlagsField(m, base);
    SkipOne();
    KeyIs(1, STRING);
    LoopOfField(x, Start(m), 0, STRING, [1, 1], []);
    assert [10] + [1, 1] + [] == [10, 1, 1];
    LoopOfNothing(x, State(Write(m, base, [1]), {}, Some(0), 1));
    assert RequiredBefore(FLAGS, 1) == 0 by { assert RequiredBefore(FLAGS, 0) == 0; }
  }

  lemma SkipOne()
    ensures SkipField(STRING, [1, 1]) == Got((), [])
  {
    SmallKey([1, 1]);
    assert [1, 1][1..] == [1] && [1][1..] == [];
  }

  lemma KeyIs(tag: nat, wireType: nat)
    requires tag * 8 + wireType < 128
    ensures KeyBytes(tag, wireType) == [tag * 8 + wireType]
  {
  }

  // ---- The two records ----

  const ENTRY: Memory := [1, 0, 0, 0, 1, 0, 0, 0]

  lemma EntryBytes(m: Memory)
    requires |m| == 8 && Read(m, 0, 4) == [1, 0, 0, 0]
    ensures Write(Write(m, 4, Zeros(SIZE_BYTES)), 4, [1]) == ENTRY
  {
    var r := Write(Write(m, 4, Zeros(SIZE_BYTES)), 4, [1]);
    forall k | 0 <= k < 8
      ensures r[k] == ENTRY[k]
    {
      assert k < 4 ==> m[k] == Read(m, 0, 4)[k];
    }
  }

  lemma EntryPlaced()
    ensures PlacedField(PARENT[0], 4, 8) && CellsFor(PARENT[0], 4, 8) && CellsAt(PARENT[0], 4, 8)
    ensures Placed(Struct(FLAGS, 4, 1), 8) && SubAt(PARENT[0], 4, 0) == Struct(FLAGS, 4, 1)
    ensures Addr(STRUCT, 0) == 4
  {
    ParentPlaced();
    PlacedEntry(STRUCT, 0, 8);
    assert PData(PARENT, 0) == 4;
    PlacedCells(PARENT[0], 4, 8);
    FlagsPlaced(4, 8);
    hide Placed, PlacedField;
  }

  lemma EntryPayload()
    ensures Substream([3, 10, 1, 1]) == Got([10, 1, 1], [])
  {
    SmallKey([3, 10, 1, 1]);
    assert [3, 10, 1, 1][1..] == [10, 1, 1] && [10, 1, 1][..3] == [10, 1, 1] && [10, 1, 1][3..] == [];
    hide DecodeVarint32;
  }

  /** Decoding the one entry initialises it first, which clears the bytes after it. */
  lemma EntryValue(f: Field, m: Memory, s: seq<byte>)
    requires IsEntryField(f) && s == [3, 10, 1, 1] && |m| == 8 && Read(m, 0, 4) == [1, 0, 0, 0]
    ensures PlacedField(f, 4, 8) && f.ltype.Submessage? && f.arraySize > 0
    ensures DecodeSubmessage(f, m, 4, 0, s) == Ok(ENTRY, [])
  {
    hide Placed, PlacedField, Substream, DecodeNoinit, SetDefaults, Write, Read, DecodeSubmessage, Zeros, IsEntryField,
      SubAt;
    EntryField(f);
    EntryFieldPlaced(f);
    EntryPayload();
    var sub := Substream(s).value;
    FlagsDefaultsAt(SubAt(f, 4, 0), m);
    FlagsDecodeAt(SubAt(f, 4, 0), Write(m, 4, Zeros(SIZE_BYTES)), sub);
    EntryBytes(m);
    EntrySteps(f, m, 4, s, sub, Write(m, 4, Zeros(SIZE_BYTES)), ENTRY);
  }

  predicate IsFlags(x: Struct) {
    x == Struct(FLAGS, 4, 1)
  }

  lemma EntryFieldPlaced(f: Field)
    requires IsEntryField(f)
    ensures PlacedField(f, 4, 8) && f.ptr.Sub? && Placed(SubAt(f, 4, 0), 8) && IsFlags(SubAt(f, 4, 0))
  {
    EntryPlaced();
  }

  lemma FlagsDefaultsAt(x: Struct, m: Memory)
    requires IsFlags(x) && Placed(x, |m|) && |m| == 8
    ensures SetDefaults(x, m) == Write(m, 4, Zeros(SIZE_BYTES))
  {
    FlagsDefaults(m, 4);
  }

  lemma FlagsDecodeAt(x: Struct, m: Memory, s: seq<byte>)
    requires IsFlags(x) && Placed(x, |m|) && |m| == 8 && s == [10, 1, 1]
    ensures DecodeNoinit(x, m, s) == Ok(Write(m, 4, [1]), [])
  {
    FlagsDecode(m, 4);
  }

  /** pb_dec_submessage on the first array entry, step by step. */
  lemma EntrySteps(f: Field, m: Memory, p: nat, s: seq<byte>, sub: seq<byte>, m1: Memory, m2: Memory)
    requires PlacedField(f, p, |m|) && f.ltype.Submessage? && f.htype.Repeated? && f.arraySize > 0
    requires Placed(SubAt(f, p, 0), |m|) && Substream(s) == Got(sub, [])
    requires SetDefaults(SubAt(f, p, 0), m) == m1 && DecodeNoinit(SubAt(f, p, 0), m1, sub) == Ok(m2, [])
    ensures DecodeSubmessage(f, m, p, 0, s) == Ok(m2, [])
  {
    hide Placed, PlacedField, Substream, DecodeNoinit, SetDefaults;
  }

  lemma EntryCount(m: Memory)
    requires |m| == 8 && Read(m, 0, 4) == [0, 0, 0, 0] && CellsAt(PARENT[0], 4, 8)
    ensures SlotAt(m, PARENT[0], 4).size == 0
    ensures Read(PutSizeAt(m, PARENT[0], 4, 1), 0, 4) == [1, 0, 0, 0]
  {
    NumbersAtFour();
    hide LittleEndian, FromLittleEndian;
  }

  /** The parent's array field. */
  predicate IsEntryField(f: Field) {
    f == PARENT[0]
  }

  lemma EntryField(f: Field)
    requires IsEntryField(f)
    ensures f.ltype.Submessage? && Counted(f) && f.arraySize > 0 && !f.htype.Required? && !FixedCount(f)
  {
  }

  lemma EntryOutcome(f: Field, m: Memory, s: seq<byte>)
    requires IsEntryField(f) && s == [3, 10, 1, 1] && |m| == 8 && Read(m, 0, 4) == [0, 0, 0, 0]
    ensures PlacedField(f, 4, 8) && CellsAt(f, 4, 8) && f.ltype.Submessage? && f.arraySize > 0
    ensures SlotAt(m, f, 4).size == 0
    ensures DecodeSubmessage(f, PutSizeAt(m, f, 4, 1), 4, 0, s) == Ok(ENTRY, [])
  {
    hide Placed, PlacedField, DecodeSubmessage, PutSizeAt, CellsFor, CellsAt, SlotAt, Read;
    EntryPlaced();
    EntryCount(m);
    EntryValue(f, PutSizeAt(m, PARENT[0], 4, 1), s);
  }

  lemma EntryCellsDecode(f: Field, m: Memory, count: nat, s: seq<byte>)
    requires IsEntryField(f) && s == [3, 10, 1, 1] && |m| == 8 && Read(m, 0, 4) == [0, 0, 0, 0]
    ensures PlacedField(f, 4, 8)
    ensures DecodeCells(f, m, 4, count, STRING, s) == Ok(Cells(ENTRY, count), [])
  {
    hide IsEntryField, PlacedField, DecodeCells, DecodeSubmessage, PutSizeAt, CellsAt, SlotAt, Read, Counted;
    EntryField(f);
    EntryOutcome(f, m, s);
    CountedEntry(f, m, 4, count, s);
  }

  /** An array entry that decodes, written out for an empty counted array. */
  lemma CountedEntry(f: Field, m: Memory, p: nat, count: nat, s: seq<byte>)
    requires PlacedField(f, p, |m|) && CellsAt(f, p, |m|) && f.ltype.Submessage? && Counted(f)
    requires SlotAt(m, f, p).size == 0 && f.arraySize > 0
    ensures DecodeCells(f, m, p, count, STRING, s)
         == WithCount(DecodeSubmessage(f, PutSizeAt(m, f, p, 1), p, 0, s), count)
  {
    hide PlacedField, DecodeSubmessage, PutSizeAt, CellsAt, SlotAt;
  }

  lemma EntryRecord(x: Struct, st: State, s: seq<byte>)
    requires IsStruct(x) && s == [3, 10, 1, 1]
    requires StateFor(x, st) && |st.mem| == 8 && Read(st.mem, 0, 4) == [0, 0, 0, 0]
    ensures |x.fields| == 2 && DecodeField(x, st, 0, STRING, s) == Ok(st.(mem := ENTRY), [])
  {
    hide Placed, PlacedField, DecodeCells, Read, IsStruct, IsEntryField, FixedCount;
    EntryOf(x);
    EntryField(x.fields[0]);
    EntryCellsDecode(x.fields[0], st.mem, st.fixedSize, s);
    PlainField(x, st, 0, STRING, s);
  }

  predicate IsStruct(x: Struct) {
    x == STRUCT
  }

  lemma EntryOf(x: Struct)
    requires IsStruct(x)
    ensures |x.fields| == 2 && IsEntryField(x.fields[0]) && Addr(x, 0) == 4
  {
    EntryPlaced();
  }

  /** A record of a field that is neither required nor a fixed-count array, written out. */
  lemma PlainField(x: Struct, st: State, i: nat, wireType: nat, s: seq<byte>)
    requires StateFor(x, st) && i < |x.fields| && !x.fields[i].htype.Required? && !FixedCount(x.fields[i])
    ensures PlacedField(x.fields[i], Addr(x, i), |st.mem|)
    ensures var c := DecodeCells(x.fields[i], st.mem, Addr(x, i), st.fixedSize, wireType, s);
            c.Ok? && c.value.count == st.fixedSize
            ==> DecodeField(x, st, i, wireType, s) == Ok(st.(mem := c.value.mem), c.rest)
  {
    hide Placed, PlacedField, DecodeCells;
    PlacedEntry(x, i, |st.mem|);
    assert st.seen + {} == st.seen;
  }

  lemma NumbersAtFour()
    ensures LittleEndian(1, 4) == [1, 0, 0, 0] && FromLittleEndian([0, 0, 0, 0]) == 0
    ensures LittleEndian(1, 1) == [1]
  {
    assert LittleEndian(0, 3) == [0] + LittleEndian(0, 2) && LittleEndian(0, 2) == [0] + LittleEndian(0, 1);
    assert LittleEndian(0, 1) == [0] + LittleEndian(0, 0) && LittleEndian(0, 0) == [];
    assert [0, 0, 0, 0][1..] == [0, 0, 0] && [0, 0, 0][1..] == [0, 0] && [0, 0][1..] == [0] && [0][1..] == [];
    assert FromLittleEndian([0]) == 0 && FromLittleEndian([0, 0]) == 0 && FromLittleEndian([0, 0, 0]) == 0;
  }

  lemma BoolRecord(st: State)
    requires StateFor(STRUCT, st) && |st.mem| == 8
    ensures DecodeField(STRUCT, st, 1, VARINT, [1]) == Ok(st.(mem := st.mem[5 := 1][6 := 1]), [])
  {
    var f := PARENT[1];
    assert PData(PARENT, 0) == 4 && PData(PARENT, 1) == 6;
    PlacedEntry(STRUCT, 1, 8);
    PlacedCells(f, 6, 8);
    NumbersAtFour();
    hide Placed, PlacedField, CellsFor, DecodeScalar, LittleEndian, FromLittleEndian;
    var slot := CursorSlot(st.mem, f, 6, st.fixedSize);
    OneBool(f, slot.data);
    assert DecodeSlot(f, slot, VARINT, [1]) == Ok(Slot(1, [1]), []);
    assert PutSlotAt(st.mem, f, 6, Slot(1, [1])) == st.mem[5 := 1][6 := 1];
    assert st.seen + {} == st.seen;
  }

  // ---- Both orders ----

  lemma ParentDefaults(m: Memory)
    requires |m| == 8 && Placed(STRUCT, 8)
    ensures var d := SetDefaults(STRUCT, m); Read(d, 0, 4) == [0, 0, 0, 0] && d[5] == 0 && d[6] == 0
  {
    assert PData(PARENT, 0) == 4 && PData(PARENT, 1) == 6;
    PlacedEntry(STRUCT, 0, 8);
    PlacedEntry(STRUCT, 1, 8);
    PlacedCells(PARENT[0], 4, 8);
    PlacedCells(PARENT[1], 6, 8);
    hide Placed, PlacedField, CellsFor;
    assert LittleEndian(0, 4) == [0, 0, 0, 0] && LittleEndian(0, 1) == [0] by { ZeroAtFour(); }
    hide LittleEndian;
    var m1 := DefaultField(PARENT[0], m, 4);
    assert m1 == PutSizeAt(m, PARENT[0], 4, 0);
    var m2 := DefaultField(PARENT[1], m1, 6);
    assert DefaultsFrom(STRUCT, m2, 2) == m2;
    assert DefaultsFrom(STRUCT, m1, 1) == m2;
  }

  lemma ZeroAtFour()
    ensures LittleEndian(0, 4) == [0, 0, 0, 0] && LittleEndian(0, 1) == [0]
  {
    assert LittleEndian(0, 3) == [0] + LittleEndian(0, 2) && LittleEndian(0, 2) == [0] + LittleEndian(0, 1);
    assert LittleEndian(0, 1) == [0] + LittleEndian(0, 0) && LittleEndian(0, 0) == [];
  }

  /** The record loop on an accepted record of entry i. */
  lemma RecordSteps(x: Struct, st: State, i: nat, key: seq<byte>, wireType: nat, payload: seq<byte>, tail: seq<byte>,
                    st': State)
    requires StateFor(x, st) && i < |x.fields| && WireTypeAgrees(x.fields[i], wireType)
    requires KeyBytes(x.fields[i].tag, wireType) == key && SkipField(wireType, payload) == Got((), [])
    requires DecodeField(x, st, i, wireType, payload) == Ok(st', [])
    ensures StateFor(x, st') && DecodeLoop(x, st, key + payload + tail) == DecodeLoop(x, st', tail)
  {
    hide Placed, DecodeField, DecodeLoop, SkipField, KeyBytes, WireTypeAgrees;
    LoopOfField(x, st, i, wireType, payload, tail);
  }

  lemma EntryStep(st: State, tail: seq<byte>)
    requires StateFor(STRUCT, st) && |st.mem| == 8 && Read(st.mem, 0, 4) == [0, 0, 0, 0]
    ensures DecodeLoop(STRUCT, st, [10, 3, 10, 1, 1] + tail) == DecodeLoop(STRUCT, st.(mem := ENTRY), tail)
  {
    hide Placed, DecodeField, DecodeLoop, SkipField, KeyBytes, Read;
    EntryRecord(STRUCT, st, [3, 10, 1, 1]);
    KeyIs(1, STRING);
    SkipEntry();
    RecordSteps(STRUCT, st, 0, [10], STRING, [3, 10, 1, 1], tail, st.(mem := ENTRY));
    assert [10] + [3, 10, 1, 1] + tail == [10, 3, 10, 1, 1] + tail;
  }

  lemma SkipEntry()
    ensures SkipField(STRING, [3, 10, 1, 1]) == Got((), [])
  {
    EntryPayload();
    hide Substream;
  }

  lemma BoolStep(st: State, tail: seq<byte>)
    requires StateFor(STRUCT, st) && |st.mem| == 8
    ensures DecodeLoop(STRUCT, st, [16, 1] + tail)
         == DecodeLoop(STRUCT, st.(mem := st.mem[5 := 1][6 := 1]), tail)
  {
    hide Placed, DecodeField, DecodeLoop, SkipField, KeyBytes;
    BoolRecord(st);
    KeyIs(2, VARINT);
    SkipBool();
    RecordSteps(STRUCT, st, 1, [16], VARINT, [1], tail, st.(mem := st.mem[5 := 1][6 := 1]));
    assert [16] + [1] + tail == [16, 1] + tail;
  }

  lemma SkipBool()
    ensures SkipField(VARINT, [1]) == Got((), [])
  {
    assert [1][1..] == [];
  }

  lemma NoChecks(st: State)
    requires st.fixedField == None
    ensures Finish(PARENT, Ended(st)) == Ok(st.mem, [])
  {
    assert RequiredBefore(PARENT, 0) == 0 && RequiredBefore(PARENT, 1) == 0 && RequiredBefore(PARENT, 2) == 0;
  }

  /** The records of two different fields, neither of them a fixed-count array: after the entry and then
      the bool both have arrived, after the bool and then the entry the bool and its has_ flag are lost. */
  lemma FieldOrderMatters(m: Memory, entry: seq<byte>, bool1: seq<byte>)
    requires |m| == 8 && entry == [10, 3, 10, 1, 1] && bool1 == [16, 1]
    ensures Placed(STRUCT, 8)
    ensures Decode(STRUCT, m, entry + bool1) == Ok([1, 0, 0, 0, 1, 1, 1, 0], [])
    ensures Decode(STRUCT, m, bool1 + entry) == Ok([1, 0, 0, 0, 1, 0, 0, 0], [])
  {
    hide Placed, DecodeLoop, SetDefaults, Read, Finish;
    ParentPlaced();
    ParentDefaults(m);
    var st := Start(SetDefaults(STRUCT, m));
    assert bool1 + [] == bool1 && entry + [] == entry;
    EntryStep(st, bool1);
    BoolStep(st.(mem := ENTRY), []);
    FinishLoop(st.(mem := ENTRY[5 := 1][6 := 1]));
    assert ENTRY[5 := 1][6 := 1] == [1, 0, 0, 0, 1, 1, 1, 0];
    BoolStep(st, entry);
    CountStays(st.mem);
    EntryStep(st.(mem := st.mem[5 := 1][6 := 1]), []);
    FinishLoop(st.(mem := ENTRY));
  }

  lemma FinishLoop(st: State)
    requires StateFor(STRUCT, st) && st.fixedField == None
    ensures Finish(PARENT, DecodeLoop(STRUCT, st, [])) == Ok(st.mem, [])
  {
    LoopOfNothing(STRUCT, st);
    NoChecks(st);
    hide Placed, DecodeLoop, Finish;
  }

  lemma CountStays(m: Memory)
    requires |m| == 8
    ensures Read(m[5 := 1][6 := 1], 0, 4) == Read(m, 0, 4)
  {
  }

  // ---- A harmless overrun ----

  /** A fixed-count bool array with one entry, and three required bools right behind it. */
  const COVERED: seq<Field> := [
    Field(1, Static, Repeated, Bool, 0, 0, 1, 1, Null),
    Field(2, Static, Required, Bool, 0, 0, 1, 0, Null),
    Field(3, Static, Required, Bool, 0, 0, 1, 0, Null),
    Field(4, Static, Required, Bool, 0, 0, 1, 0, Null)]

  /** The defaults of this table overrun its array, and yet write no byte that the table does not own:
      the length of the arrays alone does not decide. */
  lemma ShortButContained(k: nat)
    ensures !LongReached(COVERED)
    ensures TableOverruns(COVERED, 0, k) ==> TableOwns(COVERED, 0, k)
  {
    assert !FieldLong(COVERED[0]);
    assert PData(COVERED, 0) == 0 && PData(COVERED, 1) == 1 && PData(COVERED, 2) == 2 && PData(COVERED, 3) == 3;
    if TableOverruns(COVERED, 0, k) {
      var i := Overrunner(COVERED, 0, k);
      assert i == 0 && 1 <= k < 4;
      assert OwnsFor(COVERED, 0, k, k);
    }
  }
}
