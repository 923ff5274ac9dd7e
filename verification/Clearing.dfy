/** Every byte that a record of a field may write outside the field's cells is cleared by some accepted
    record: exactly which bytes records write beyond their fields, and when they write none. */
module Clearing {
  import opened Bits
  import opened Wire
  import opened Varint32
  import opened Descriptor
  import opened StructMemory
  import opened Encoding
  import opened Decoding
  import opened Effects
  import opened Arrivals
  import opened Overrun
  import opened Frame
  import opened Messages
  import opened EncodeErrors
  import opened SizeBounds
  import opened Heeded
  import opened PartialDecode
  import opened RoundTrip
  import opened Planted
  import opened Accepted
  import SentStrings

  // ---- Where spills are ----

  /** What is written outside the cells lies behind the data, which is not empty. */
  lemma SpillBehind(f: Field, p: nat, k: nat)
    requires WellFormedField(f) && Spills(f, p, k)
    ensures f.ltype.Submessage? && p < p + DataLen(f) <= k
    decreases f
  {
    hide WellFormed, RecordsWrite, DefaultsWrite, InCells;
    var e := SpillEntry(f, p, k);
    EntryInData(f, p, e);
    var y := EntryAddr(f, p, e);
    OutsideEntry(f, p, e, k);
    if RecordsWrite(f.ptr.fields, y, k) {
      RecordsBehind(f.ptr.fields, f.dataSize, y, k);
    } else {
      DefaultsBehind(f.ptr.fields, f.dataSize, y, k);
    }
    BehindData(f, p, e, k);
  }

  lemma SpillEntry(f: Field, p: nat, k: nat) returns (e: nat)
    requires WellFormedField(f) && Spills(f, p, k)
    ensures f.ltype.Submessage? && f.ptr.Sub? && e < Entries(f) && EntryWrites(f, p, e, k)
  {
    hide WellFormed, RecordsWrite, DefaultsWrite;
    if !f.htype.Repeated? {
      SingleLen(f);
    }
    assert FieldWrites(f, p, k) && !InSizeCell(f, p, k) && !InCell(p, DataLen(f), k);
    e :| e < Entries(f) && EntryWrites(f, p, e, k);
  }

  lemma OutsideEntry(f: Field, p: nat, e: nat, k: nat)
    requires !InCells(f, p, k) && e < Entries(f)
    ensures !InCell(EntryAddr(f, p, e), f.dataSize, k)
  {
    EntryInData(f, p, e);
  }

  lemma BehindData(f: Field, p: nat, e: nat, k: nat)
    requires e < Entries(f) && f.dataSize > 0 && EntryAddr(f, p, e) + f.dataSize <= k && !InCells(f, p, k)
    ensures p < p + DataLen(f) <= k
  {
    EntryInData(f, p, e);
  }

  lemma RecordsBehind(fields: seq<Field>, size: nat, base: nat, k: nat)
    requires WellFormed(fields, size) && RecordsWrite(fields, base, k) && !InCell(base, size, k)
    ensures size > 0 && base + size <= k
    decreases fields
  {
    if fields == [] && k == base {
    } else {
      var i: nat :| i < |fields| && RecordsFor(fields, base, i, k);
      FieldOf(fields, size, i);
      EntryCells(fields, i, size);
      hide WellFormed, PData, FieldWrites, DataLen, SizeLen;
      assert Spills(fields[i], base + PData(fields, i), k);
      SpillBehind(fields[i], base + PData(fields, i), k);
    }
  }

  lemma DefaultsBehind(fields: seq<Field>, size: nat, base: nat, k: nat)
    requires WellFormed(fields, size) && DefaultsWrite(fields, base, k) && !InCell(base, size, k)
    ensures size > 0 && base + size <= k
    decreases fields
  {
    var i := Writer(fields, base, k);
    FieldOf(fields, size, i);
    EntryCells(fields, i, size);
    hide WellFormed, PData, DefaultWrites, DataLen, SizeLen;
    DefaultBehind(fields[i], base + PData(fields, i), k);
  }

  lemma DefaultBehind(f: Field, p: nat, k: nat)
    requires WellFormedField(f) && DefaultWrites(f, p, k) && !InCells(f, p, k)
    ensures p < p + DataLen(f) <= k
    decreases f
  {
    hide WellFormed, DefaultsWrite;
    if !FixedCount(f) {
      SingleLen(f);
      DefaultsBehind(f.ptr.fields, f.dataSize, EntryAddr(f, p, 0), k);
    }
  }

  /** Below a spilled byte everything behind the data is spilled too. */
  lemma SpillDown(f: Field, p: nat, k: nat, k': nat)
    requires WellFormedField(f) && Spills(f, p, k) && p + DataLen(f) <= k' <= k && !InCells(f, p, k')
    ensures Spills(f, p, k')
    decreases f
  {
    hide WellFormed, RecordsWrite, DefaultsWrite, InCells;
    var e := SpillEntry(f, p, k);
    EntryInData(f, p, e);
    OutsideEntry(f, p, e, k);
    var y := EntryAddr(f, p, e);
    if RecordsWrite(f.ptr.fields, y, k) {
      RecordsDown(f.ptr.fields, f.dataSize, y, k, k');
    } else {
      DefaultsDown(f.ptr.fields, f.dataSize, y, k, k');
    }
    assert EntryWrites(f, p, e, k');
  }

  lemma RecordsDown(fields: seq<Field>, size: nat, base: nat, k: nat, k': nat)
    requires WellFormed(fields, size) && RecordsWrite(fields, base, k) && !InCell(base, size, k)
    requires base + size <= k' <= k
    ensures RecordsWrite(fields, base, k')
    decreases fields
  {
    if fields == [] && k == base {
    } else {
      var i: nat :| i < |fields| && RecordsFor(fields, base, i, k);
      FieldOf(fields, size, i);
      EntryCells(fields, i, size);
      hide WellFormed, PData, FieldWrites, DataLen, SizeLen;
      assert Spills(fields[i], base + PData(fields, i), k);
      SpillDown(fields[i], base + PData(fields, i), k, k');
      assert RecordsFor(fields, base, i, k');
    }
  }

  lemma DefaultsDown(fields: seq<Field>, size: nat, base: nat, k: nat, k': nat)
    requires WellFormed(fields, size) && DefaultsWrite(fields, base, k) && !InCell(base, size, k)
    requires base + size <= k' <= k
    ensures DefaultsWrite(fields, base, k')
    decreases fields
  {
    var i := Writer(fields, base, k);
    FieldOf(fields, size, i);
    EntryCells(fields, i, size);
    hide WellFormed, PData, DefaultWrites, DataLen, SizeLen;
    DefaultDown(fields[i], base + PData(fields, i), k, k');
    assert WritesFor(fields, base, i, k');
  }

  lemma DefaultDown(f: Field, p: nat, k: nat, k': nat)
    requires WellFormedField(f) && DefaultWrites(f, p, k) && !InCells(f, p, k)
    requires p + DataLen(f) <= k' <= k
    ensures DefaultWrites(f, p, k')
    decreases f
  {
    hide WellFormed, DefaultsWrite;
    if !FixedCount(f) {
      SingleLen(f);
      DefaultsDown(f.ptr.fields, f.dataSize, EntryAddr(f, p, 0), k, k');
    }
  }

  // ---- A struct whose encoding clears a byte ----

  /** Decoding the encoding of a over a fresh struct clears byte k. */
  ghost predicate StructClears(x: Struct, len: nat, a: Memory, k: nat) {
    && Placed(x, len) && |a| == x.size && EncodeMessage(x.fields, a).Some?
    && forall m: Memory :: |m| == len && k < len && Fresh(x.fields, View(x, m))
         ==> DecodeNoinit(x, m, EncodeMessage(x.fields, a).value).value[k] == 0
  }

  /** A record with item d clears byte k, from every memory that is ready for its entry e. */
  ghost predicate Clears(f: Field, p: nat, len: nat, e: nat, d: seq<byte>, k: nat) {
    && PlacedField(f, p, len) && k < len && e < Entries(f) && f.ltype.Submessage? && ItemFor(f, d) && ValidItem(f, d)
    && (Implicit(f) ==> !IsDefault(f, Slot(0, d)))
    && forall m: Memory, count: nat :: |m| == len && Ready(f, p, m, count, e)
         ==> DecodeCells(f, m, p, count, STRING, Payload(f, d)).value.mem[k] == 0
  }

  lemma ClearsFacts(f: Field, p: nat, len: nat, e: nat, d: seq<byte>, k: nat)
    requires Clears(f, p, len, e, d, k)
    ensures e < Entries(f) && f.ltype.Submessage? && ItemFor(f, d) && ValidItem(f, d) && k < len
    ensures Implicit(f) ==> !IsDefault(f, Slot(0, d))
  {
  }

  lemma DefaultsClear(x: Struct, m: Memory, k: nat)
    requires Placed(x, |m|) && k < |m| && DefaultsWrite(x.fields, x.base, k) && !InCell(x.base, x.size, k)
    ensures SetDefaults(x, m)[k] == 0
  {
    hide Placed, SetDefaults, DefaultsWrite, DefaultsFrom, WritesFrom;
    var zeros: Memory := Zeros(|m|);
    DefaultsByte(x, m, zeros, 0, k);
    DefaultsSpill(x, zeros);
  }

  /** Records of a struct leave a zero byte outside it zero. */
  lemma StaysZero(x: Struct, st: State, s: seq<byte>, k: nat)
    requires StateFor(x, st) && k < |st.mem| && !InCell(x.base, x.size, k) && st.mem[k] == 0
    ensures DecodeLoop(x, st, s).st.mem[k] == 0
  {
    hide WellFormed, Reaches, DecodeLoop, RecordsHeed;
    if RecordsHeed(x.fields, x.base, k) {
      RecordsInside(x.fields, x.size, x.base, k);
    }
    LoopLowers(x, st, s, k);
  }

  /** One record of entry g, and what follows. */
  lemma RecordClears(x: Struct, st: State, g: nat, e: nat, d: seq<byte>, k: nat, tail: seq<byte>)
    requires StateFor(x, st) && g < |x.fields| && CanEnter(x, st, g) && Regular(x.fields[g])
    requires Clears(x.fields[g], Addr(x, g), |st.mem|, e, d, k) && !InCell(x.base, x.size, k)
    requires Ready(x.fields[g], Addr(x, g), st.mem, Enter(x.fields, st, g).fixedSize, e)
    ensures DecodeLoop(x, st, FieldKey(x.fields[g]) + Payload(x.fields[g], d) + tail).st.mem[k] == 0
  {
    var f := x.fields[g];
    PayloadShort(f, d);
    hide Placed, PlacedField, DecodeCells, DecodeLoop, KeyBytes, SkipField, Payload, ValidItem, Ready, MaxItem,
      ZeroDefault, OrdinaryField, FixedComplete, EncodeItem, WellFormedField, Addr;
    SentStrings.SentSkips(f, d);
    LoopOfField(x, st, g, STRING, Payload(f, d), tail);
    PlacedEntry(x, g, |st.mem|);
    var r := DecodeField(x, st, g, STRING, Payload(f, d));
    assert r.value.mem[k] == 0;
    if r.Ok? {
      StaysZero(x, r.value, tail, k);
    }
  }

  /** What an entry must find before it arrives, as a round trip finds it. */
  lemma AwaitsReady(x: Struct, st: State, g: nat, e: nat)
    requires StateFor(x, st) && g < |x.fields| && e < Entries(x.fields[g])
    requires WellFormedField(x.fields[g]) && x.fields[g].ltype.Submessage?
    requires if x.fields[g].htype.Repeated? then Loaded(x, st, g).size == e else Awaits(x, st, g)
    ensures Ready(x.fields[g], Addr(x, g), st.mem, Enter(x.fields, st, g).fixedSize, e)
  {
    hide Placed, PlacedField, ZeroDefault, TameField, CanEnter, Fresh, Addr, Enter, Read, FromLittleEndian, CellsFor,
      WellFormedField;
    PlacedEntry(x, g, |st.mem|);
    PlacedCells(x.fields[g], Addr(x, g), |st.mem|);
    LoadedCursor(x, st, g);
  }

  lemma SlotOfItems(f: Field, e: nat, d: seq<byte>)
    requires ItemFor(f, d) && e < Entries(f) && f.htype.Repeated?
    requires Sendable(f, SlotOf(f, e, d))
    ensures var t := SlotOf(f, e, d);
            && e < CountOf(f, t) <= f.arraySize && ItemAt(f, t.data, e) == d
            && forall j :: 0 <= j < CountOf(f, t) ==> ValidItem(f, ItemAt(f, t.data, j))
  {
    hide ValidItem, WellFormed, PutItem, ItemAt;
    ItemPutSame(f, Zeros(DataLen(f)), e, d);
  }

  /** Decoding the encoding of a struct with item d planted in entry g clears what the item clears. */
  lemma PlantedClears(x: Struct, m: Memory, g: nat, e: nat, d: seq<byte>, k: nat)
    requires Placed(x, |m|) && g < |x.fields| && Regular(x.fields[g]) && Ordinary(x.fields) && ZeroDefaults(x.fields)
    requires MaxFrom(x.fields, 0) < TWO32 && Fresh(x.fields, View(x, m))
    requires Clears(x.fields[g], Addr(x, g), |m|, e, d, k) && !InCell(x.base, x.size, k)
    requires Sendable(x.fields[g], SlotOf(x.fields[g], e, d))
    ensures var a := Plant(x.fields, x.size, g, SlotOf(x.fields[g], e, d));
            && EncodeMessage(x.fields, a).Some?
            && DecodeNoinit(x, m, EncodeMessage(x.fields, a).value).value[k] == 0
  {
    hide WellFormed, Reaches, GetSlot, Progress, ValidMessage, ValidSlot, WhichValid, ZeroDefaults, EncodeSlot,
      DecodeLoop, Present, Clears, Ordinary, Regular, View, Fresh, Plant, SlotOf, Tame, Spill, LongArrays, Encodable,
      Sendable, MaxFrom;
    var f := x.fields[g];
    ClearsFacts(f, Addr(x, g), |m|, e, d, k);
    var t := SlotOf(f, e, d);
    var a := Plant(x.fields, x.size, g, t);
    PlantedValid(x.fields, x.size, g, t);
    ValidEncodable(x.fields, a);
    EncodesExactly(x.fields, a);
    FromBound(x.fields, a, 0);
    OrdinaryFirst(x.fields);
    ProgressStart(x, a, m);
    var st := FromRoundTrip(x, a, Start(m), 0, g);
    PlantedSlot(x.fields, x.size, g, t);
    SlotClears(x, a, st, g, e, d, k);
  }

  lemma SlotClears(x: Struct, a: Memory, st: State, g: nat, e: nat, d: seq<byte>, k: nat)
    requires StateFor(x, st) && |a| == x.size && g < |x.fields| && Regular(x.fields[g]) && Progress(x, a, st, g)
    requires Clears(x.fields[g], Addr(x, g), |st.mem|, e, d, k) && !InCell(x.base, x.size, k)
    requires Sendable(x.fields[g], SlotOf(x.fields[g], e, d)) && GetSlot(x.fields, g, a) == SlotOf(x.fields[g], e, d)
    requires EncodeFrom(x.fields, a, g).Some? && |EncodeFrom(x.fields, a, g).value| < TWO32
    ensures DecodeLoop(x, st, EncodeFrom(x.fields, a, g).value).st.mem[k] == 0
  {
    hide WellFormed, Reaches, GetSlot, Progress, ValidSlot, EncodeSlot, DecodeLoop, Present, Regular, SlotOf,
      Awaits, Ready, Payload, ValidItem, IsDefault, DecodeCells, CanEnter, Loaded, SlotFor, EncodeItem, Addr,
      FieldKey;
    var f, t := x.fields[g], SlotOf(x.fields[g], e, d);
    RegularFacts(f);
    var b, rest := EncodeSlot(f, t).value, EncodeFrom(x.fields, a, g + 1).value;
    ProgressAwaits(x, a, st, g);
    AwaitsFacts(x, st, g);
    PayloadShort(f, d);
    if f.htype.Repeated? {
      SlotOfItems(f, e, d);
      ArrayEncoding(f, t);
      var st1 := ItemsUpTo(x, t.data, st, g, 0, e, CountOf(f, t), rest);
      ItemsHead(f, t.data, e, CountOf(f, t), rest);
      AwaitsReady(x, st1, g, e);
      RecordClears(x, st1, g, e, d, k, EncodeItems(f, t.data, e + 1, CountOf(f, t)).value + rest);
    } else {
      SlotOfSingle(f, e, d);
      SingleEncoding(f, t);
      AwaitsReady(x, st, g, e);
      RecordClears(x, st, g, e, d, k, rest);
    }
  }

  lemma RegularFacts(f: Field)
    requires Regular(f)
    ensures WellFormedField(f) && ZeroDefault(f) && TameField(f) && OrdinaryField(f)
  {
    OrdinaryTame(f);
    hide OrdinaryField, ZeroDefault, TameField, WellFormedField;
  }

  lemma AwaitsFacts(x: Struct, st: State, g: nat)
    requires StateFor(x, st) && g < |x.fields| && Awaits(x, st, g)
    ensures CanEnter(x, st, g)
    ensures x.fields[g].htype.Repeated? ==> Loaded(x, st, g).size == 0
  {
    hide Placed, CanEnter, Loaded, FreshItem, WellFormedField, ZeroDefault, TameField;
  }

  lemma SlotOfSingle(f: Field, e: nat, d: seq<byte>)
    requires WellFormedField(f) && |d| == f.dataSize && e < Entries(f) && !f.htype.Repeated?
    ensures e == 0 && SlotOf(f, e, d).data == d
  {
  }

  lemma ArrayEncoding(f: Field, t: Slot)
    requires SlotFor(f, t) && f.htype.Repeated? && f.ltype.Submessage? && 0 < CountOf(f, t) <= f.arraySize
    requires EncodeSlot(f, t).Some? && |EncodeSlot(f, t).value| < TWO32
    ensures EncodeItems(f, t.data, 0, CountOf(f, t)) == EncodeSlot(f, t)
  {
    hide EncodeItems, WellFormedField;
  }

  // ---- A record that clears a byte ----

  /** A submessage value with item d clears byte k: by its records, or by the defaults it is given. */
  ghost predicate ClearsSub(f: Field, p: nat, len: nat, e: nat, d: seq<byte>, k: nat) {
    && PlacedField(f, p, len) && f.ltype.Submessage? && e < Entries(f) && f.ptr.Sub?
    && (|| StructClears(SubAt(f, p, e), len, d, k)
        || ((f.htype.Repeated? || f.htype.Oneof?) && DefaultsWrite(f.ptr.fields, EntryAddr(f, p, e), k)))
  }

  lemma SubClears(f: Field, p: nat, m: Memory, e: nat, d: seq<byte>, k: nat)
    requires Regular(f) && ClearsSub(f, p, |m|, e, d, k) && ItemFor(f, d) && ValidItem(f, d) && k < |m|
    requires Placed(SubAt(f, p, e), |m|) && !InCell(EntryAddr(f, p, e), f.dataSize, k)
    requires !f.htype.Repeated? ==> Fresh(f.ptr.fields, View(SubAt(f, p, e), m))
    requires f.htype.Oneof? && DefaultsWrite(f.ptr.fields, EntryAddr(f, p, e), k) ==> m[k] == 0
    ensures DecodeSubmessage(f, m, p, e, Payload(f, d)).value[k] == 0
  {
    var x := SubAt(f, p, e);
    PayloadShort(f, d);
    ItemOfSub(f, d);
    hide WellFormed, Reaches, EncodeFrom, DecodeLoop, SetDefaults, Fresh, ValidItem, Payload, EncodeItem, View,
      Substream, VarintBytes, DefaultsWrite, OrdinaryField, MaxItem, Spill;
    var b := EncodeMessage(x.fields, d).value;
    DelimitedRoundTrip(b, []);
    assert Delimited(b) + [] == Delimited(b);
    var m0 := if f.htype.Repeated? then SetDefaults(x, m) else m;
    if f.htype.Repeated? {
      DefaultsFresh(x, m);
    }
    if !StructClears(x, |m|, d, k) {
      if f.htype.Repeated? {
        DefaultsClear(x, m, k);
      }
      StaysZero(x, Start(m0), b, k);
    }
  }

  lemma ItemOfSub(f: Field, d: seq<byte>)
    requires ItemFor(f, d) && f.ltype.Submessage? && EncodeItem(f, d).Some? && |EncodeItem(f, d).value| < TWO32
    ensures EncodeMessage(f.ptr.fields, d).Some? && |EncodeMessage(f.ptr.fields, d).value| < TWO32
    ensures EncodeItem(f, d).value == Delimited(EncodeMessage(f.ptr.fields, d).value)
  {
    hide WellFormed, EncodeFrom, VarintBytes;
  }

  lemma EntryClears(f: Field, p: nat, m: Memory, count: nat, e: nat, d: seq<byte>, k: nat)
    requires Regular(f) && ClearsSub(f, p, |m|, e, d, k) && ItemFor(f, d) && ValidItem(f, d) && k < |m|
    requires !InCells(f, p, k) && Ready(f, p, m, count, e) && f.htype.Repeated?
    ensures DecodeCells(f, m, p, count, STRING, Payload(f, d)).value.mem[k] == 0
  {
    hide PlacedField, DecodeSubmessage, PutSizeAt, CursorSlot, Fresh, View, StructClears, DefaultsWrite,
      Regular, InCells, ValidItem, Placed, Payload;
    PlacedCells(f, p, |m|);
    PlacedSub(f, p, |m|, e);
    OutsideEntry(f, p, e, k);
    SubClears(f, p, PutSizeAt(m, f, p, (e + 1) % TWO32), e, d, k);
  }

  lemma SingleClears(f: Field, p: nat, m: Memory, count: nat, d: seq<byte>, k: nat)
    requires Regular(f) && ClearsSub(f, p, |m|, 0, d, k) && ItemFor(f, d) && ValidItem(f, d) && k < |m|
    requires !InCells(f, p, k) && Ready(f, p, m, count, 0) && !f.htype.Repeated?
    ensures DecodeCells(f, m, p, count, STRING, Payload(f, d)).value.mem[k] == 0
  {
    RegularFacts(f);
    hide PlacedField, DecodeSubmessage, CursorSlot, Fresh, View, StructClears, DefaultsWrite, Regular, InCells,
      SentSize, ValidItem, Placed, Payload, Prepared, SlotAt, FieldSpill, LongBelow, TameField, ZeroDefault,
      OrdinaryField, WellFormedField, DecodeSubField;
    PlacedCells(f, p, |m|);
    PlacedSub(f, p, |m|, 0);
    OutsideEntry(f, p, 0, k);
    PreparedReady(f, m, p);
    if f.htype.Oneof? && DefaultsWrite(f.ptr.fields, EntryAddr(f, p, 0), k) {
      ResetClears(f, p, m, k);
    }
    SubClears(f, p, Prepared(f, m, p), 0, d, k);
    SubFieldSteps(f, m, p, count, Payload(f, d));
  }

  lemma ResetClears(f: Field, p: nat, m: Memory, k: nat)
    requires PlacedField(f, p, |m|) && CellsAt(f, p, |m|) && f.ltype.Submessage? && f.htype.Oneof? && f.ptr.Sub?
    requires k < |m| && !InCells(f, p, k) && SlotAt(m, f, p).size != f.tag
    requires DefaultsWrite(f.ptr.fields, EntryAddr(f, p, 0), k)
    ensures Prepared(f, m, p)[k] == 0
  {
    PlacedSub(f, p, |m|, 0);
    OutsideEntry(f, p, 0, k);
    hide WellFormed, Reaches, SetDefaults, DefaultsWrite, SlotAt, Write, PutSizeAt;
    DefaultsClear(SubAt(f, p, 0), Write(m, p, Zeros(f.dataSize)), k);
    PutSizeAtByte(ResetMember(f, m, p), f, p, f.tag, k);
  }

  lemma ClearsFrom(f: Field, p: nat, len: nat, e: nat, d: seq<byte>, k: nat)
    requires Regular(f) && ClearsSub(f, p, len, e, d, k) && ItemFor(f, d) && ValidItem(f, d) && k < len
    requires !InCells(f, p, k) && (Implicit(f) ==> !IsDefault(f, Slot(0, d)))
    ensures Clears(f, p, len, e, d, k)
  {
    hide Regular, ClearsSub, ValidItem, IsDefault, InCells, PlacedField, DecodeCells, Ready, Payload;
    assert PlacedField(f, p, len) && f.ltype.Submessage? && e < Entries(f) by { ClearsSubFacts(f, p, len, e, d, k); }
    forall m: Memory, count: nat | |m| == len && Ready(f, p, m, count, e)
      ensures DecodeCells(f, m, p, count, STRING, Payload(f, d)).value.mem[k] == 0
    {
      if f.htype.Repeated? {
        EntryClears(f, p, m, count, e, d, k);
      } else {
        SingleClears(f, p, m, count, d, k);
      }
    }
  }

  lemma ClearsSubFacts(f: Field, p: nat, len: nat, e: nat, d: seq<byte>, k: nat)
    requires ClearsSub(f, p, len, e, d, k)
    ensures PlacedField(f, p, len) && f.ltype.Submessage? && e < Entries(f)
  {
  }

  /** The entries of a regular submessage field are regular. */
  lemma RegularBelow(f: Field, g: nat)
    requires Regular(f) && f.ltype.Submessage? && f.ptr.Sub? && g < |f.ptr.fields|
    ensures Regular(f.ptr.fields[g]) && Ordinary(f.ptr.fields) && ZeroDefaults(f.ptr.fields)
    ensures MaxFrom(f.ptr.fields, 0) < TWO32
  {
    var sub := f.ptr.fields;
    FieldOf(sub, f.dataSize, g);
    TableBoundsField(sub, 0, g);
    hide WellFormed, MaxFrom, WellFormedField, MaxField, OrdinaryField, ZeroDefault;
    OrdinarySub(f);
    ZeroDefaultAt(sub, g);
    assert OrdinaryField(sub[g]);
    FieldBounds(sub[g]);
  }

  lemma OrdinarySub(f: Field)
    requires OrdinaryField(f) && ZeroDefault(f) && f.ltype.Submessage? && f.ptr.Sub?
    ensures Ordinary(f.ptr.fields) && ZeroDefaults(f.ptr.fields)
  {
    hide Ordinary, ZeroDefaults;
  }

  lemma FieldBounds(f: Field)
    requires f.htype.Repeated? ==> f.arraySize > 0
    ensures MaxItem(f) <= MaxField(f)
  {
    hide MaxItem;
    if f.htype.Repeated? {
      MulMono(1, f.arraySize, MAX_VARINT + MaxItem(f));
    }
  }

  /** Every byte that spills is cleared by a record that is accepted. */
  lemma SpillFound(f: Field, p: nat, len: nat, k: nat) returns (e: nat, d: seq<byte>)
    requires PlacedField(f, p, len) && Regular(f) && Spills(f, p, k) && k < len
    ensures Clears(f, p, len, e, d, k)
    decreases f
  {
    RegularFacts(f);
    e := SpillEntry(f, p, k);
    OutsideEntry(f, p, e, k);
    PlacedSub(f, p, len, e);
    hide PlacedField, WellFormed, Regular, RecordsWrite, DefaultsWrite, Clears, Spills, InCells, Reaches, ValidItem,
      ZeroDefault, OrdinaryField, TameField, IsDefault, Ordinary, ZeroDefaults, MaxFrom;
    var x := SubAt(f, p, e);
    if RecordsWrite(x.fields, x.base, k) {
      d := RecordsFound(x, len, k, f);
      ImplicitTold(f, d);
    } else {
      d := Zeros(f.dataSize);
      ZeroItemValid(f);
    }
    SpillsOutside(f, p, k);
    ClearsFrom(f, p, len, e, d, k);
  }

  lemma SpillsOutside(f: Field, p: nat, k: nat)
    requires Spills(f, p, k)
    ensures !InCells(f, p, k)
  {
    hide FieldWrites, InCells;
  }

  lemma ImplicitTold(f: Field, d: seq<byte>)
    requires ItemFor(f, d) && f.ltype.Submessage? && !AllDefault(f.ptr.fields, d, 0)
    ensures Implicit(f) ==> !IsDefault(f, Slot(0, d))
  {
    hide AllDefault, WellFormed;
  }

  /** In a submessage's struct. */
  lemma RecordsFound(x: Struct, len: nat, k: nat, f: Field) returns (a: Memory)
    requires Placed(x, len) && Regular(f) && f.ltype.Submessage? && f.ptr == Ptr.Sub(x.fields) && f.dataSize == x.size
    requires RecordsWrite(x.fields, x.base, k) && !InCell(x.base, x.size, k) && k < len
    ensures StructClears(x, len, a, k) && ItemFor(f, a) && ValidItem(f, a) && !AllDefault(x.fields, a, 0)
    decreases x.fields
  {
    if x.fields == [] && k == x.base {
    } else {
      var g: nat :| g < |x.fields| && RecordsFor(x.fields, x.base, g, k);
      RegularBelow(f, g);
      SpillsAsWell(x, g, k);
      PlacedEntry(x, g, len);
      var e, d := SpillFound(x.fields[g], Addr(x, g), len, k);
      a := PlantedFound(x, len, g, e, d, k);
      hide WellFormed, Reaches, StructClears, AllDefault;
    }
  }

  lemma SpillsAsWell(x: Struct, g: nat, k: nat)
    requires WellFormed(x.fields, x.size) && g < |x.fields| && RecordsFor(x.fields, x.base, g, k)
    requires !InCell(x.base, x.size, k)
    ensures Spills(x.fields[g], Addr(x, g), k)
  {
    EntryCells(x.fields, g, x.size);
    hide WellFormed, PData, FieldWrites, DataLen, SizeLen;
  }

  lemma PlantedFound(x: Struct, len: nat, g: nat, e: nat, d: seq<byte>, k: nat) returns (a: Memory)
    requires Placed(x, len) && g < |x.fields| && Regular(x.fields[g]) && Ordinary(x.fields) && ZeroDefaults(x.fields)
    requires MaxFrom(x.fields, 0) < TWO32 && Clears(x.fields[g], Addr(x, g), len, e, d, k)
    requires !InCell(x.base, x.size, k)
    ensures StructClears(x, len, a, k) && ValidMessage(x.fields, a) && !AllDefault(x.fields, a, 0)
  {
    hide WellFormed, Reaches, ValidItem, ValidMessage, Clears, Ordinary, Regular, View, Fresh, Plant, SlotOf,
      DecodeNoinit, EncodeFrom, AllDefault, MaxFrom, ZeroDefaults, IsDefault, Sendable, Encodable;
    var f := x.fields[g];
    ClearsFacts(f, Addr(x, g), len, e, d, k);
    SlotOfSendable(f, e, d);
    var t := SlotOf(f, e, d);
    a := Plant(x.fields, x.size, g, t);
    PlantedValid(x.fields, x.size, g, t);
    PlantedTold(x.fields, x.size, g, t);
    ValidEncodable(x.fields, a);
    EncodesExactly(x.fields, a);
    forall m: Memory | |m| == len && Fresh(x.fields, View(x, m))
      ensures DecodeNoinit(x, m, EncodeMessage(x.fields, a).value).value[k] == 0
    {
      PlantedClears(x, m, g, e, d, k);
    }
  }

  // ---- Exactly what records write ----

  /** The field's cells are zero, but for the count of an array that has received e entries. */
  ghost predicate Blank(f: Field, p: nat, m: Memory, count: nat, e: nat) {
    && PlacedField(f, p, |m|) && e < Entries(f)
    && CursorSlot(m, f, p, count) == Slot(if f.htype.Repeated? then e else 0, Zeros(DataLen(f)))
  }

  lemma ZeroFresh(fields: seq<Field>, size: nat)
    requires WellFormed(fields, size)
    ensures Fresh(fields, Zeros(size))
    decreases fields
  {
    hide WellFormed, FreshSlot, GetSlot, WellFormedField, DataLen, SlotFor;
    forall i | 0 <= i < |fields|
      ensures SlotFor(fields[i], GetSlot(fields, i, Zeros(size)))
          && FreshSlot(fields[i], GetSlot(fields, i, Zeros(size)))
    {
      FieldOf(fields, size, i);
      WellFormedSlot(fields, i, Zeros(size));
      ZeroSlot(fields, size, i);
      ZeroSlotFresh(fields[i]);
    }
  }

  lemma ZeroSlotFresh(f: Field)
    requires WellFormedField(f) && SlotFor(f, Slot(0, Zeros(DataLen(f))))
    ensures FreshSlot(f, Slot(0, Zeros(DataLen(f))))
    decreases f
  {
    hide WellFormed, Fresh, IsDefault;
    if !f.htype.Repeated? {
      SingleLen(f);
      if f.ltype.Submessage? {
        ZeroFresh(f.ptr.fields, f.dataSize);
      } else if Implicit(f) && !f.ltype.FixedLengthBytes? {
        ZerosAreDefault(f);
      }
    }
  }

  lemma BlankReady(f: Field, p: nat, m: Memory, count: nat, e: nat)
    requires Blank(f, p, m, count, e)
    ensures Ready(f, p, m, count, e)
  {
    hide FieldReaches, CellsFor, Fresh, FromLittleEndian, Read, WellFormed;
    PlacedCells(f, p, |m|);
    if !f.htype.Repeated? {
      SingleLen(f);
    }
    if f.ltype.Submessage? {
      ZeroFresh(f.ptr.fields, f.dataSize);
    }
  }

  /** A memory with such cells. */
  lemma BlankMemory(f: Field, p: nat, m: Memory, e: nat) returns (m': Memory)
    requires PlacedField(f, p, |m|) && e < Entries(f) && forall k :: 0 <= k < |m| && InCells(f, p, k) ==> m[k] == 0
    ensures Blank(f, p, m', e, e)
    ensures |m'| == |m| && forall k :: 0 <= k < |m| && !InSizeCell(f, p, k) ==> m'[k] == m[k]
  {
    hide FieldReaches, LittleEndian, FromLittleEndian, WellFormedField, DataLen;
    PlacedCells(f, p, |m|);
    ZeroCells(f, p, m);
    m' := if Counted(f) then PutSizeAt(m, f, p, e) else m;
    if Counted(f) {
      FieldSizes(f);
      SlotAtPutSize(m, f, p, e);
      ArrayBounds(f, e);
      CountStored(f, e);
    }
  }

  lemma ZeroCells(f: Field, p: nat, m: Memory)
    requires CellsFor(f, p, |m|) && forall k :: 0 <= k < |m| && InCells(f, p, k) ==> m[k] == 0
    ensures SlotAt(m, f, p) == Slot(0, Zeros(DataLen(f)))
  {
    hide DataLen, SizeLen, FromLittleEndian;
    assert Read(m, p, DataLen(f)) == Zeros(DataLen(f));
    if SizeLen(f) > 0 {
      assert Read(m, p + f.sizeOffset, SizeLen(f)) == Zeros(SizeLen(f));
      ZerosValue(SizeLen(f));
    }
  }

  /** Every record of the field, accepted or rejected, leaves byte k as it was, whatever memory holds. */
  ghost predicate Stays(f: Field, p: nat, len: nat, k: nat)
    requires PlacedField(f, p, len) && k < len
  {
    forall m: Memory, count: nat, wireType: nat, s: seq<byte> :: |m| == len
      ==> DecodeCells(f, m, p, count, wireType, s).value.mem[k] == m[k]
  }

  /** A byte outside the field's cells stays if and only if it does not spill. */
  lemma SpillsExactly(f: Field, p: nat, len: nat, k: nat)
    requires PlacedField(f, p, len) && Regular(f) && k < len && !InCells(f, p, k)
    ensures Stays(f, p, len, k) <==> !Spills(f, p, k)
  {
    hide PlacedField, DecodeCells, FieldWrites, Regular, Clears, InCells;
    if !Spills(f, p, k) {
      forall m: Memory, count: nat, wireType: nat, s: seq<byte> | |m| == len
        ensures DecodeCells(f, m, p, count, wireType, s).value.mem[k] == m[k]
      {
        CellsFrame(f, m, p, count, wireType, s, k);
      }
    } else {
      var e, d := SpillFound(f, p, len, k);
      ClearsFacts(f, p, len, e, d, k);
      var m := BlankMemory(f, p, seq(len, j requires 0 <= j < len => if InCells(f, p, j) then 0 else 1), e);
      BlankReady(f, p, m, e, e);
      SizeInCells(f, p, k);
      ClearsAt(f, p, m, e, e, d, k);
      assert DecodeCells(f, m, p, e, STRING, Payload(f, d)).value.mem[k] != m[k];
    }
  }

  lemma SizeInCells(f: Field, p: nat, k: nat)
    requires !InCells(f, p, k)
    ensures !InSizeCell(f, p, k)
  {
  }

  lemma ClearsAt(f: Field, p: nat, m: Memory, count: nat, e: nat, d: seq<byte>, k: nat)
    requires Clears(f, p, |m|, e, d, k) && Ready(f, p, m, count, e)
    ensures PlacedField(f, p, |m|) && k < |m| && ItemFor(f, d) && ValidItem(f, d)
    ensures DecodeCells(f, m, p, count, STRING, Payload(f, d)).value.mem[k] == 0
  {
    hide PlacedField, DecodeCells, Ready, ValidItem, IsDefault, WellFormedField, Payload;
  }

  /** All records of a field stay in its cells if and only if nothing spills. */
  lemma RecordsStayExactly(f: Field, p: nat, len: nat)
    requires PlacedField(f, p, len) && Regular(f)
    ensures (forall k: nat :: k < len && !InCells(f, p, k) ==> Stays(f, p, len, k))
       <==> forall k: nat :: k < len ==> !Spills(f, p, k)
  {
    hide PlacedField, Stays, FieldWrites, Regular, InCells;
    forall k: nat | k < len && !InCells(f, p, k)
      ensures Stays(f, p, len, k) <==> !Spills(f, p, k)
    {
      SpillsExactly(f, p, len, k);
    }
  }
}
