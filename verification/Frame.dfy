/** What decoding may write, for every table: exactly the bytes that the values and the defaults of a
    record are stored in, all the way down through submessages, whether it succeeds or fails. */
module Frame {
  import opened Bits
  import opened Wire
  import opened Descriptor
  import opened StructMemory
  import opened Decoding
  import opened Overrun

  /** A record of a field at p may write byte k. A oneof submessage may be cleared as a whole; any other
      submessage is written entry by entry. */
  ghost predicate FieldWrites(f: Field, p: nat, k: nat)
    decreases f, 1
  {
    || InSizeCell(f, p, k)
    || (if f.ltype.Submessage? && f.ptr.Sub? then
          || (f.htype.Oneof? && InCell(p, f.dataSize, k))
          || exists e: nat :: e < Entries(f) && EntryWrites(f, p, e, k)
        else InCell(p, DataLen(f), k))
  }

  /** A record may write byte k for entry e of a submessage field: its default values, which only array
      entries and oneof members are given on arrival, and its records. */
  ghost predicate EntryWrites(f: Field, p: nat, e: nat, k: nat)
    requires f.ptr.Sub?
    decreases f, 0
  {
    || ((f.htype.Repeated? || f.htype.Oneof?) && DefaultsWrite(f.ptr.fields, EntryAddr(f, p, e), k))
    || RecordsWrite(f.ptr.fields, EntryAddr(f, p, e), k)
  }

  /** The records of a struct may write byte k. The empty table's terminator is a bool at the start of the
      struct. */
  ghost predicate RecordsWrite(fields: seq<Field>, base: nat, k: nat)
    decreases fields, 1
  {
    || (fields == [] && k == base)
    || exists i: nat :: i < |fields| && RecordsFor(fields, base, i, k)
  }

  ghost predicate RecordsFor(fields: seq<Field>, base: nat, i: nat, k: nat)
    requires i < |fields|
    decreases fields, 0
  {
    FieldWrites(fields[i], base + PData(fields, i), k)
  }

  /** A record of the field may write byte k outside the field's cells: the zero count of a short
      fixed-count array in a submessage. */
  ghost predicate Spills(f: Field, p: nat, k: nat) {
    FieldWrites(f, p, k) && !InCells(f, p, k)
  }

  lemma EntryUnwritten(fields: seq<Field>, base: nat, k: nat, i: nat)
    requires i < |fields| && !RecordsWrite(fields, base, k)
    ensures !FieldWrites(fields[i], base + PData(fields, i), k)
  {
    hide PData, FieldWrites;
    assert !RecordsFor(fields, base, i, k);
  }

  lemma BaseUnwritten(fields: seq<Field>, base: nat, k: nat)
    requires !RecordsWrite(fields, base, k)
    ensures fields == [] ==> k != base
  {
  }

  // ---- Default values ----

  lemma DefaultsFrame(x: Struct, m: Memory, k: nat)
    requires Placed(x, |m|) && k < |m| && !DefaultsWrite(x.fields, x.base, k)
    ensures SetDefaults(x, m)[k] == m[k]
  {
    hide Placed, DefaultsWrite, WritesFrom, SetDefaults, DefaultsFrom;
    DefaultsByte(x, m, m, 0, k);
  }

  // ---- One field ----

  lemma SubmessageFrame(f: Field, m: Memory, p: nat, e: nat, s: seq<byte>, k: nat)
    requires PlacedField(f, p, |m|) && f.ltype.Submessage? && e < Entries(f) && k < |m| && !FieldWrites(f, p, k)
    ensures DecodeSubmessage(f, m, p, e, s).value[k] == m[k]
    decreases f, 1
  {
    hide WellFormed, Reaches, RecordsWrite, DefaultsWrite, SetDefaults, DecodeNoinit, Substream, CellsFor;
    PlacedSub(f, p, |m|, e);
    assert !EntryWrites(f, p, e, k);
    if Substream(s).Got? {
      var m0 := if f.htype.Repeated? then SetDefaults(SubAt(f, p, e), m) else m;
      if f.htype.Repeated? {
        DefaultsFrame(SubAt(f, p, e), m, k);
      }
      NoinitFrame(SubAt(f, p, e), m0, Substream(s).value, k);
    }
  }

  lemma ResetFrame(f: Field, m: Memory, p: nat, k: nat)
    requires PlacedField(f, p, |m|) && f.ltype.Submessage? && f.htype.Oneof? && k < |m| && !FieldWrites(f, p, k)
    ensures ResetMember(f, m, p)[k] == m[k]
    decreases f, 1
  {
    hide WellFormed, Reaches, RecordsWrite, DefaultsWrite, SetDefaults, SlotAt;
    PlacedCells(f, p, |m|);
    if SlotAt(m, f, p).size != f.tag {
      PlacedSub(f, p, |m|, 0);
      assert 0 < Entries(f) && !EntryWrites(f, p, 0, k);
      DefaultsFrame(SubAt(f, p, 0), Write(m, p, Zeros(f.dataSize)), k);
    }
  }

  lemma SubFieldFrame(f: Field, m: Memory, p: nat, count: nat, s: seq<byte>, k: nat)
    requires PlacedField(f, p, |m|) && f.ltype.Submessage? && k < |m| && !FieldWrites(f, p, k)
    ensures DecodeSubField(f, m, p, count, s).value.mem[k] == m[k]
    decreases f, 2
  {
    hide DecodeSubmessage, PlacedField, PutSizeAt, CursorSlot, ResetMember, FieldWrites;
    PlacedCells(f, p, |m|);
    NotSizeCell(f, p, k);
    var n := CursorSlot(m, f, p, count).size;
    match f.htype
    case Required => SubmessageFrame(f, m, p, 0, s, k);
    case Optional =>
      PutSizeAtByte(m, f, p, 1, k);
      SubmessageFrame(f, if f.sizeOffset != 0 then PutSizeAt(m, f, p, 1) else m, p, 0, s, k);
    case Oneof =>
      ResetFrame(f, m, p, k);
      PutSizeAtByte(ResetMember(f, m, p), f, p, f.tag, k);
      SubmessageFrame(f, PutSizeAt(ResetMember(f, m, p), f, p, f.tag), p, 0, s, k);
    case Repeated =>
      PutSizeAtByte(m, f, p, (n + 1) % TWO32, k);
      if n < f.arraySize {
        SubmessageFrame(f, PutSizeAt(m, f, p, (n + 1) % TWO32), p, n, s, k);
      }
  }

  lemma NotSizeCell(f: Field, p: nat, k: nat)
    requires !FieldWrites(f, p, k)
    ensures !InSizeCell(f, p, k)
    ensures !f.ltype.Submessage? ==> !InCells(f, p, k)
  {
  }

  /** A record of a field, decoded or rejected, writes only bytes that the field may write. */
  lemma CellsFrame(f: Field, m: Memory, p: nat, count: nat, wireType: nat, s: seq<byte>, k: nat)
    requires PlacedField(f, p, |m|) && k < |m| && !FieldWrites(f, p, k)
    ensures DecodeCells(f, m, p, count, wireType, s).value.mem[k] == m[k]
    decreases f, 3
  {
    hide DecodeSlot, DecodeSubField, PutSlotAt, CursorSlot, FieldWrites, FieldReaches, WellFormedField;
    PlacedCells(f, p, |m|);
    if f.ltype.Submessage? {
      SubFieldFrame(f, m, p, count, s, k);
    } else {
      NotSizeCell(f, p, k);
      PutSlotAtByte(m, f, p, DecodeSlot(f, CursorSlot(m, f, p, count), wireType, s).value, k);
    }
  }

  // ---- Messages ----

  lemma FieldFrame(x: Struct, st: State, i: nat, wireType: nat, s: seq<byte>, k: nat)
    requires StateFor(x, st) && i < |x.fields| && k < |st.mem| && !FieldWrites(x.fields[i], Addr(x, i), k)
    ensures DecodeField(x, st, i, wireType, s).value.mem[k] == st.mem[k]
    decreases x.fields, 0
  {
    hide DecodeCells, Placed, PlacedField, FieldWrites;
    PlacedEntry(x, i, |st.mem|);
    CellsFrame(x.fields[i], st.mem, Addr(x, i), Enter(x.fields, st, i).fixedSize, wireType, s, k);
  }

  /** One record, decoded or rejected, writes only bytes that its own field may write, and none if the
      field is unknown. */
  lemma RecordFrame(x: Struct, st: State, tag: nat, wireType: nat, s: seq<byte>, k: nat)
    requires StateFor(x, st) && k < |st.mem|
    requires var i := IndexOf(x.fields, tag); i < |x.fields| ==> !FieldWrites(x.fields[i], Addr(x, i), k)
    requires x.fields == [] && tag == 0 ==> k != x.base
    ensures DecodeRecord(x, st, tag, wireType, s).value.mem[k] == st.mem[k]
    decreases x.fields, 1
  {
    hide Placed, DecodeField, SkipField, FieldWrites, DecodeVarint32;
    var i := IndexOf(x.fields, tag);
    if i < |x.fields| {
      FieldFrame(x, st, i, wireType, s, k);
    }
  }

  lemma {:induction false} LoopFrame(x: Struct, st: State, s: seq<byte>, k: nat)
    requires StateFor(x, st) && k < |st.mem| && !RecordsWrite(x.fields, x.base, k)
    ensures DecodeLoop(x, st, s).st.mem[k] == st.mem[k]
    decreases x.fields, 2, |s|
  {
    hide Placed, DecodeRecord, DecodeVarint32, FieldWrites, IndexOf, RecordsWrite;
    if s != [] && DecodeVarint32(s).Got? && DecodeVarint32(s).value != 0 {
      var key, rest := DecodeVarint32(s).value, DecodeVarint32(s).rest;
      var i := IndexOf(x.fields, key / 8);
      if i < |x.fields| {
        EntryUnwritten(x.fields, x.base, k, i);
      }
      BaseUnwritten(x.fields, x.base, k);
      RecordFrame(x, st, key / 8, key % 8, rest, k);
      var r := DecodeRecord(x, st, key / 8, key % 8, rest);
      if r.Ok? {
        LoopFrame(x, r.value, r.rest, k);
      }
    }
  }

  lemma NoinitFrame(x: Struct, m: Memory, s: seq<byte>, k: nat)
    requires Placed(x, |m|) && k < |m| && !RecordsWrite(x.fields, x.base, k)
    ensures DecodeNoinit(x, m, s).value[k] == m[k]
    decreases x.fields, 3
  {
    hide Placed, DecodeLoop, RecordsWrite;
    LoopFrame(x, Start(m), s, k);
  }

  /** pb_decode, successful or not, leaves every byte alone that neither the defaults nor the records of
      the table are stored in. */
  lemma DecodeFrame(x: Struct, m: Memory, s: seq<byte>, k: nat)
    requires Placed(x, |m|) && k < |m|
    requires !DefaultsWrite(x.fields, x.base, k) && !RecordsWrite(x.fields, x.base, k)
    ensures Decode(x, m, s).value[k] == m[k]
  {
    hide DecodeNoinit, SetDefaults, Placed, RecordsWrite, DefaultsWrite;
    DefaultsFrame(x, m, k);
    NoinitFrame(x, SetDefaults(x, m), s, k);
  }
}
