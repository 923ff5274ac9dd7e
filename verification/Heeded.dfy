/** Which bytes the records of a field may leave nonzero or look at. Every other byte they leave as it was
    or clear, and what they do does not depend on it. */
module Heeded {
  import opened Bits
  import opened Wire
  import opened Descriptor
  import opened StructMemory
  import opened Encoding
  import opened Decoding

  // ---- Bytes that matter ----

  /** Some value of the type has a byte other than zero: not so for a string with room for the terminator
      only, and for bytes with room for the size only. */
  predicate Telling(f: Field) {
    !(f.ltype.String? && f.dataSize == 1) && !(f.ltype.Bytes? && f.dataSize == SIZE_BYTES)
  }

  predicate DefaultTells(f: Field) {
    f.ptr.Default? && exists k :: 0 <= k < |f.ptr.bytes| && f.ptr.bytes[k] != 0
  }

  /** Byte t of the size cell. The which_ cell of a oneof member that is not a submessage is only ever
      stored, and holds the member's tag then. */
  predicate SizeHeeded(f: Field, t: nat)
    requires t < SizeLen(f)
  {
    f.htype.Oneof? && !f.ltype.Submessage? ==> LittleEndian(f.tag, SIZE_BYTES)[t] != 0
  }

  /** A record of a field at p may leave byte k nonzero, or looks at it. */
  ghost predicate Heeds(f: Field, p: nat, k: nat)
    decreases f, 1
  {
    || (InSizeCell(f, p, k) && SizeHeeded(f, k - (p + f.sizeOffset)))
    || (if f.ltype.Submessage? && f.ptr.Sub? then
          exists e: nat :: e < Entries(f) && EntryHeeds(f, p, e, k)
        else InCell(p, DataLen(f), k) && (Telling(f) || DefaultTells(f)))
  }

  ghost predicate EntryHeeds(f: Field, p: nat, e: nat, k: nat)
    requires f.ptr.Sub?
    decreases f, 0
  {
    RecordsHeed(f.ptr.fields, EntryAddr(f, p, e), k)
  }

  ghost predicate RecordsHeed(fields: seq<Field>, base: nat, k: nat)
    decreases fields, 1
  {
    || (fields == [] && k == base)
    || exists i: nat :: i < |fields| && HeedsFor(fields, base, i, k)
  }

  ghost predicate HeedsFor(fields: seq<Field>, base: nat, i: nat, k: nat)
    requires i < |fields|
    decreases fields, 0
  {
    Heeds(fields[i], base + PData(fields, i), k)
  }

  lemma EntryUnheeded(fields: seq<Field>, base: nat, k: nat, i: nat)
    requires i < |fields| && !RecordsHeed(fields, base, k)
    ensures !Heeds(fields[i], base + PData(fields, i), k)
  {
    hide PData, Heeds;
    assert !HeedsFor(fields, base, i, k);
  }

  lemma BaseUnheeded(fields: seq<Field>, base: nat, k: nat)
    requires !RecordsHeed(fields, base, k)
    ensures fields == [] ==> k != base
  {
  }

  /** They are bytes of the field's own cells. */
  lemma HeededInside(f: Field, p: nat, k: nat)
    requires WellFormedField(f) && Heeds(f, p, k)
    ensures InCells(f, p, k)
    decreases f
  {
    hide WellFormed, RecordsHeed, SizeHeeded;
    if !InSizeCell(f, p, k) && f.ltype.Submessage? {
      var e: nat :| e < Entries(f) && EntryHeeds(f, p, e, k);
      RecordsInside(f.ptr.fields, f.dataSize, EntryAddr(f, p, e), k);
      EntryInData(f, p, e);
    }
  }

  lemma RecordsInside(fields: seq<Field>, size: nat, base: nat, k: nat)
    requires WellFormed(fields, size) && RecordsHeed(fields, base, k)
    ensures InCell(base, size, k)
    decreases fields
  {
    if fields == [] && k == base {
    } else {
      var i: nat :| i < |fields| && HeedsFor(fields, base, i, k);
      FieldOf(fields, size, i);
      EntryCells(fields, i, size);
      hide WellFormed, PData, Heeds, DataLen, SizeLen;
      HeededInside(fields[i], base + PData(fields, i), k);
    }
  }

  // ---- Other bytes are left or cleared ----

  predicate Lowered(a: byte, b: byte) {
    b == a || b == 0
  }

  lemma PutSizeLowers(m: Memory, f: Field, p: nat, n: nat, k: nat)
    requires CellsAt(f, p, |m|) && k < |m| && !Heeds(f, p, k) && (n == 0 || (f.htype.Oneof? ==> n == f.tag))
    ensures Lowered(m[k], PutSizeAt(m, f, p, n)[k])
  {
    hide RecordsHeed, LittleEndian;
    ZeroBytes(SizeLen(f));
  }

  lemma DefaultFieldLowers(f: Field, m: Memory, p: nat, k: nat)
    requires PlacedField(f, p, |m|) && k < |m| && !Heeds(f, p, k)
    ensures Lowered(m[k], DefaultField(f, m, p)[k])
    decreases f
  {
    hide WellFormed, Reaches, SetDefaults, RecordsHeed, PutSizeAt, SizeHeeded, DataLen;
    PlacedCells(f, p, |m|);
    if !FixedCount(f) {
      PutSizeLowers(m, f, p, 0, k);
      if !f.htype.Repeated? && !f.htype.Oneof? {
        SingleLen(f);
        if f.ltype.Submessage? {
          PlacedSub(f, p, |m|, 0);
          assert 0 < Entries(f) && !EntryHeeds(f, p, 0, k);
          DefaultsLower(SubAt(f, p, 0), PutSizeAt(m, f, p, 0), 0, k);
        }
      }
    }
  }

  lemma {:induction false} DefaultsLower(x: Struct, m: Memory, i: nat, k: nat)
    requires Placed(x, |m|) && i <= |x.fields| && k < |m| && !RecordsHeed(x.fields, x.base, k)
    ensures Lowered(m[k], DefaultsFrom(x, m, i)[k])
    ensures i == 0 ==> SetDefaults(x, m) == DefaultsFrom(x, m, 0)
    decreases x.fields, |x.fields| - i
  {
    hide Placed, DefaultField, Heeds, PlacedField, RecordsHeed;
    if i < |x.fields| {
      EntryUnheeded(x.fields, x.base, k, i);
      PlacedEntry(x, i, |m|);
      DefaultFieldLowers(x.fields[i], m, Addr(x, i), k);
      DefaultsLower(x, DefaultField(x.fields[i], m, Addr(x, i)), i + 1, k);
    }
  }

  /** A type whose values are all zero bytes stores zero bytes. */
  lemma ValueLowers(f: Field, d: seq<byte>, s: seq<byte>, k: nat)
    requires ItemFor(f, d) && !f.ltype.Submessage? && !Telling(f) && k < |d|
    ensures Lowered(d[k], DecodeValue(f, d, s).value[k])
  {
    hide DecodeVarint32, LittleEndian, WellFormed;
    ZeroBytes(SIZE_BYTES);
  }

  lemma {:induction false} PackedTells(f: Field)
    requires f.ltype.Packable()
    ensures Telling(f)
  {
  }

  /** Byte k of a repeated field's data lies in one entry, or in none that is stored. */
  lemma PutItemByte(f: Field, data: seq<byte>, n: nat, d: seq<byte>, k: nat)
    requires n < f.arraySize && |data| == f.dataSize * f.arraySize && |d| == f.dataSize && k < |data|
    requires forall t :: 0 <= t < |d| ==> Lowered(ItemAt(f, data, n)[t], d[t])
    ensures Lowered(data[k], PutItem(f, data, n, d)[k])
  {
    ItemInside(f, n);
    var lo := f.dataSize * n;
    if lo <= k < lo + f.dataSize {
      assert ItemAt(f, data, n)[k - lo] == data[k];
    }
  }

  lemma SlotDataLowers(f: Field, slot: Slot, wireType: nat, s: seq<byte>, k: nat)
    requires SlotFor(f, slot) && !f.ltype.Submessage? && !Telling(f) && k < |slot.data|
    ensures Lowered(slot.data[k], DecodeSlot(f, slot, wireType, s).value.data[k])
  {
    hide DecodeValue, WellFormedField, PutItem, ItemAt, DecodePacked;
    if f.htype.Repeated? {
      if f.ltype.Packable() {
        PackedTells(f);
      } else if slot.size < f.arraySize {
        var d := DecodeValue(f, Target(f, slot), s).value;
        forall t | 0 <= t < |d|
          ensures Lowered(Target(f, slot)[t], d[t])
        {
          ValueLowers(f, Target(f, slot), s, t);
        }
        PutItemByte(f, slot.data, slot.size, d, k);
      }
    } else {
      SingleLen(f);
      ValueLowers(f, slot.data, s, k);
    }
  }

  lemma MemberSize(f: Field, slot: Slot, wireType: nat, s: seq<byte>)
    requires SlotFor(f, slot) && !f.ltype.Submessage? && f.htype.Oneof?
    ensures DecodeSlot(f, slot, wireType, s).value.size == f.tag
  {
    hide DecodeValue, WellFormedField;
  }

  lemma StoredAt(m: Memory, f: Field, p: nat, t: Slot, k: nat)
    requires CellsFor(f, p, |m|) && |t.data| == DataLen(f) && k < |m|
    ensures PutSlotAt(m, f, p, t)[k]
         == if InCell(p, DataLen(f), k) then t.data[k - p]
            else if InSizeCell(f, p, k) then LittleEndian(t.size, SizeLen(f))[k - (p + f.sizeOffset)] else m[k]
  {
    hide LittleEndian, DataLen;
  }

  lemma LeafLowers(f: Field, m: Memory, p: nat, count: nat, wireType: nat, s: seq<byte>, k: nat)
    requires PlacedField(f, p, |m|) && !f.ltype.Submessage? && k < |m| && !Heeds(f, p, k)
    ensures Lowered(m[k], DecodeCells(f, m, p, count, wireType, s).value.mem[k])
  {
    hide WellFormedField, FieldReaches, DecodeSlot, LittleEndian, FromLittleEndian, DataLen, PutSlotAt, CellsFor;
    PlacedCells(f, p, |m|);
    var slot := CursorSlot(m, f, p, count);
    var t := DecodeSlot(f, slot, wireType, s).value;
    StoredAt(m, f, p, t, k);
    if InCell(p, DataLen(f), k) {
      assert slot.data[k - p] == m[k];
      SlotDataLowers(f, slot, wireType, s, k - p);
    } else if InSizeCell(f, p, k) {
      MemberSize(f, slot, wireType, s);
    }
  }

  lemma SubmessageLowers(f: Field, m: Memory, p: nat, e: nat, s: seq<byte>, k: nat)
    requires PlacedField(f, p, |m|) && f.ltype.Submessage? && e < Entries(f) && k < |m| && !Heeds(f, p, k)
    ensures Lowered(m[k], DecodeSubmessage(f, m, p, e, s).value[k])
    decreases f, 1
  {
    hide WellFormed, Reaches, RecordsHeed, SetDefaults, DecodeNoinit, Substream, CellsFor, DefaultsFrom, SizeHeeded;
    PlacedSub(f, p, |m|, e);
    assert !EntryHeeds(f, p, e, k);
    if Substream(s).Got? {
      var x := SubAt(f, p, e);
      var m0 := if f.htype.Repeated? then SetDefaults(x, m) else m;
      if f.htype.Repeated? {
        DefaultsLower(x, m, 0, k);
      }
      NoinitLowers(x, m0, Substream(s).value, k);
    }
  }

  lemma ResetLowers(f: Field, m: Memory, p: nat, k: nat)
    requires PlacedField(f, p, |m|) && f.ltype.Submessage? && f.htype.Oneof? && k < |m| && !Heeds(f, p, k)
    ensures Lowered(m[k], ResetMember(f, m, p)[k])
    decreases f, 1
  {
    hide WellFormed, Reaches, RecordsHeed, SetDefaults, SlotAt, DefaultsFrom, SizeHeeded;
    PlacedCells(f, p, |m|);
    if SlotAt(m, f, p).size != f.tag {
      PlacedSub(f, p, |m|, 0);
      assert 0 < Entries(f) && !EntryHeeds(f, p, 0, k);
      DefaultsLower(SubAt(f, p, 0), Write(m, p, Zeros(f.dataSize)), 0, k);
    }
  }

  lemma SubFieldLowers(f: Field, m: Memory, p: nat, count: nat, s: seq<byte>, k: nat)
    requires PlacedField(f, p, |m|) && f.ltype.Submessage? && k < |m| && !Heeds(f, p, k)
    ensures Lowered(m[k], DecodeSubField(f, m, p, count, s).value.mem[k])
    decreases f, 2
  {
    hide DecodeSubmessage, PlacedField, PutSizeAt, CursorSlot, ResetMember, Heeds;
    PlacedCells(f, p, |m|);
    var n := CursorSlot(m, f, p, count).size;
    match f.htype
    case Required => SubmessageLowers(f, m, p, 0, s, k);
    case Optional =>
      PutSizeLowers(m, f, p, 1, k);
      SubmessageLowers(f, if f.sizeOffset != 0 then PutSizeAt(m, f, p, 1) else m, p, 0, s, k);
    case Oneof =>
      ResetLowers(f, m, p, k);
      PutSizeLowers(ResetMember(f, m, p), f, p, f.tag, k);
      SubmessageLowers(f, PutSizeAt(ResetMember(f, m, p), f, p, f.tag), p, 0, s, k);
    case Repeated =>
      PutSizeLowers(m, f, p, (n + 1) % TWO32, k);
      if n < f.arraySize {
        SubmessageLowers(f, PutSizeAt(m, f, p, (n + 1) % TWO32), p, n, s, k);
      }
  }

  /** A record, decoded or rejected, leaves every byte that its field does not heed as it was or clears it. */
  lemma CellsLower(f: Field, m: Memory, p: nat, count: nat, wireType: nat, s: seq<byte>, k: nat)
    requires PlacedField(f, p, |m|) && k < |m| && !Heeds(f, p, k)
    ensures Lowered(m[k], DecodeCells(f, m, p, count, wireType, s).value.mem[k])
    decreases f, 3
  {
    hide DecodeSlot, DecodeSubField, PutSlotAt, CursorSlot, Heeds, FieldReaches, WellFormedField;
    if f.ltype.Submessage? {
      SubFieldLowers(f, m, p, count, s, k);
    } else {
      LeafLowers(f, m, p, count, wireType, s, k);
    }
  }

  lemma RecordLowers(x: Struct, st: State, tag: nat, wireType: nat, s: seq<byte>, k: nat)
    requires StateFor(x, st) && k < |st.mem| && !RecordsHeed(x.fields, x.base, k)
    ensures Lowered(st.mem[k], DecodeRecord(x, st, tag, wireType, s).value.mem[k])
    decreases x.fields, 1
  {
    hide Placed, DecodeCells, SkipField, Heeds, DecodeVarint32, RecordsHeed, PlacedField;
    var i := IndexOf(x.fields, tag);
    if i < |x.fields| {
      EntryUnheeded(x.fields, x.base, k, i);
      PlacedEntry(x, i, |st.mem|);
      CellsLower(x.fields[i], st.mem, Addr(x, i), Enter(x.fields, st, i).fixedSize, wireType, s, k);
    }
    BaseUnheeded(x.fields, x.base, k);
  }

  lemma {:induction false} LoopLowers(x: Struct, st: State, s: seq<byte>, k: nat)
    requires StateFor(x, st) && k < |st.mem| && !RecordsHeed(x.fields, x.base, k)
    ensures Lowered(st.mem[k], DecodeLoop(x, st, s).st.mem[k])
    decreases x.fields, 2, |s|
  {
    hide Placed, DecodeRecord, DecodeVarint32, RecordsHeed;
    if s != [] && DecodeVarint32(s).Got? && DecodeVarint32(s).value != 0 {
      var key, rest := DecodeVarint32(s).value, DecodeVarint32(s).rest;
      RecordLowers(x, st, key / 8, key % 8, rest, k);
      var r := DecodeRecord(x, st, key / 8, key % 8, rest);
      if r.Ok? {
        LoopLowers(x, r.value, r.rest, k);
      }
    }
  }

  lemma NoinitLowers(x: Struct, m: Memory, s: seq<byte>, k: nat)
    requires Placed(x, |m|) && k < |m| && !RecordsHeed(x.fields, x.base, k)
    ensures Lowered(m[k], DecodeNoinit(x, m, s).value[k])
    decreases x.fields, 3
  {
    hide Placed, DecodeLoop, RecordsHeed;
    LoopLowers(x, Start(m), s, k);
  }
}
