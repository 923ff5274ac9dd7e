/** For every byte that a record heeds there is a record that sets it, or a byte before it in the same
    cell. */
module Loud {
  import opened Bits
  import opened Descriptor
  import opened StructMemory
  import opened Encoding
  import opened Messages
  import opened Heeded
  import opened Planted

  // ---- Values ----

  /** A value whose first byte is not zero. */
  function LoudItem(f: Field): (d: seq<byte>)
    requires f.ltype.Bytes? ==> f.dataSize >= SIZE_BYTES
    ensures |d| == f.dataSize
  {
    if f.ltype.String? then seq(f.dataSize, i => if i + 1 < f.dataSize then 1 else 0)
    else if f.ltype.Bytes? then LittleEndian(1, SIZE_BYTES) + seq(f.dataSize - SIZE_BYTES, i => 1)
    else seq(f.dataSize, i => 0xFF)
  }

  lemma OneInCell()
    ensures FromLittleEndian(LittleEndian(1, SIZE_BYTES)) == 1
  {
    Pow2Facts();
    FromLittleEndianInverse(1, SIZE_BYTES);
  }

  lemma LoudString(n: nat)
    requires n >= 2
    ensures var d: seq<byte> := seq(n, i => if i + 1 < n then 1 else 0); 0 < StringLen(d) < n
  {
    var d: seq<byte> := seq(n, i => if i + 1 < n then 1 else 0);
    var k := StringLen(d);
    assert d[0] != 0 && d[n - 1] == 0;
  }

  lemma LoudItemValid(f: Field)
    requires WellFormedField(f) && !f.ltype.Submessage? && Telling(f) && f.dataSize > 0
    ensures ItemFor(f, LoudItem(f)) && ValidItem(f, LoudItem(f))
    ensures Implicit(f) ==> !IsDefault(f, Slot(0, LoudItem(f)))
  {
    var d := LoudItem(f);
    if f.ltype.Bytes? {
      OneInCell();
      hide LittleEndian, FromLittleEndian;
      assert d[..SIZE_BYTES] == LittleEndian(1, SIZE_BYTES);
    } else if f.ltype.String? {
      LoudString(f.dataSize);
      hide StringLen;
    } else {
      assert d[0] == 0xFF;
    }
  }

  /** In a value that is the same the first byte is not zero either. */
  lemma LoudItemHeard(f: Field, r: seq<byte>)
    requires WellFormedField(f) && !f.ltype.Submessage? && Telling(f) && f.dataSize > 0 && ItemFor(f, r)
    requires SameItem(f, LoudItem(f), r)
    ensures r[0] != 0
  {
    var d := LoudItem(f);
    if f.ltype.Bytes? {
      OneInCell();
      assert d[..SIZE_BYTES] == LittleEndian(1, SIZE_BYTES);
      hide LittleEndian;
      assert r[..SIZE_BYTES][0] == r[0];
      LowByteOfOne(r[..SIZE_BYTES]);
    } else if f.ltype.String? {
      LoudString(f.dataSize);
      var n := StringLen(d);
      assert r[..StringLen(r)] == d[..n] && d[..n][0] == 1;
      assert r[0] == r[..StringLen(r)][0];
    }
  }

  lemma LowByteOfOne(b: seq<byte>)
    requires b != [] && FromLittleEndian(b) == 1
    ensures b[0] != 0
  {
  }

  // ---- Cells ----

  /** Byte k of the cells of a field at p, as slot r has it. */
  function SlotByte(f: Field, p: nat, r: Slot, k: nat): byte
    requires InCells(f, p, k) && |r.data| == DataLen(f)
  {
    if InSizeCell(f, p, k) then LittleEndian(r.size, SizeLen(f))[k - (p + f.sizeOffset)] else r.data[k - p]
  }

  lemma SlotByteAt(f: Field, p: nat, m: Memory, k: nat)
    requires CellsFor(f, p, |m|) && InCells(f, p, k)
    ensures k < |m| && SlotByte(f, p, SlotAt(m, f, p), k) == m[k]
  {
    hide DataLen, SizeLen, FromLittleEndian, LittleEndian;
    if InSizeCell(f, p, k) {
      var q := p + f.sizeOffset;
      LittleEndianInverse(Read(m, q, SizeLen(f)));
      assert Read(m, q, SizeLen(f))[k - q] == m[k];
    } else {
      assert Read(m, p, DataLen(f))[k - p] == m[k];
    }
  }

  lemma LowByteOf(n: nat, w: nat)
    requires w > 0
    ensures LittleEndian(n, w)[0] == n % 256
  {
  }

  /** In every slot that holds the same as the slot of item d, byte k is not zero. */
  ghost predicate Rings(f: Field, p: nat, e: nat, d: seq<byte>, k: nat) {
    && ItemFor(f, d) && e < Entries(f) && ValidItem(f, d) && (Implicit(f) ==> !IsDefault(f, Slot(0, d)))
    && InCells(f, p, k)
    && forall r: Slot :: SlotFor(f, r) && (HasFlag(f) ==> 0 < r.size < 256) && (Counted(f) ==> r.size == e + 1)
                         && (f.htype.Oneof? ==> r.size == f.tag) && SameItem(f, d, ItemOf(f, r.data, e))
                         ==> SlotByte(f, p, r, k) != 0
  }

  /** The same of a struct that holds the same message. */
  ghost predicate RingsStruct(fields: seq<Field>, size: nat, base: nat, a: Memory, k: nat) {
    && WellFormed(fields, size) && |a| == size && ValidMessage(fields, a) && !AllDefault(fields, a, 0)
    && InCell(base, size, k)
    && forall v: Memory :: |v| == size && SameMessage(fields, a, v) ==> v[k - base] != 0
  }

  /** The first byte of a count, a flag or a selected member's tag. */
  lemma SizeRings(f: Field, p: nat, k: nat) returns (k': nat)
    requires WellFormedField(f) && OrdinaryField(f) && InSizeCell(f, p, k) && SizeHeeded(f, k - (p + f.sizeOffset))
    requires p + f.sizeOffset >= 0 && !Implicit(f)
    ensures p + f.sizeOffset <= k' <= k && Rings(f, p, 0, Zeros(f.dataSize), k')
  {
    hide WellFormed, ValidItem, SameItem, LittleEndian, Ordinary, DataLen;
    ZeroItemValid(f);
    k' := if f.htype.Oneof? && !f.ltype.Submessage? then k else p + f.sizeOffset;
    forall r: Slot | SlotFor(f, r) && (HasFlag(f) ==> 0 < r.size < 256) && (Counted(f) ==> r.size == 1)
                     && (f.htype.Oneof? ==> r.size == f.tag)
      ensures SlotByte(f, p, r, k') != 0
    {
      LowByteOf(r.size, SizeLen(f));
    }
  }

  lemma LeafRings(f: Field, p: nat, k: nat)
    requires WellFormedField(f) && OrdinaryField(f) && !f.ltype.Submessage? && InCell(p, DataLen(f), k) && Telling(f)
    requires Apart(p, DataLen(f), p + f.sizeOffset, SizeLen(f))
    ensures f.dataSize > 0 && Entries(f) > 0 && Rings(f, p, 0, LoudItem(f), p)
  {
    ItemsNonempty(f);
    LoudItemValid(f);
    hide WellFormedField, SameItem, LittleEndian, LoudItem, IsDefault, ItemAt;
    forall r: Slot | SlotFor(f, r) && SameItem(f, LoudItem(f), ItemOf(f, r.data, 0))
      ensures SlotByte(f, p, r, p) != 0
    {
      LoudItemHeard(f, ItemOf(f, r.data, 0));
      FirstOfItem(f, r.data);
    }
  }

  lemma ItemsNonempty(f: Field)
    requires DataLen(f) > 0
    ensures f.dataSize > 0 && Entries(f) > 0
  {
    assert f.dataSize == 0 ==> f.dataSize * f.arraySize == 0;
    assert f.arraySize == 0 ==> f.dataSize * f.arraySize == 0;
  }

  lemma FirstOfItem(f: Field, data: seq<byte>)
    requires |data| == DataLen(f) && f.dataSize > 0 && Entries(f) > 0
    ensures |data| > 0 && ItemOf(f, data, 0)[0] == data[0]
  {
    if f.htype.Repeated? {
      ItemInside(f, 0);
    }
  }

  /** Byte k of entry e, as the field's data has it. */
  lemma ByteOfItem(f: Field, p: nat, data: seq<byte>, e: nat, k: nat)
    requires |data| == DataLen(f) && e < Entries(f) && InCell(EntryAddr(f, p, e), f.dataSize, k)
    ensures InCell(p, DataLen(f), k) && ItemOf(f, data, e)[k - EntryAddr(f, p, e)] == data[k - p]
  {
    hide DataLen;
    EntryInData(f, p, e);
    ItemPlace(f, p, data, e);
    ReadByte(data, EntryAddr(f, p, e) - p, f.dataSize, k - EntryAddr(f, p, e));
  }

  lemma ItemPlace(f: Field, p: nat, data: seq<byte>, e: nat)
    requires |data| == DataLen(f) && e < Entries(f)
    ensures 0 <= EntryAddr(f, p, e) - p && EntryAddr(f, p, e) - p + f.dataSize <= |data|
    ensures ItemOf(f, data, e) == Read(data, EntryAddr(f, p, e) - p, f.dataSize)
  {
    if f.htype.Repeated? {
      ItemInside(f, e);
    }
  }

  lemma ReadByte(m: Memory, lo: nat, n: nat, k: nat)
    requires lo + n <= |m| && k < n
    ensures Read(m, lo, n)[k] == m[lo + k]
  {
  }

  /** For a heeded byte k of a field whose cells start at lo or later, a byte between lo and k that some
      record sets. */
  lemma FieldRings(f: Field, p: nat, lo: nat, k: nat) returns (e: nat, d: seq<byte>, k': nat)
    requires WellFormedField(f) && OrdinaryField(f) && Heeds(f, p, k)
    requires Apart(p, DataLen(f), p + f.sizeOffset, SizeLen(f))
    requires if InSizeCell(f, p, k) then lo <= p + f.sizeOffset else lo <= p
    ensures lo <= k' <= k && Rings(f, p, e, d, k')
    ensures InSizeCell(f, p, k) ==> e == 0
    decreases f
  {
    hide WellFormed, Ordinary, RecordsHeed, SizeHeeded, Rings;
    if InSizeCell(f, p, k) && SizeHeeded(f, k - (p + f.sizeOffset)) {
      e, d := 0, Zeros(f.dataSize);
      k' := SizeRings(f, p, k);
    } else if f.ltype.Submessage? {
      e :| e < Entries(f) && EntryHeeds(f, p, e, k);
      SubInside(f, p, e, k);
      var y := EntryAddr(f, p, e);
      d, k' := StructRings(f.ptr.fields, f.dataSize, y, lo, k);
      SubRings(f, p, e, d, k');
    } else {
      e, d, k' := 0, LoudItem(f), p;
      LeafRings(f, p, k);
    }
  }

  lemma SubInside(f: Field, p: nat, e: nat, k: nat)
    requires WellFormedField(f) && f.ltype.Submessage? && e < Entries(f) && f.ptr.Sub? && EntryHeeds(f, p, e, k)
    ensures InCell(p, DataLen(f), k) && p <= EntryAddr(f, p, e)
  {
    hide WellFormed, RecordsHeed;
    RecordsInside(f.ptr.fields, f.dataSize, EntryAddr(f, p, e), k);
    EntryInData(f, p, e);
  }

  lemma SubRings(f: Field, p: nat, e: nat, a: seq<byte>, k: nat)
    requires WellFormedField(f) && f.ltype.Submessage? && e < Entries(f)
    requires Apart(p, DataLen(f), p + f.sizeOffset, SizeLen(f))
    requires RingsStruct(f.ptr.fields, f.dataSize, EntryAddr(f, p, e), a, k)
    ensures Rings(f, p, e, a, k)
  {
    hide WellFormed, SameMessage, ValidMessage, AllDefault, LittleEndian, ItemAt;
    EntryInData(f, p, e);
    forall r: Slot | SlotFor(f, r) && SameItem(f, a, ItemOf(f, r.data, e))
      ensures SlotByte(f, p, r, k) != 0
    {
      ByteOfItem(f, p, r.data, e, k);
    }
  }

  lemma StructRings(fields: seq<Field>, size: nat, base: nat, lo: nat, k: nat) returns (a: Memory, k': nat)
    requires WellFormed(fields, size) && Ordinary(fields) && fields != [] && RecordsHeed(fields, base, k) && lo <= base
    ensures lo <= k' <= k && RingsStruct(fields, size, base, a, k')
    decreases fields
  {
    hide WellFormed, Heeds, Rings, RingsStruct, OrdinaryField, PData, DataLen, SizeLen;
    var g: nat :| g < |fields| && HeedsFor(fields, base, g, k);
    var f, p := fields[g], base + PData(fields, g);
    FieldOf(fields, size, g);
    EntryCells(fields, g, size);
    var e, d;
    e, d, k' := FieldRings(f, p, lo, k);
    a := PlantedRings(fields, size, base, g, e, d, k');
  }

  lemma PlantedRings(fields: seq<Field>, size: nat, base: nat, g: nat, e: nat, d: seq<byte>, k: nat) returns (a: Memory)
    requires WellFormed(fields, size) && g < |fields| && Rings(fields[g], base + PData(fields, g), e, d, k)
    ensures RingsStruct(fields, size, base, a, k)
  {
    hide WellFormed, GetSlot, ValidItem, SameItem, IsDefault, PData, DataLen, SizeLen, SlotByte, Plant, SlotOf,
      WellFormedField, AllDefault, ValidMessage;
    var f := fields[g];
    SlotOfSendable(f, e, d);
    var t := SlotOf(f, e, d);
    a := Plant(fields, size, g, t);
    PlantedValid(fields, size, g, t);
    PlantedTold(fields, size, g, t);
    PlantedSlot(fields, size, g, t);
    EntryCells(fields, g, size);
    forall v: Memory | |v| == size && SameMessage(fields, a, v)
      ensures InCell(base, size, k) && v[k - base] != 0
    {
      WellFormedSlot(fields, g, v);
      SlotOfSame(f, e, d, GetSlot(fields, g, v));
      FlagFits(fields, g, v);
      EntrySlot(fields, g, v);
      SlotByteAt(f, PData(fields, g), v, k - base);
      SlotByteMoves(f, base + PData(fields, g), PData(fields, g), GetSlot(fields, g, v), k, k - base);
    }
    CellsWithinStruct(f, PData(fields, g), size, base, k);
  }

  lemma CellsWithinStruct(f: Field, p: nat, size: nat, base: nat, k: nat)
    requires CellsFor(f, p, size) && InCells(f, base + p, k)
    ensures InCell(base, size, k) && InCells(f, p, k - base)
  {
  }

  lemma FlagFits(fields: seq<Field>, i: nat, v: Memory)
    requires WellFormed(fields, |v|) && i < |fields|
    ensures HasFlag(fields[i]) ==> GetSlot(fields, i, v).size < 256
  {
    EntryCells(fields, i, |v|);
    if HasFlag(fields[i]) {
      LittleEndianBound(Read(v, PSize(fields, i), SizeLen(fields[i])));
      Pow2Facts();
    }
  }

  lemma SlotByteMoves(f: Field, p: nat, p': nat, r: Slot, k: nat, k': nat)
    requires InCells(f, p, k) && |r.data| == DataLen(f) && k - p == k' - p'
    ensures InCells(f, p', k') && SlotByte(f, p', r, k') == SlotByte(f, p, r, k)
  {
  }
}
