/** Where every fixed-count array can hold a pb_size_t, decoding stays inside the struct and depends
    on nothing but the struct's own bytes: decoding in memory is decoding those bytes alone, put back
    in their place. */
module Placement {
  import opened Bits
  import opened Wire
  import opened Descriptor
  import opened StructMemory
  import opened Decoding
  import opened Overrun
  import opened Frame
  import opened Messages

  // ---- Nothing is written outside ----

  /** The records of a table write inside the struct. */
  lemma LongRecords(fields: seq<Field>, size: nat, base: nat, k: nat)
    requires WellFormed(fields, size) && LongArrays(fields) && RecordsWrite(fields, base, k)
    ensures InCell(base, size, k)
    decreases fields
  {
    if fields == [] && k == base {
      EmptyHasByte(size);
    } else {
      hide WellFormed, PData, FieldWrites, LongArrays, InCells, InCell;
      var i: nat :| i < |fields| && RecordsFor(fields, base, i, k);
      EntryInside(fields, size, i, base);
      LongWrites(fields[i], base + PData(fields, i), k);
    }
  }

  /** So do its defaults. */
  lemma LongDefaults(fields: seq<Field>, size: nat, base: nat, k: nat)
    requires WellFormed(fields, size) && LongArrays(fields) && DefaultsWrite(fields, base, k)
    ensures InCell(base, size, k)
    decreases fields
  {
    hide WellFormed, PData, DefaultWrites, LongArrays, InCells, InCell;
    var i := Writer(fields, base, k);
    EntryInside(fields, size, i, base);
    LongDefault(fields[i], base + PData(fields, i), k);
  }

  lemma LongDefault(f: Field, p: nat, k: nat)
    requires WellFormedField(f) && HoldsCount(f) && LongBelow(f) && DefaultWrites(f, p, k)
    ensures InCells(f, p, k)
    decreases f
  {
    hide WellFormed, LongArrays, DefaultsWrite, PData;
    if !f.htype.Repeated? {
      SingleLen(f);
    }
    if !InSizeCell(f, p, k) && !FixedCount(f) && f.ltype.Submessage? {
      LongDefaults(f.ptr.fields, f.dataSize, EntryAddr(f, p, 0), k);
    }
  }

  lemma EmptyHasByte(size: nat)
    requires WellFormed([], size)
    ensures size >= 1
  {
  }

  lemma EntryInside(fields: seq<Field>, size: nat, i: nat, base: nat)
    requires WellFormed(fields, size) && i < |fields| && LongArrays(fields)
    ensures WellFormedField(fields[i]) && HoldsCount(fields[i]) && LongBelow(fields[i])
    ensures forall k :: InCells(fields[i], base + PData(fields, i), k) ==> InCell(base, size, k)
  {
    hide WellFormed, PData, WellFormedField, CellsFor, InCells, InCell;
    FieldOf(fields, size, i);
    EntryCells(fields, i, size);
    CellsWithin(fields[i], PData(fields, i), size, base);
  }

  lemma CellsWithin(f: Field, p: nat, size: nat, base: nat)
    requires CellsFor(f, p, size)
    ensures forall k :: InCells(f, base + p, k) ==> InCell(base, size, k)
  {
    hide DataLen, SizeLen;
  }

  /** The field writes its own cells only. */
  lemma LongWrites(f: Field, p: nat, k: nat)
    requires WellFormedField(f) && LongBelow(f) && FieldWrites(f, p, k)
    ensures InCells(f, p, k)
    decreases f
  {
    hide WellFormed, LongArrays, RecordsWrite, DefaultsWrite, WellFormedField, PData;
    if !InSizeCell(f, p, k) && f.ltype.Submessage? {
      SubTable(f);
      if !(f.htype.Oneof? && InCell(p, f.dataSize, k)) {
        var e: nat :| e < Entries(f) && EntryWrites(f, p, e, k);
        if RecordsWrite(f.ptr.fields, EntryAddr(f, p, e), k) {
          LongRecords(f.ptr.fields, f.dataSize, EntryAddr(f, p, e), k);
        } else {
          LongDefaults(f.ptr.fields, f.dataSize, EntryAddr(f, p, e), k);
        }
        EntryInData(f, p, e);
      }
    }
  }

  lemma SubTable(f: Field)
    requires WellFormedField(f) && f.ltype.Submessage?
    ensures f.ptr.Sub? && WellFormed(f.ptr.fields, f.dataSize)
  {
  }

  /** A memory that differs from m only inside [base, base + size). */
  lemma OnlyInside(m: Memory, m': Memory, base: nat, size: nat)
    requires |m| == |m'| && base + size <= |m|
    requires forall k :: 0 <= k < |m| && !InCell(base, size, k) ==> m'[k] == m[k]
    ensures m' == Write(m, base, Read(m', base, size))
  {
  }

  lemma DefaultsInside(x: Struct, m: Memory)
    requires Placed(x, |m|) && LongArrays(x.fields)
    ensures SetDefaults(x, m) == Write(m, x.base, View(x, SetDefaults(x, m)))
  {
    hide WellFormed, SetDefaults, DefaultsWrite, LongArrays, Reaches;
    forall k | 0 <= k < |m| && !InCell(x.base, x.size, k)
      ensures SetDefaults(x, m)[k] == m[k]
    {
      if DefaultsWrite(x.fields, x.base, k) {
        LongDefaults(x.fields, x.size, x.base, k);
      }
      DefaultsFrame(x, m, k);
    }
    OnlyInside(m, SetDefaults(x, m), x.base, x.size);
  }

  lemma NoinitInside(x: Struct, m: Memory, s: seq<byte>)
    requires Placed(x, |m|) && LongArrays(x.fields)
    ensures DecodeNoinit(x, m, s).value == Write(m, x.base, View(x, DecodeNoinit(x, m, s).value))
  {
    hide WellFormed, DecodeNoinit, RecordsWrite, LongArrays, Reaches;
    forall k | 0 <= k < |m| && !InCell(x.base, x.size, k)
      ensures DecodeNoinit(x, m, s).value[k] == m[k]
    {
      if RecordsWrite(x.fields, x.base, k) {
        LongRecords(x.fields, x.size, x.base, k);
      }
      NoinitFrame(x, m, s, k);
    }
    OnlyInside(m, DecodeNoinit(x, m, s).value, x.base, x.size);
  }

  // ---- Cells ----

  /** Two memories, with the field at p in one and at p' in the other, agree on the field's cells. */
  ghost predicate SameCells(f: Field, m: Memory, p: nat, m': Memory, p': nat) {
    && PlacedField(f, p, |m|) && PlacedField(f, p', |m'|)
    && SlotAt(m, f, p) == SlotAt(m', f, p')
  }

  lemma SameFacts(f: Field, m: Memory, p: nat, m': Memory, p': nat)
    requires SameCells(f, m, p, m', p')
    ensures WellFormedField(f) && CellsFor(f, p, |m|) && CellsFor(f, p', |m'|)
  {
  }

  lemma SamePutSize(f: Field, m: Memory, p: nat, m': Memory, p': nat, n: nat)
    requires SameCells(f, m, p, m', p')
    ensures SameCells(f, PutSizeAt(m, f, p, n), p, PutSizeAt(m', f, p', n), p')
  {
    SlotAtPutSize(m, f, p, n);
    SlotAtPutSize(m', f, p', n);
    hide SlotAt, PutSizeAt, FieldReaches, WellFormedField, CellsFor;
  }

  lemma SameWriteData(f: Field, m: Memory, p: nat, m': Memory, p': nat, off: nat, b: seq<byte>)
    requires SameCells(f, m, p, m', p') && off + |b| <= DataLen(f)
    ensures p + off + |b| <= |m| && p' + off + |b| <= |m'|
    ensures SameCells(f, Write(m, p + off, b), p, Write(m', p' + off, b), p')
  {
    SlotAtWriteData(m, f, p, off, b);
    SlotAtWriteData(m', f, p', off, b);
    hide SlotAt, Write, FieldReaches, WellFormedField, DataLen;
  }

  /** The bytes of entry e, seen from both places. */
  lemma SameEntry(f: Field, m: Memory, p: nat, m': Memory, p': nat, e: nat)
    requires SameCells(f, m, p, m', p') && f.ltype.Submessage? && e < Entries(f)
    ensures Placed(SubAt(f, p, e), |m|) && Placed(SubAt(f, p', e), |m'|)
    ensures View(SubAt(f, p, e), m) == View(SubAt(f, p', e), m')
  {
    PlacedSub(f, p, |m|, e);
    PlacedSub(f, p', |m'|, e);
    EntryInData(f, p, e);
    EntryInData(f, p', e);
    ReadRead(m, p, DataLen(f), EntryAddr(f, p, e) - p, f.dataSize);
    ReadRead(m', p', DataLen(f), EntryAddr(f, p', e) - p', f.dataSize);
    hide WellFormed, Reaches, WellFormedField, FieldReaches, DataLen, FromLittleEndian;
  }

  // ---- Fields ----

  lemma DefaultFieldMoves(f: Field, m: Memory, p: nat, m': Memory, p': nat)
    requires SameCells(f, m, p, m', p') && HoldsCount(f) && LongBelow(f)
    ensures SameCells(f, DefaultField(f, m, p), p, DefaultField(f, m', p'), p')
    decreases f
  {
    hide SlotAt, SetDefaults, Write, PutSizeAt, WellFormed, Reaches, CellsFor, DataLen, LongArrays;
    SameFacts(f, m, p, m', p');
    if FixedCount(f) {
      SameWriteData(f, m, p, m', p', 0, Zeros(SIZE_BYTES));
    } else {
      SamePutSize(f, m, p, m', p', 0);
      if !f.htype.Repeated? && !f.htype.Oneof? {
        SingleLen(f);
        var m1, m1' := PutSizeAt(m, f, p, 0), PutSizeAt(m', f, p', 0);
        if f.ltype.Submessage? {
          DefaultsInMoves(f, m1, p, m1', p', 0);
        } else {
          SameWriteData(f, m1, p, m1', p', 0, DefaultBytes(f));
        }
      }
    }
  }

  lemma DefaultsInMoves(f: Field, m: Memory, p: nat, m': Memory, p': nat, e: nat)
    requires SameCells(f, m, p, m', p') && f.ltype.Submessage? && LongBelow(f) && e < Entries(f)
    ensures Placed(SubAt(f, p, e), |m|) && Placed(SubAt(f, p', e), |m'|)
    ensures SameCells(f, SetDefaults(SubAt(f, p, e), m), p, SetDefaults(SubAt(f, p', e), m'), p')
    decreases f, 0
  {
    hide SameCells, SetDefaults, Write, LongArrays, WellFormed, Reaches, DataLen, Read;
    SameEntry(f, m, p, m', p', e);
    SameFacts(f, m, p, m', p');
    SubTable(f);
    var x, x' := SubAt(f, p, e), SubAt(f, p', e);
    DefaultsMove(x, m, x', m');
    DefaultsInside(x, m);
    DefaultsInside(x', m');
    EntryInData(f, p, e);
    SameWriteData(f, m, p, m', p', f.dataSize * e, View(x, SetDefaults(x, m)));
  }

  lemma DefaultsMove(x: Struct, m: Memory, x': Struct, m': Memory)
    requires Placed(x, |m|) && Placed(x', |m'|) && x'.fields == x.fields && x'.size == x.size
    requires LongArrays(x.fields) && View(x, m) == View(x', m')
    ensures View(x, SetDefaults(x, m)) == View(x', SetDefaults(x', m'))
    decreases x.fields
  {
    DefaultsFromMove(x, m, x', m', 0);
  }

  lemma {:induction false} DefaultsFromMove(x: Struct, m: Memory, x': Struct, m': Memory, i: nat)
    requires Placed(x, |m|) && Placed(x', |m'|) && x'.fields == x.fields && x'.size == x.size
    requires LongArrays(x.fields) && View(x, m) == View(x', m') && i <= |x.fields|
    ensures View(x, DefaultsFrom(x, m, i)) == View(x', DefaultsFrom(x', m', i))
    decreases x.fields, |x.fields| - i
  {
    hide Placed, LongArrays, DefaultField, SameCells, View, PlacedField;
    if i < |x.fields| {
      var f := x.fields[i];
      LongEntry(x.fields, i);
      PlacedEntry(x, i, |m|);
      PlacedEntry(x', i, |m'|);
      EntrySame(x, m, x', m', i);
      DefaultFieldMoves(f, m, Addr(x, i), m', Addr(x', i));
      EntryOnly(x, m, i);
      EntryOnly(x', m', i);
      ViewAfter(x, m, DefaultField(f, m, Addr(x, i)), x', m', DefaultField(f, m', Addr(x', i)), i);
      DefaultsFromMove(x, DefaultField(f, m, Addr(x, i)), x', DefaultField(f, m', Addr(x', i)), i + 1);
    }
  }

  lemma LongEntry(fields: seq<Field>, i: nat)
    requires LongArrays(fields) && i < |fields|
    ensures HoldsCount(fields[i]) && LongBelow(fields[i])
  {
  }

  lemma EntrySame(x: Struct, m: Memory, x': Struct, m': Memory, i: nat)
    requires Placed(x, |m|) && Placed(x', |m'|) && x'.fields == x.fields && x'.size == x.size
    requires View(x, m) == View(x', m') && i < |x.fields|
    ensures SameCells(x.fields[i], m, Addr(x, i), m', Addr(x', i))
  {
    hide WellFormed, Reaches, PlacedField, SlotAt, GetSlot, PData, Read, CellsAt;
    PlacedEntry(x, i, |m|);
    PlacedEntry(x', i, |m'|);
    SlotAtEntry(x.fields, i, m, x.base, x.size);
    SlotAtEntry(x.fields, i, m', x'.base, x.size);
  }

  /** The bytes that differ between m and m1 lie in the cells of a field at p. */
  ghost predicate OnlyCells(f: Field, p: nat, m: Memory, m1: Memory) {
    |m1| == |m| && forall k :: 0 <= k < |m| && !InCells(f, p, k) ==> m1[k] == m[k]
  }

  lemma EntryOnly(x: Struct, m: Memory, i: nat)
    requires Placed(x, |m|) && i < |x.fields| && LongArrays(x.fields)
    requires PlacedField(x.fields[i], Addr(x, i), |m|)
    ensures OnlyCells(x.fields[i], Addr(x, i), m, DefaultField(x.fields[i], m, Addr(x, i)))
  {
    var f, p := x.fields[i], Addr(x, i);
    EntryInside(x.fields, x.size, i, x.base);
    hide WellFormed, Reaches, LongArrays, PlacedField, DefaultField, InCells, DefaultWrites, PData, WellFormedField;
    forall k | 0 <= k < |m| && !InCells(f, p, k)
      ensures DefaultField(f, m, p)[k] == m[k]
    {
      if DefaultWrites(f, p, k) {
        LongDefault(f, p, k);
      }
      DefaultFieldByte(f, m, m, p, k);
    }
  }

  /** After stores into the cells of entry i that agree, the structs agree. */
  lemma ViewAfter(x: Struct, m: Memory, m1: Memory, x': Struct, m': Memory, m1': Memory, i: nat)
    requires Placed(x, |m|) && Placed(x', |m'|) && x'.fields == x.fields && x'.size == x.size && i < |x.fields|
    requires View(x, m) == View(x', m')
    requires OnlyCells(x.fields[i], Addr(x, i), m, m1) && OnlyCells(x.fields[i], Addr(x', i), m', m1')
    requires SameCells(x.fields[i], m1, Addr(x, i), m1', Addr(x', i))
    ensures View(x, m1) == View(x', m1')
  {
    hide WellFormed, Reaches, SameCells, PData, InCells, PlacedField;
    var v, v' := View(x, m1), View(x', m1');
    forall k | 0 <= k < x.size
      ensures v[k] == v'[k]
    {
      assert v[k] == m1[x.base + k] && v'[k] == m1'[x'.base + k];
      assert View(x, m)[k] == m[x.base + k] && View(x', m')[k] == m'[x'.base + k];
      CellsShifted(x.fields[i], Addr(x, i), Addr(x', i), k - PData(x.fields, i));
      if InCells(x.fields[i], Addr(x, i), x.base + k) {
        SameByte(x.fields[i], m1, Addr(x, i), m1', Addr(x', i), k - PData(x.fields, i));
      }
    }
  }

  lemma CellsShifted(f: Field, p: nat, p': nat, d: int)
    ensures InCells(f, p, p + d) <==> InCells(f, p', p' + d)
  {
  }

  /** Cells that agree agree byte by byte. */
  lemma SameByte(f: Field, m: Memory, p: nat, m': Memory, p': nat, d: int)
    requires SameCells(f, m, p, m', p') && InCells(f, p, p + d)
    ensures 0 <= p + d < |m| && 0 <= p' + d < |m'| && m[p + d] == m'[p' + d]
    ensures InCells(f, p', p' + d)
  {
    var q, q', n := p + f.sizeOffset, p' + f.sizeOffset, SizeLen(f);
    hide FieldReaches, WellFormedField, DataLen, SizeLen, FromLittleEndian;
    if InSizeCell(f, p, p + d) {
      LittleEndianInverse(Read(m, q, n));
      LittleEndianInverse(Read(m', q', n));
      assert Read(m, q, n)[p + d - q] == m[p + d] && Read(m', q', n)[p + d - q] == m'[p' + d];
    } else {
      assert Read(m, p, DataLen(f))[d] == m[p + d] && Read(m', p', DataLen(f))[d] == m'[p' + d];
    }
  }

  /** Entry i shares its cells with no other entry. */
  predicate Unshared(fields: seq<Field>, i: nat)
    requires i < |fields|
  {
    forall j :: 0 <= j < |fields| && j != i ==> Leader(fields, j) != Leader(fields, i)
  }

  /** pb_message_set_to_defaults leaves the cells of each entry outside a shared union as
      pb_field_set_to_default on that entry alone would: the flag or count cleared, the default value
      stored, and the contents of an array as they were. */
  lemma EntryDefaults(x: Struct, m: Memory, i: nat)
    requires Placed(x, |m|) && LongArrays(x.fields) && i < |x.fields| && Unshared(x.fields, i)
    ensures PlacedField(x.fields[i], Addr(x, i), |m|)
    ensures SameCells(x.fields[i], SetDefaults(x, m), Addr(x, i),
                      DefaultField(x.fields[i], m, Addr(x, i)), Addr(x, i))
  {
    hide Placed, DefaultsFrom, LongArrays, SameCells, PlacedField, DefaultField;
    PlacedEntry(x, i, |m|);
    CellsSelf(x.fields[i], m, Addr(x, i));
    EntryDefaultsFrom(x, m, 0, i, m);
  }

  lemma CellsSelf(f: Field, m: Memory, p: nat)
    requires PlacedField(f, p, |m|)
    ensures SameCells(f, m, p, m, p)
  {
  }

  lemma {:induction false} EntryDefaultsFrom(x: Struct, m: Memory, k: nat, i: nat, m0: Memory)
    requires Placed(x, |m|) && LongArrays(x.fields) && i < |x.fields| && Unshared(x.fields, i) && k <= |x.fields|
    requires |m0| == |m| && PlacedField(x.fields[i], Addr(x, i), |m|)
    requires SameCells(x.fields[i], m, Addr(x, i),
                       if k <= i then m0 else DefaultField(x.fields[i], m0, Addr(x, i)), Addr(x, i))
    ensures SameCells(x.fields[i], DefaultsFrom(x, m, k), Addr(x, i),
                      DefaultField(x.fields[i], m0, Addr(x, i)), Addr(x, i))
    decreases |x.fields| - k
  {
    hide Placed, LongArrays, DefaultField, SameCells, PlacedField, Addr, OnlyCells, Unshared;
    if k < |x.fields| {
      var f, p := x.fields[i], Addr(x, i);
      PlacedEntry(x, k, |m|);
      var m1 := DefaultField(x.fields[k], m, Addr(x, k));
      if k == i {
        LongEntry(x.fields, i);
        DefaultFieldMoves(f, m, p, m0, p);
      } else {
        EntryOnly(x, m, k);
        CellsKept(x, m, m1, k, i, if k <= i then m0 else DefaultField(f, m0, p));
      }
      EntryDefaultsFrom(x, m1, k + 1, i, m0);
    }
  }

  lemma CellsKept(x: Struct, m: Memory, m1: Memory, k: nat, i: nat, m0: Memory)
    requires Placed(x, |m|) && i < |x.fields| && k < |x.fields| && k != i && Unshared(x.fields, i)
    requires OnlyCells(x.fields[k], Addr(x, k), m, m1)
    requires SameCells(x.fields[i], m, Addr(x, i), m0, Addr(x, i))
    ensures SameCells(x.fields[i], m1, Addr(x, i), m0, Addr(x, i))
  {
    var f, p := x.fields[i], Addr(x, i);
    SameFacts(f, m, p, m0, p);
    forall b | 0 <= b < |m| && InCells(f, p, b)
      ensures m1[b] == m[b]
    {
      CellsDisjoint(x, k, i, b);
    }
    hide Placed, Addr, PlacedField, OnlyCells, InCells;
    SlotOfBytes(f, m, m1, p);
  }

  lemma SubmessageMoves(f: Field, m: Memory, p: nat, m': Memory, p': nat, e: nat, s: seq<byte>)
    requires SameCells(f, m, p, m', p') && f.ltype.Submessage? && LongBelow(f) && e < Entries(f)
    ensures var r, r' := DecodeSubmessage(f, m, p, e, s), DecodeSubmessage(f, m', p', e, s);
            && (r.Ok? <==> r'.Ok?) && (r.Ok? ==> r.rest == r'.rest)
            && SameCells(f, r.value, p, r'.value, p')
    decreases f, 1
  {
    hide SlotAt, SetDefaults, DecodeNoinit, Substream, LongArrays, WellFormed, Reaches;
    PlacedSub(f, p, |m|, e);
    PlacedSub(f, p', |m'|, e);
    if Substream(s).Got? {
      var m0, m0' := m, m';
      if f.htype.Repeated? {
        DefaultsInMoves(f, m, p, m', p', e);
        m0, m0' := SetDefaults(SubAt(f, p, e), m), SetDefaults(SubAt(f, p', e), m');
      }
      NoinitInMoves(f, m0, p, m0', p', e, Substream(s).value);
    }
  }

  lemma NoinitInMoves(f: Field, m: Memory, p: nat, m': Memory, p': nat, e: nat, s: seq<byte>)
    requires SameCells(f, m, p, m', p') && f.ltype.Submessage? && LongBelow(f) && e < Entries(f)
    ensures Placed(SubAt(f, p, e), |m|) && Placed(SubAt(f, p', e), |m'|)
    ensures var r, r' := DecodeNoinit(SubAt(f, p, e), m, s), DecodeNoinit(SubAt(f, p', e), m', s);
            (r.Ok? <==> r'.Ok?) && SameCells(f, r.value, p, r'.value, p')
    decreases f, 0
  {
    hide SameCells, DecodeNoinit, Write, LongArrays, WellFormed, Reaches, DataLen, Read;
    SameEntry(f, m, p, m', p', e);
    SameFacts(f, m, p, m', p');
    SubTable(f);
    var x, x' := SubAt(f, p, e), SubAt(f, p', e);
    NoinitMove(x, m, x', m', s);
    NoinitInside(x, m, s);
    NoinitInside(x', m', s);
    EntryInData(f, p, e);
    SameWriteData(f, m, p, m', p', f.dataSize * e, View(x, DecodeNoinit(x, m, s).value));
  }

  lemma ResetMoves(f: Field, m: Memory, p: nat, m': Memory, p': nat)
    requires SameCells(f, m, p, m', p') && f.ltype.Submessage? && f.htype.Oneof? && LongBelow(f)
    ensures SameCells(f, ResetMember(f, m, p), p, ResetMember(f, m', p'), p')
    decreases f, 1
  {
    hide WellFormed, Reaches, SetDefaults, Write, LongArrays, FromLittleEndian;
    if SlotAt(m, f, p).size != f.tag {
      SingleLen(f);
      SameWriteData(f, m, p, m', p', 0, Zeros(f.dataSize));
      DefaultsInMoves(f, Write(m, p, Zeros(f.dataSize)), p, Write(m', p', Zeros(f.dataSize)), p', 0);
    }
  }

  /** The same answer, the same input left and the same cells. */
  ghost predicate SameOutcome(f: Field, r: Result<Cells>, p: nat, r': Result<Cells>, p': nat) {
    && (r.Ok? <==> r'.Ok?) && (r.Ok? ==> r.rest == r'.rest)
    && SameCells(f, r.value.mem, p, r'.value.mem, p') && r.value.count == r'.value.count
  }

  lemma SubFieldMoves(f: Field, m: Memory, p: nat, m': Memory, p': nat, count: nat, s: seq<byte>)
    requires SameCells(f, m, p, m', p') && f.ltype.Submessage? && LongBelow(f)
    ensures SameOutcome(f, DecodeSubField(f, m, p, count, s), p, DecodeSubField(f, m', p', count, s), p')
    decreases f, 2
  {
    hide DecodeSubmessage, PutSizeAt, ResetMember, SameCells, LongBelow;
    SameCursor(f, m, p, m', p', count);
    hide CursorSlot;
    var n := CursorSlot(m, f, p, count).size;
    match f.htype
    case Required => SubmessageMoves(f, m, p, m', p', 0, s);
    case Optional =>
      SamePutSize(f, m, p, m', p', 1);
      if f.sizeOffset != 0 {
        SubmessageMoves(f, PutSizeAt(m, f, p, 1), p, PutSizeAt(m', f, p', 1), p', 0, s);
      } else {
        SubmessageMoves(f, m, p, m', p', 0, s);
      }
    case Oneof =>
      ResetMoves(f, m, p, m', p');
      var m1, m1' := ResetMember(f, m, p), ResetMember(f, m', p');
      SamePutSize(f, m1, p, m1', p', f.tag);
      SubmessageMoves(f, PutSizeAt(m1, f, p, f.tag), p, PutSizeAt(m1', f, p', f.tag), p', 0, s);
    case Repeated =>
      var next := (n + 1) % TWO32;
      SamePutSize(f, m, p, m', p', next);
      if n < f.arraySize {
        SubmessageMoves(f, PutSizeAt(m, f, p, next), p, PutSizeAt(m', f, p', next), p', n, s);
      }
  }

  lemma SameCursor(f: Field, m: Memory, p: nat, m': Memory, p': nat, count: nat)
    requires SameCells(f, m, p, m', p')
    ensures PlacedField(f, p, |m|) && PlacedField(f, p', |m'|) && CellsFor(f, p, |m|) && CellsFor(f, p', |m'|)
    ensures CursorSlot(m, f, p, count) == CursorSlot(m', f, p', count)
  {
    hide FieldReaches, WellFormedField, DataLen, FromLittleEndian;
  }

  /** One record's outcome depends on the field's own cells only. */
  lemma CellsMove(f: Field, m: Memory, p: nat, m': Memory, p': nat, count: nat, wireType: nat, s: seq<byte>)
    requires SameCells(f, m, p, m', p') && LongBelow(f)
    ensures SameOutcome(f, DecodeCells(f, m, p, count, wireType, s), p, DecodeCells(f, m', p', count, wireType, s), p')
    decreases f, 3
  {
    SameCursor(f, m, p, m', p', count);
    if f.ltype.Submessage? {
      SubFieldMoves(f, m, p, m', p', count, s);
    } else {
      var t := DecodeSlot(f, CursorSlot(m, f, p, count), wireType, s).value;
      SlotAtPut(m, f, p, t);
      SlotAtPut(m', f, p', t);
    }
    hide DecodeSlot, DecodeSubField, PutSlotAt, SlotAt, CursorSlot, FieldReaches, WellFormedField, CellsFor;
  }

  lemma DecodedOnly(f: Field, m: Memory, p: nat, count: nat, wireType: nat, s: seq<byte>)
    requires PlacedField(f, p, |m|) && LongBelow(f)
    ensures OnlyCells(f, p, m, DecodeCells(f, m, p, count, wireType, s).value.mem)
  {
    hide DecodeCells, InCells, FieldWrites, LongBelow, FieldReaches, WellFormedField, CellsFor;
    forall k | 0 <= k < |m| && !InCells(f, p, k)
      ensures DecodeCells(f, m, p, count, wireType, s).value.mem[k] == m[k]
    {
      if FieldWrites(f, p, k) {
        LongWrites(f, p, k);
      }
      CellsFrame(f, m, p, count, wireType, s, k);
    }
  }

  // ---- Messages ----

  /** Two states whose structs hold the same bytes. */
  ghost predicate SameState(x: Struct, st: State, x': Struct, st': State) {
    && StateFor(x, st) && StateFor(x', st') && x'.fields == x.fields && x'.size == x.size
    && View(x, st.mem) == View(x', st'.mem)
    && st'.seen == st.seen && st'.fixedField == st.fixedField && st'.fixedSize == st.fixedSize
  }

  lemma FieldOnly(x: Struct, st: State, i: nat, wireType: nat, s: seq<byte>)
    requires StateFor(x, st) && i < |x.fields| && LongBelow(x.fields[i])
    ensures OnlyCells(x.fields[i], Addr(x, i), st.mem, DecodeField(x, st, i, wireType, s).value.mem)
  {
    hide Placed, DecodeField, InCells, FieldWrites, LongBelow;
    var f, p := x.fields[i], Addr(x, i);
    PlacedEntry(x, i, |st.mem|);
    forall k | 0 <= k < |st.mem| && !InCells(f, p, k)
      ensures DecodeField(x, st, i, wireType, s).value.mem[k] == st.mem[k]
    {
      if FieldWrites(f, p, k) {
        LongWrites(f, p, k);
      }
      FieldFrame(x, st, i, wireType, s, k);
    }
  }

  lemma FieldMove(x: Struct, st: State, x': Struct, st': State, i: nat, wireType: nat, s: seq<byte>)
    requires SameState(x, st, x', st') && i < |x.fields| && LongBelow(x.fields[i])
    ensures var r, r' := DecodeField(x, st, i, wireType, s), DecodeField(x', st', i, wireType, s);
            (r.Ok? <==> r'.Ok?) && (r.Ok? ==> r.rest == r'.rest) && SameState(x, r.value, x', r'.value)
    decreases x.fields, 0
  {
    hide Placed, DecodeCells, LongBelow, SameCells, View, PlacedField, OnlyCells;
    var count := Enter(x.fields, st, i).fixedSize;
    PlacedEntry(x, i, |st.mem|);
    PlacedEntry(x', i, |st'.mem|);
    EntrySame(x, st.mem, x', st'.mem, i);
    CellsMove(x.fields[i], st.mem, Addr(x, i), st'.mem, Addr(x', i), count, wireType, s);
    FieldOnly(x, st, i, wireType, s);
    FieldOnly(x', st', i, wireType, s);
    if !(FixedCount(x.fields[i]) && st.fixedField != Some(i) && !FixedComplete(x.fields, st)) {
      ViewAfter(x, st.mem, DecodeCells(x.fields[i], st.mem, Addr(x, i), count, wireType, s).value.mem,
                x', st'.mem, DecodeCells(x.fields[i], st'.mem, Addr(x', i), count, wireType, s).value.mem, i);
    }
  }

  lemma RecordMove(x: Struct, st: State, x': Struct, st': State, tag: nat, wireType: nat, s: seq<byte>)
    requires SameState(x, st, x', st') && LongArrays(x.fields)
    ensures var r, r' := DecodeRecord(x, st, tag, wireType, s), DecodeRecord(x', st', tag, wireType, s);
            (r.Ok? <==> r'.Ok?) && (r.Ok? ==> r.rest == r'.rest) && SameState(x, r.value, x', r'.value)
    decreases x.fields, 1
  {
    hide WellFormed, Reaches, DecodeField, DecodeVarint32, SkipField, View, LongArrays;
    var i := IndexOf(x.fields, tag);
    if i < |x.fields| {
      LongEntry(x.fields, i);
      FieldMove(x, st, x', st', i, wireType, s);
    } else if x.fields == [] && tag == 0 {
      EmptyHasByte(x.size);
      FirstByteMove(x, st.mem, x', st'.mem, 0);
      FirstByteMove(x, st.mem, x', st'.mem, 1);
    }
  }

  lemma FirstByteMove(x: Struct, m: Memory, x': Struct, m': Memory, b: byte)
    requires x.base + x.size <= |m| && x'.base + x'.size <= |m'| && x'.size == x.size >= 1 && View(x, m) == View(x', m')
    ensures View(x, Write(m, x.base, [b])) == View(x', Write(m', x'.base, [b]))
  {
    WriteInside(m, x.base, x.size, 0, [b]);
    WriteInside(m', x'.base, x.size, 0, [b]);
  }

  lemma {:induction false} LoopMove(x: Struct, st: State, x': Struct, st': State, s: seq<byte>)
    requires SameState(x, st, x', st') && LongArrays(x.fields)
    ensures var r, r' := DecodeLoop(x, st, s), DecodeLoop(x', st', s);
            && (r.Ended? <==> r'.Ended?) && (r.Broken? <==> r'.Broken?) && SameState(x, r.st, x', r'.st)
            && (r.Stopped? ==> r'.Stopped? && r.rest == r'.rest)
    decreases x.fields, 2, |s|
  {
    hide SameState, DecodeRecord, DecodeVarint32, Placed, LongArrays;
    SameStates(x, st, x', st');
    if s != [] && DecodeVarint32(s).Got? && DecodeVarint32(s).value != 0 {
      var key, rest := DecodeVarint32(s).value, DecodeVarint32(s).rest;
      RecordMove(x, st, x', st', key / 8, key % 8, rest);
      var r, r' := DecodeRecord(x, st, key / 8, key % 8, rest), DecodeRecord(x', st', key / 8, key % 8, rest);
      if r.Ok? {
        LoopMove(x, r.value, x', r'.value, r.rest);
      }
    }
  }

  lemma SameStates(x: Struct, st: State, x': Struct, st': State)
    requires SameState(x, st, x', st')
    ensures StateFor(x, st) && StateFor(x', st') && x'.fields == x.fields
  {
  }

  lemma NoinitMove(x: Struct, m: Memory, x': Struct, m': Memory, s: seq<byte>)
    requires Placed(x, |m|) && Placed(x', |m'|) && x'.fields == x.fields && x'.size == x.size
    requires LongArrays(x.fields) && View(x, m) == View(x', m')
    ensures var r, r' := DecodeNoinit(x, m, s), DecodeNoinit(x', m', s);
            && (r.Ok? <==> r'.Ok?) && (r.Ok? ==> r.rest == r'.rest) && View(x, r.value) == View(x', r'.value)
    decreases x.fields, 3
  {
    hide Placed, DecodeLoop, View, LongArrays, AllRequiredSeen;
    LoopMove(x, Start(m), x', Start(m'), s);
  }

  /** Decoding in memory is decoding the struct's own bytes, put back in place. */
  lemma DecodeInPlace(x: Struct, m: Memory, s: seq<byte>)
    requires Placed(x, |m|) && LongArrays(x.fields)
    ensures Placed(Struct(x.fields, 0, x.size), x.size)
    ensures var r, r' := Decode(x, m, s), Decode(Struct(x.fields, 0, x.size), View(x, m), s);
            && (r.Ok? <==> r'.Ok?) && (r.Ok? ==> r.rest == r'.rest) && r.value == Write(m, x.base, r'.value)
  {
    hide WellFormed, Reaches, SetDefaults, DecodeNoinit, LongArrays;
    var y, v := Struct(x.fields, 0, x.size), View(x, m);
    LongReaches(x.fields, x.size, 0, x.size);
    assert View(y, v) == v;
    DefaultsMove(x, m, y, v);
    DefaultsInside(x, m);
    NoinitMove(x, SetDefaults(x, m), y, SetDefaults(y, v), s);
    NoinitInside(x, SetDefaults(x, m), s);
    assert View(y, Decode(y, v, s).value) == Decode(y, v, s).value;
    WriteWrite(m, x.base, View(x, SetDefaults(x, m)), View(x, Decode(x, m, s).value));
  }
}
