/** The zero count that pb_field_set_to_default stores over a fixed-count array: exactly which bytes the
    default values write, and exactly when they stay inside the entries' own cells. */
module Overrun {
  import opened Bits
  import opened Descriptor
  import opened StructMemory
  import opened Decoding

  // ---- Exactly the bytes the defaults write ----

  /** pb_field_set_to_default on a field at p stores something in byte k. */
  ghost predicate DefaultWrites(f: Field, p: nat, k: nat)
    decreases f
  {
    if FixedCount(f) then InCell(p, SIZE_BYTES, k)
    else
      || InSizeCell(f, p, k)
      || (!f.htype.Repeated? && !f.htype.Oneof?
          && if f.ltype.Submessage? && f.ptr.Sub? then DefaultsWrite(f.ptr.fields, EntryAddr(f, p, 0), k)
             else InCell(p, f.dataSize, k))
  }

  /** pb_message_set_to_defaults on a struct at base stores something in byte k. */
  ghost predicate DefaultsWrite(fields: seq<Field>, base: nat, k: nat)
    decreases fields, 1
  {
    exists i: nat :: i < |fields| && WritesFor(fields, base, i, k)
  }

  ghost predicate WritesFor(fields: seq<Field>, base: nat, i: nat, k: nat)
    requires i < |fields|
    decreases fields, 0
  {
    DefaultWrites(fields[i], base + PData(fields, i), k)
  }

  /** Byte k after the defaults: what stands there does not depend on memory if it is written, and is
      what stood there if it is not. */
  lemma DefaultFieldByte(f: Field, m: Memory, m': Memory, p: nat, k: nat)
    requires PlacedField(f, p, |m|) && |m'| == |m| && k < |m|
    ensures DefaultWrites(f, p, k) || m[k] == m'[k] ==> DefaultField(f, m, p)[k] == DefaultField(f, m', p)[k]
    ensures !DefaultWrites(f, p, k) ==> DefaultField(f, m, p)[k] == m[k]
    decreases f
  {
    hide SetDefaults, WellFormed, Reaches, DataLen, LittleEndian, DefaultsWrite, WellFormedField;
    PlacedCells(f, p, |m|);
    if !f.htype.Repeated? && !f.htype.Oneof? && f.ltype.Submessage? {
      PlacedSub(f, p, |m|, 0);
      DefaultsByte(SubAt(f, p, 0), PutSizeAt(m, f, p, 0), PutSizeAt(m', f, p, 0), 0, k);
    } else {
      StoredByte(f, m, m', p, k);
    }
  }

  /** The fields whose default is a number or a value. */
  lemma StoredByte(f: Field, m: Memory, m': Memory, p: nat, k: nat)
    requires PlacedField(f, p, |m|) && |m'| == |m| && k < |m| && CellsAt(f, p, |m|)
    requires f.htype.Repeated? || f.htype.Oneof? || !f.ltype.Submessage?
    ensures DefaultWrites(f, p, k) || m[k] == m'[k] ==> DefaultField(f, m, p)[k] == DefaultField(f, m', p)[k]
    ensures !DefaultWrites(f, p, k) ==> DefaultField(f, m, p)[k] == m[k]
  {
    hide SetDefaults, DefaultsWrite, FieldReaches, PutSizeAt, InSizeCell, CellsAt, DefaultBytes, PlacedField, Write;
    if FixedCount(f) {
      PlacedCount(f, p, |m|);
    } else {
      SizeByte(m, m', f, p, k);
      if !f.htype.Repeated? {
        SingleLen(f);
        PlacedData(f, p, |m|);
      }
    }
  }

  lemma SizeByte(m: Memory, m': Memory, f: Field, p: nat, k: nat)
    requires CellsAt(f, p, |m|) && |m'| == |m| && k < |m|
    ensures InSizeCell(f, p, k) || m[k] == m'[k] ==> PutSizeAt(m, f, p, 0)[k] == PutSizeAt(m', f, p, 0)[k]
    ensures !InSizeCell(f, p, k) ==> PutSizeAt(m, f, p, 0)[k] == m[k] && PutSizeAt(m', f, p, 0)[k] == m'[k]
  {
    hide LittleEndian, DataLen;
  }

  lemma PlacedCount(f: Field, p: nat, len: nat)
    requires PlacedField(f, p, len) && FixedCount(f)
    ensures p + SIZE_BYTES <= len
  {
  }

  lemma PlacedData(f: Field, p: nat, len: nat)
    requires PlacedField(f, p, len)
    ensures WellFormedField(f) && p + DataLen(f) <= len
  {
  }

  ghost predicate WritesFrom(fields: seq<Field>, base: nat, i: nat, k: nat) {
    exists j: nat :: i <= j < |fields| && WritesFor(fields, base, j, k)
  }

  lemma {:induction false} DefaultsByte(x: Struct, m: Memory, m': Memory, i: nat, k: nat)
    requires Placed(x, |m|) && |m'| == |m| && k < |m| && i <= |x.fields|
    ensures WritesFrom(x.fields, x.base, i, k) || m[k] == m'[k]
        ==> DefaultsFrom(x, m, i)[k] == DefaultsFrom(x, m', i)[k]
    ensures !WritesFrom(x.fields, x.base, i, k) ==> DefaultsFrom(x, m, i)[k] == m[k]
    ensures i == 0 ==> SetDefaults(x, m) == DefaultsFrom(x, m, 0) && SetDefaults(x, m') == DefaultsFrom(x, m', 0)
    ensures i == 0 ==> (WritesFrom(x.fields, x.base, 0, k) <==> DefaultsWrite(x.fields, x.base, k))
    decreases x.fields, |x.fields| - i
  {
    hide Placed, DefaultField, DefaultWrites, PData, PlacedField;
    if i < |x.fields| {
      var f, p := x.fields[i], Addr(x, i);
      PlacedEntry(x, i, |m|);
      DefaultFieldByte(f, m, m', p, k);
      DefaultFieldByte(f, m', m, p, k);
      DefaultsByte(x, DefaultField(f, m, p), DefaultField(f, m', p), i + 1, k);
      WritesSplit(x.fields, x.base, i, k);
    }
  }

  lemma WritesSplit(fields: seq<Field>, base: nat, i: nat, k: nat)
    requires i < |fields|
    ensures WritesFrom(fields, base, i, k)
       <==> DefaultWrites(fields[i], base + PData(fields, i), k) || WritesFrom(fields, base, i + 1, k)
  {
    hide DefaultWrites, PData;
    assert WritesFor(fields, base, i, k) <==> DefaultWrites(fields[i], base + PData(fields, i), k);
  }

  /** A byte survives pb_message_set_to_defaults, whatever memory holds, if and only if the table's
      defaults do not write it. */
  lemma DefaultsExactly(x: Struct, len: nat, k: nat)
    requires Placed(x, len) && k < len
    ensures (forall m: Memory :: |m| == len ==> SetDefaults(x, m)[k] == m[k])
       <==> !DefaultsWrite(x.fields, x.base, k)
  {
    hide Placed, SetDefaults, DefaultsWrite, DefaultsFrom, WritesFrom;
    forall m: Memory | |m| == len && !DefaultsWrite(x.fields, x.base, k)
      ensures SetDefaults(x, m)[k] == m[k]
    {
      DefaultsByte(x, m, m, 0, k);
    }
    if DefaultsWrite(x.fields, x.base, k) {
      var zeros: Memory, ones: Memory := seq(len, j => 0), seq(len, j => 1);
      DefaultsByte(x, zeros, ones, 0, k);
      assert SetDefaults(x, zeros)[k] != zeros[k] || SetDefaults(x, ones)[k] != ones[k];
    }
  }

  // ---- Exactly when they stay in the cells ----

  /** For a fixed-count array: its default writes no byte outside its cell, whatever memory holds, if
      and only if the array has at least four bytes. */
  lemma FixedDefaultExactly(f: Field, p: nat, len: nat)
    requires PlacedField(f, p, len) && FixedCount(f)
    ensures (forall m: Memory, k: nat :: |m| == len && k < len && !InCells(f, p, k)
                                         ==> DefaultField(f, m, p)[k] == m[k])
       <==> DataLen(f) >= 4
  {
    hide WellFormedField, DataLen;
    if DataLen(f) < SIZE_BYTES {
      var ones: Memory := seq(len, j => 1);
      assert !InCells(f, p, p + DataLen(f)) && DefaultField(f, ones, p)[p + DataLen(f)] == 0;
    }
  }

  /** The cells the defaults of a table are meant for. */
  ghost predicate FieldOwns(f: Field, p: nat, k: nat)
    decreases f
  {
    || InSizeCell(f, p, k)
    || (if f.ltype.Submessage? && f.ptr.Sub? && !f.htype.Repeated? && !f.htype.Oneof?
        then TableOwns(f.ptr.fields, EntryAddr(f, p, 0), k)
        else InCell(p, DataLen(f), k))
  }

  ghost predicate TableOwns(fields: seq<Field>, base: nat, k: nat)
    decreases fields, 1
  {
    exists i: nat :: i < |fields| && OwnsFor(fields, base, i, k)
  }

  ghost predicate OwnsFor(fields: seq<Field>, base: nat, i: nat, k: nat)
    requires i < |fields|
    decreases fields, 0
  {
    FieldOwns(fields[i], base + PData(fields, i), k)
  }

  /** Byte k lies past a fixed-count array that the defaults reach, within the zero count. */
  ghost predicate FieldOverruns(f: Field, p: nat, k: nat)
    decreases f
  {
    if FixedCount(f) then p + DataLen(f) <= k < p + SIZE_BYTES
    else
      && f.ltype.Submessage? && f.ptr.Sub? && !f.htype.Repeated? && !f.htype.Oneof?
      && TableOverruns(f.ptr.fields, EntryAddr(f, p, 0), k)
  }

  ghost predicate TableOverruns(fields: seq<Field>, base: nat, k: nat)
    decreases fields, 1
  {
    exists i: nat :: i < |fields| && OverrunsFor(fields, base, i, k)
  }

  ghost predicate OverrunsFor(fields: seq<Field>, base: nat, i: nat, k: nat)
    requires i < |fields|
    decreases fields, 0
  {
    FieldOverruns(fields[i], base + PData(fields, i), k)
  }

  /** What the defaults write is owned or overrun, and what they overrun they write. */
  lemma FieldWritesSplit(f: Field, p: nat, k: nat)
    ensures DefaultWrites(f, p, k) ==> FieldOwns(f, p, k) || FieldOverruns(f, p, k)
    ensures FieldOverruns(f, p, k) ==> DefaultWrites(f, p, k)
    decreases f
  {
    hide TableOwns, TableOverruns, DefaultsWrite;
    if f.ltype.Submessage? && f.ptr.Sub? && !f.htype.Repeated? && !f.htype.Oneof? {
      TableWritesSplit(f.ptr.fields, EntryAddr(f, p, 0), k);
    }
  }

  lemma Writer(fields: seq<Field>, base: nat, k: nat) returns (i: nat)
    requires DefaultsWrite(fields, base, k)
    ensures i < |fields| && WritesFor(fields, base, i, k)
  {
    i :| i < |fields| && WritesFor(fields, base, i, k);
  }

  lemma Overrunner(fields: seq<Field>, base: nat, k: nat) returns (i: nat)
    requires TableOverruns(fields, base, k)
    ensures i < |fields| && OverrunsFor(fields, base, i, k)
  {
    i :| i < |fields| && OverrunsFor(fields, base, i, k);
  }

  lemma TableWritesSplit(fields: seq<Field>, base: nat, k: nat)
    ensures DefaultsWrite(fields, base, k) ==> TableOwns(fields, base, k) || TableOverruns(fields, base, k)
    ensures TableOverruns(fields, base, k) ==> DefaultsWrite(fields, base, k)
    decreases fields
  {
    hide DefaultWrites, FieldOwns, FieldOverruns, PData;
    if DefaultsWrite(fields, base, k) {
      var i := Writer(fields, base, k);
      FieldWritesSplit(fields[i], base + PData(fields, i), k);
      assert OwnsFor(fields, base, i, k) || OverrunsFor(fields, base, i, k);
    }
    if TableOverruns(fields, base, k) {
      var i := Overrunner(fields, base, k);
      FieldWritesSplit(fields[i], base + PData(fields, i), k);
      assert WritesFor(fields, base, i, k);
    }
  }

  /** pb_message_set_to_defaults leaves every byte that the table does not own as it was, whatever
      memory holds, if and only if what its fixed-count arrays overrun is owned by other entries. */
  lemma DefaultsContainedExactly(x: Struct, len: nat)
    requires Placed(x, len)
    ensures (forall m: Memory, k: nat :: |m| == len && k < len && !TableOwns(x.fields, x.base, k)
                                         ==> SetDefaults(x, m)[k] == m[k])
       <==> forall k: nat :: k < len && TableOverruns(x.fields, x.base, k) ==> TableOwns(x.fields, x.base, k)
  {
    hide Placed, SetDefaults, DefaultsWrite, TableOwns, TableOverruns;
    if forall k: nat :: k < len && TableOverruns(x.fields, x.base, k) ==> TableOwns(x.fields, x.base, k) {
      forall m: Memory, k: nat | |m| == len && k < len && !TableOwns(x.fields, x.base, k)
        ensures SetDefaults(x, m)[k] == m[k]
      {
        TableWritesSplit(x.fields, x.base, k);
        DefaultsExactly(x, len, k);
      }
    } else {
      var k: nat :| k < len && TableOverruns(x.fields, x.base, k) && !TableOwns(x.fields, x.base, k);
      TableWritesSplit(x.fields, x.base, k);
      DefaultsExactly(x, len, k);
    }
  }

  /** Every fixed-count array that the defaults of the table reach can hold a pb_size_t. */
  ghost predicate LongReached(fields: seq<Field>)
    decreases fields, 1
  {
    forall i :: 0 <= i < |fields| ==> FieldLong(fields[i])
  }

  ghost predicate FieldLong(f: Field)
    decreases f
  {
    && (FixedCount(f) ==> DataLen(f) >= 4)
    && (f.ltype.Submessage? && f.ptr.Sub? && !f.htype.Repeated? && !f.htype.Oneof? ==> LongReached(f.ptr.fields))
  }

  /** The defaults overrun no fixed-count array if and only if each one they reach has at
      least four bytes. */
  lemma OverrunsNowhere(fields: seq<Field>, base: nat)
    ensures (forall k: nat :: !TableOverruns(fields, base, k)) <==> LongReached(fields)
    decreases fields, 1
  {
    hide TableOverruns, LongReached;
    if LongReached(fields) {
      forall k: nat
        ensures !TableOverruns(fields, base, k)
      {
        LongNeverOverruns(fields, base, k);
      }
    } else {
      var k := ShortOverruns(fields, base);
    }
  }

  lemma LongNeverOverruns(fields: seq<Field>, base: nat, k: nat)
    requires LongReached(fields)
    ensures !TableOverruns(fields, base, k)
    decreases fields, 1
  {
    hide PData, FieldOverruns, FieldLong;
    if TableOverruns(fields, base, k) {
      var i := Overrunner(fields, base, k);
      assert FieldLong(fields[i]);
      LongFieldNever(fields[i], base + PData(fields, i), k);
    }
  }

  lemma LongFieldNever(f: Field, p: nat, k: nat)
    requires FieldLong(f)
    ensures !FieldOverruns(f, p, k)
    decreases f
  {
    if FixedCount(f) {
    } else if f.ltype.Submessage? && f.ptr.Sub? && !f.htype.Repeated? && !f.htype.Oneof? {
      LongNeverOverruns(f.ptr.fields, EntryAddr(f, p, 0), k);
    }
  }

  lemma ShortOverruns(fields: seq<Field>, base: nat) returns (k: nat)
    requires !LongReached(fields)
    ensures TableOverruns(fields, base, k)
    decreases fields, 1
  {
    hide PData, FieldOverruns, FieldLong;
    var i :| 0 <= i < |fields| && !FieldLong(fields[i]);
    k := ShortFieldOverruns(fields[i], base + PData(fields, i));
    assert OverrunsFor(fields, base, i, k);
  }

  lemma ShortFieldOverruns(f: Field, p: nat) returns (k: nat)
    requires !FieldLong(f)
    ensures FieldOverruns(f, p, k)
    decreases f
  {
    if HoldsCount(f) {
      k := ShortOverruns(f.ptr.fields, EntryAddr(f, p, 0));
      BelowOverruns(f, p, k);
    } else {
      k := p + DataLen(f);
    }
    hide TableOverruns, LongReached;
  }

  lemma BelowOverruns(f: Field, p: nat, k: nat)
    requires f.ltype.Submessage? && f.ptr.Sub? && !f.htype.Repeated? && !f.htype.Oneof?
    requires TableOverruns(f.ptr.fields, EntryAddr(f, p, 0), k)
    ensures FieldOverruns(f, p, k)
  {
  }
}
