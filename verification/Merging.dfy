/** A submessage that arrives in two records is the submessage that arrives in one: a second record of a
    required, optional or oneof submessage is decoded into what the first has left. */
module Merging {
  import opened Bits
  import opened Wire
  import opened Varint32
  import opened Descriptor
  import opened StructMemory
  import opened Decoding
  import opened Records
  import opened Effects
  import opened Overrun
  import opened Frame
  import opened Placement
  import opened ValueRoundTrip
  import opened Arrivals
  import opened Clearing
  import opened TakenBytes

  /** Neither the defaults nor the records of an entry touch the field's has_, _count or which_ cell. */
  lemma SizeUntouched(f: Field, p: nat, len: nat, e: nat, k: nat)
    requires PlacedField(f, p, len) && f.ltype.Submessage? && e < Entries(f)
    requires (LongBelow(f) || SizeFirst(f)) && InSizeCell(f, p, k)
    ensures f.ptr.Sub? && !RecordsWrite(f.ptr.fields, EntryAddr(f, p, e), k)
    ensures !DefaultsWrite(f.ptr.fields, EntryAddr(f, p, e), k)
  {
    PlacedCells(f, p, len);
    SubTable(f);
    EntryInData(f, p, e);
    hide WellFormed, RecordsWrite, DefaultsWrite, FieldReaches, DataLen, SizeLen;
    var base, size := EntryAddr(f, p, e), f.dataSize;
    assert !InCell(base, size, k);
    if SizeFirst(f) {
      if RecordsWrite(f.ptr.fields, base, k) {
        RecordsBehind(f.ptr.fields, size, base, k);
      }
      if DefaultsWrite(f.ptr.fields, base, k) {
        DefaultsBehind(f.ptr.fields, size, base, k);
      }
    } else {
      if RecordsWrite(f.ptr.fields, base, k) {
        LongRecords(f.ptr.fields, size, base, k);
      }
      if DefaultsWrite(f.ptr.fields, base, k) {
        LongDefaults(f.ptr.fields, size, base, k);
      }
    }
  }

  lemma SizeStored(f: Field, m: Memory, p: nat)
    requires PlacedField(f, p, |m|) && f.ltype.Submessage? && !f.htype.Repeated? && SizeLen(f) > 0
    ensures CellsAt(f, p, |m|)
    ensures Read(Prepared(f, m, p), p + f.sizeOffset, SizeLen(f)) == LittleEndian(SentSize(f), SizeLen(f))
  {
    PlacedCells(f, p, |m|);
    hide WellFormedField, FieldReaches, LittleEndian, ResetMember, DataLen;
    var m1 := if f.htype.Oneof? then ResetMember(f, m, p) else m;
    NoSize(f, m, p);
    ReadWriteSame(m1, p + f.sizeOffset, LittleEndian(SentSize(f), SizeLen(f)));
  }

  /** Once the cell holds what a record stores there, another record starts from memory as it is. */
  lemma PreparedAgain(f: Field, m: Memory, p: nat)
    requires PlacedField(f, p, |m|) && f.ltype.Submessage? && !f.htype.Repeated? && CellsAt(f, p, |m|)
    requires SizeLen(f) > 0 ==> Read(m, p + f.sizeOffset, SizeLen(f)) == LittleEndian(SentSize(f), SizeLen(f))
    ensures Prepared(f, m, p) == m
  {
    PlacedCells(f, p, |m|);
    SentFits(f);
    NoSize(f, m, p);
    hide WellFormedField, FieldReaches, LittleEndian, FromLittleEndian, DataLen, CellsFor;
    if SizeLen(f) > 0 {
      WriteRead(m, p + f.sizeOffset, SizeLen(f));
    }
  }

  lemma CellStays(f: Field, m: Memory, p: nat, s: seq<byte>)
    requires PlacedField(f, p, |m|) && f.ltype.Submessage? && !f.htype.Repeated? && SizeLen(f) > 0
    requires LongBelow(f) || SizeFirst(f)
    ensures CellsAt(f, p, |m|) && Placed(SubAt(f, p, 0), |m|)
    ensures Read(DecodeNoinit(SubAt(f, p, 0), m, s).value, p + f.sizeOffset, SizeLen(f))
         == Read(m, p + f.sizeOffset, SizeLen(f))
  {
    PlacedCells(f, p, |m|);
    PlacedSub(f, p, |m|, 0);
    hide PlacedField, Placed, DecodeNoinit, RecordsWrite, LongBelow, DataLen, SizeLen, CellsFor;
    var m1 := DecodeNoinit(SubAt(f, p, 0), m, s).value;
    forall k: nat | p + f.sizeOffset <= k < p + f.sizeOffset + SizeLen(f)
      ensures m1[k] == m[k]
    {
      SizeByteStays(f, m, p, s, k);
    }
    SameRead(m, m1, p + f.sizeOffset, SizeLen(f));
  }

  lemma SizeByteStays(f: Field, m: Memory, p: nat, s: seq<byte>, k: nat)
    requires PlacedField(f, p, |m|) && f.ltype.Submessage? && !f.htype.Repeated? && Placed(SubAt(f, p, 0), |m|)
    requires (LongBelow(f) || SizeFirst(f)) && InSizeCell(f, p, k) && k < |m|
    ensures DecodeNoinit(SubAt(f, p, 0), m, s).value[k] == m[k]
  {
    hide PlacedField, Placed, DecodeNoinit, RecordsWrite, LongBelow, InSizeCell;
    SizeUntouched(f, p, |m|, 0, k);
    NoinitFrame(SubAt(f, p, 0), m, s, k);
  }

  lemma SameRead(m: Memory, m1: Memory, lo: nat, n: nat)
    requires |m1| == |m| && lo + n <= |m| && forall k: nat :: lo <= k < lo + n ==> m1[k] == m[k]
    ensures Read(m1, lo, n) == Read(m, lo, n)
  {
  }

  // ---- Flags and counts of submessages ----

  lemma SubmessageByteStays(f: Field, m: Memory, p: nat, e: nat, s: seq<byte>, k: nat)
    requires PlacedField(f, p, |m|) && f.ltype.Submessage? && e < Entries(f) && k < |m|
    requires (LongBelow(f) || SizeFirst(f)) && InSizeCell(f, p, k)
    ensures DecodeSubmessage(f, m, p, e, s).value[k] == m[k]
  {
    SizeUntouched(f, p, |m|, e, k);
    PlacedSub(f, p, |m|, e);
    hide PlacedField, Placed, DecodeNoinit, SetDefaults, RecordsWrite, DefaultsWrite, Substream, LongBelow, InSizeCell;
    var x := SubAt(f, p, e);
    DefaultsFrame(x, m, k);
    if Substream(s).Got? {
      NoinitFrame(x, m, Substream(s).value, k);
      NoinitFrame(x, SetDefaults(x, m), Substream(s).value, k);
    }
  }

  lemma SubmessageSizeStays(f: Field, m: Memory, p: nat, e: nat, s: seq<byte>)
    requires PlacedField(f, p, |m|) && f.ltype.Submessage? && e < Entries(f) && (LongBelow(f) || SizeFirst(f))
    ensures CellsAt(f, p, |m|)
    ensures SlotAt(DecodeSubmessage(f, m, p, e, s).value, f, p).size == SlotAt(m, f, p).size
  {
    PlacedCells(f, p, |m|);
    hide PlacedField, DecodeSubmessage, LongBelow, SlotAt, CellsFor, InCells, DataLen, SizeLen, SizeFirst;
    var m1 := DecodeSubmessage(f, m, p, e, s).value;
    forall k: nat | k < |m| && InSizeCell(f, p, k)
      ensures m1[k] == m[k]
    {
      SubmessageByteStays(f, m, p, e, s, k);
    }
    SameSize(f, m, m1, p);
  }

  lemma SameSize(f: Field, m: Memory, m1: Memory, p: nat)
    requires CellsAt(f, p, |m|) && |m1| == |m| && forall k: nat :: k < |m| && InSizeCell(f, p, k) ==> m1[k] == m[k]
    ensures SlotAt(m1, f, p).size == SlotAt(m, f, p).size
  {
    hide DataLen, FromLittleEndian, SizeLen;
    if SizeLen(f) > 0 {
      SameRead(m, m1, p + f.sizeOffset, SizeLen(f));
    }
  }

  /** A record of a submessage, accepted or not, sets its has_ flag to 1 or its which_ cell to the tag, and
      counts an array entry. */
  lemma SubmessageFlagStored(f: Field, m: Memory, p: nat, count: nat, s: seq<byte>)
    requires PlacedField(f, p, |m|) && f.ltype.Submessage? && (LongBelow(f) || SizeFirst(f))
    ensures CellsAt(f, p, |m|)
    ensures var c := DecodeSubField(f, m, p, count, s).value;
            var n := SlotAt(c.mem, f, p).size;
            && (HasFlag(f) ==> n == 1) && (f.htype.Oneof? ==> n == f.tag)
            && (Counted(f) ==> n == OneMore(SlotAt(m, f, p).size))
            && c.count == if FixedCount(f) then OneMore(count) else count
  {
    PlacedCells(f, p, |m|);
    hide PlacedField, DecodeSubmessage, LongBelow, SlotAt, PutSizeAt, CellsFor, CellsAt, LittleEndian,
      FromLittleEndian, ResetMember, SizeFirst, OneMore;
    if f.htype.Repeated? {
      EntryFlagStored(f, m, p, count, s);
    } else {
      var m1 := Prepared(f, m, p);
      SubFieldSteps(f, m, p, count, s);
      SubmessageSizeStays(f, m1, p, 0, s);
      if SizeLen(f) > 0 {
        SizeSent(f, m, p);
      }
    }
  }

  lemma SizeSent(f: Field, m: Memory, p: nat)
    requires PlacedField(f, p, |m|) && f.ltype.Submessage? && !f.htype.Repeated? && SizeLen(f) > 0
    ensures CellsAt(f, p, |m|) && SlotAt(Prepared(f, m, p), f, p).size == SentSize(f)
  {
    PlacedCells(f, p, |m|);
    SentFits(f);
    SizeStored(f, m, p);
    hide PlacedField, Prepared, LittleEndian, FromLittleEndian, SentSize;
  }

  lemma EntryFlagStored(f: Field, m: Memory, p: nat, count: nat, s: seq<byte>)
    requires PlacedField(f, p, |m|) && f.ltype.Submessage? && f.htype.Repeated? && (LongBelow(f) || SizeFirst(f))
    requires CellsFor(f, p, |m|) && CellsAt(f, p, |m|)
    ensures var c := DecodeSubField(f, m, p, count, s).value;
            && (Counted(f) ==> SlotAt(c.mem, f, p).size == OneMore(SlotAt(m, f, p).size))
            && c.count == if FixedCount(f) then OneMore(count) else count
  {
    hide PlacedField, DecodeSubField, DecodeSubmessage, PutSizeAt, SlotAt, CellsFor, CellsAt, FromLittleEndian,
      LittleEndian, LongBelow, SizeFirst, OneMore;
    var n := if FixedCount(f) then count else SlotAt(m, f, p).size;
    EntrySteps(f, m, p, count, n, s);
    if Counted(f) {
      SizeCellHolds(OneMore(n));
      SlotAtPutSize(m, f, p, OneMore(n));
    }
    if n < f.arraySize {
      SubmessageSizeStays(f, PutSizeAt(m, f, p, OneMore(n)), p, n, s);
    }
  }

  // ---- Parts ----

  lemma Whole(b: seq<byte>)
    requires |b| < TWO32
    ensures Substream(Delimited(b)) == Got(b, []) && SkipField(STRING, Delimited(b)) == Got((), [])
  {
    DelimitedRoundTrip(b, []);
    assert Delimited(b) + [] == Delimited(b);
    hide Substream, Delimited;
  }

  /** The submessage's record loop reaches the end of a, from where the first record lets it start. */
  ghost predicate Complete(f: Field, m: Memory, p: nat, a: seq<byte>)
    requires PlacedField(f, p, |m|) && f.ltype.Submessage? && !f.htype.Repeated?
  {
    PlacedSub(f, p, |m|, 0);
    DecodeLoop(SubAt(f, p, 0), Start(Prepared(f, m, p)), a).Ended?
  }

  /** The cells after two records are the cells after one. */
  lemma SubmessageMerges(f: Field, m: Memory, p: nat, count: nat, a: seq<byte>, b: seq<byte>)
    requires PlacedField(f, p, |m|) && f.ltype.Submessage? && !f.htype.Repeated? && f.ptr.Sub?
    requires (LongBelow(f) || SizeFirst(f)) && NoRequiredOrFixed(f.ptr.fields) && |a| + |b| < TWO32
    requires Complete(f, m, p, a)
    ensures var r := DecodeCells(f, m, p, count, 2, Delimited(a));
            && r.Ok? && r.rest == [] && r.value.count == count
            && DecodeCells(f, r.value.mem, p, count, 2, Delimited(b))
               == DecodeCells(f, m, p, count, 2, Delimited(a + b))
  {
    var x, m1 := SubAt(f, p, 0), Prepared(f, m, p);
    PlacedSub(f, p, |m|, 0);
    PlacedCells(f, p, |m|);
    Whole(a);
    Whole(b);
    Whole(a + b);
    hide PlacedField, Placed, Prepared, DecodeNoinit, Substream, Delimited, SkipField, DecodeLoop, CellsAt, CellsFor,
      LongBelow, WellFormedField;
    ConcatenationMerges(x, m1, a, b);
    var m2 := DecodeNoinit(x, m1, a).value;
    if SizeLen(f) > 0 {
      SizeStored(f, m, p);
      CellStays(f, m1, p, a);
    }
    PreparedAgain(f, m2, p);
    SubFieldSteps(f, m, p, count, Delimited(a));
    SubFieldSteps(f, m2, p, count, Delimited(b));
    SubFieldSteps(f, m, p, count, Delimited(a + b));
  }

  /** A zero key ends a submessage too, and what its length still holds is passed over. */
  lemma RestPassedOver(f: Field, m: Memory, p: nat, count: nat, a: seq<byte>, t: seq<byte>)
    requires PlacedField(f, p, |m|) && f.ltype.Submessage? && !f.htype.Repeated?
    requires |a| + 1 + |t| < TWO32 && Complete(f, m, p, a)
    ensures DecodeCells(f, m, p, count, 2, Delimited(a + [0] + t)) == DecodeCells(f, m, p, count, 2, Delimited(a))
  {
    PlacedSub(f, p, |m|, 0);
    Whole(a);
    Whole(a + [0] + t);
    hide PlacedField, Placed, Prepared, DecodeNoinit, Substream, Delimited, SkipField, DecodeLoop;
    ZeroKeyEnds(SubAt(f, p, 0), Prepared(f, m, p), a, t);
    SubFieldSteps(f, m, p, count, Delimited(a));
    SubFieldSteps(f, m, p, count, Delimited(a + [0] + t));
  }

  ghost predicate CompleteRecord(x: Struct, st: State, i: nat, a: seq<byte>)
    requires StateFor(x, st) && i < |x.fields| && x.fields[i].ltype.Submessage? && !x.fields[i].htype.Repeated?
  {
    PlacedEntry(x, i, |st.mem|);
    Complete(x.fields[i], st.mem, Addr(x, i), a)
  }

  /** In a message, from any state: a record of a submessage with a in it and then one with b leave what
      one record with both leaves. */
  lemma RecordsMerge(x: Struct, st: State, i: nat, a: seq<byte>, b: seq<byte>, tail: seq<byte>)
    requires StateFor(x, st) && i < |x.fields| && x.fields[i].ltype.Submessage? && !x.fields[i].htype.Repeated?
    requires CompleteRecord(x, st, i, a)
    requires x.fields[i].ptr.Sub? && NoRequiredOrFixed(x.fields[i].ptr.fields) && |a| + |b| < TWO32
    requires LongBelow(x.fields[i]) || SizeFirst(x.fields[i])
    ensures var key := KeyBytes(x.fields[i].tag, 2);
            DecodeLoop(x, st, key + Delimited(a) + (key + Delimited(b) + tail))
            == DecodeLoop(x, st, key + Delimited(a + b) + tail)
  {
    var key := KeyBytes(x.fields[i].tag, 2);
    Whole(a);
    Whole(b);
    Whole(a + b);
    hide Placed, PlacedField, DecodeField, DecodeLoop, SkipField, KeyBytes, Delimited, LongBelow, CompleteRecord,
      NoRequiredOrFixed;
    FieldMerges(x, st, i, a, b);
    LoopOfField(x, st, i, STRING, Delimited(a), key + Delimited(b) + tail);
    LoopOfField(x, DecodeField(x, st, i, STRING, Delimited(a)).value, i, STRING, Delimited(b), tail);
    LoopOfField(x, st, i, STRING, Delimited(a + b), tail);
  }

  lemma FieldMerges(x: Struct, st: State, i: nat, a: seq<byte>, b: seq<byte>)
    requires StateFor(x, st) && i < |x.fields| && x.fields[i].ltype.Submessage? && !x.fields[i].htype.Repeated?
    requires CompleteRecord(x, st, i, a)
    requires x.fields[i].ptr.Sub? && NoRequiredOrFixed(x.fields[i].ptr.fields) && |a| + |b| < TWO32
    requires LongBelow(x.fields[i]) || SizeFirst(x.fields[i])
    ensures var r := DecodeField(x, st, i, 2, Delimited(a));
            r.Ok? && DecodeField(x, r.value, i, 2, Delimited(b)) == DecodeField(x, st, i, 2, Delimited(a + b))
  {
    PlacedEntry(x, i, |st.mem|);
    hide Placed, PlacedField, DecodeCells, Delimited, Complete, LongBelow, NoRequiredOrFixed, Addr, Mark;
    SubmessageMerges(x.fields[i], st.mem, Addr(x, i), st.fixedSize, a, b);
    assert Enter(x.fields, Enter(x.fields, st, i), i) == Enter(x.fields, st, i);
  }
}
