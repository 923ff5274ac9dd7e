/** What an initialised struct holds, byte for byte: the default values of its table, at every depth. */
module DefaultValues {
  import opened Bits
  import opened Wire
  import opened Descriptor
  import opened StructMemory
  import opened Encoding
  import opened Decoding
  import opened Locality
  import opened Overrun
  import opened Messages
  import opened Placement
  import opened OldMemory
  import opened TakenBytes

  /** A single value holds the table's default, or zeros if the table has none. */
  ghost predicate DefaultSlot(f: Field, s: Slot)
    requires SlotFor(f, s)
    decreases f
  {
    && (!FixedCount(f) ==> s.size == 0)
    && (f.htype.Required? || f.htype.Optional?
        ==> if f.ltype.Submessage? then Defaulted(f.ptr.fields, s.data)
            else if f.ptr.Default? then s.data == f.ptr.bytes
            else forall k :: 0 <= k < |s.data| ==> s.data[k] == 0)
  }

  /** Flags, counts and which_ values are zero, and single values hold their defaults, in submessages
      too. */
  ghost predicate Defaulted(fields: seq<Field>, v: Memory)
    requires WellFormed(fields, |v|)
    decreases fields
  {
    forall i :: 0 <= i < |fields| ==> DefaultSlot(fields[i], GetSlot(fields, i, v))
  }

  lemma EntryDefaulted(x: Struct, m: Memory, i: nat)
    requires Placed(x, |m|) && LongArrays(x.fields) && i < |x.fields| && Unshared(x.fields, i)
    ensures PlacedField(x.fields[i], Addr(x, i), |m|)
    ensures SlotFor(x.fields[i], SlotAt(SetDefaults(x, m), x.fields[i], Addr(x, i)))
    ensures DefaultSlot(x.fields[i], SlotAt(SetDefaults(x, m), x.fields[i], Addr(x, i)))
    decreases x.fields, 0
  {
    hide Placed, LongArrays, PlacedField, SetDefaults, DefaultField, SlotAt, Addr, CellsAt, View, SlotFor, Defaulted,
      WellFormedField, PutSizeAt, SubAt, Unshared;
    var f, p := x.fields[i], Addr(x, i);
    PlacedEntry(x, i, |m|);
    PlacedCells(f, p, |m|);
    EntryDefaults(x, m, i);
    LongEntry(x.fields, i);
    SlotFits(f, p, SetDefaults(x, m));
    if FixedCount(f) {
    } else if f.htype.Repeated? || f.htype.Oneof? {
      ClearedDefault(f, m, p);
    } else if f.ltype.Submessage? {
      SubDefault(f, m, p);
      SubFieldsOf(f, p, 0);
      DefaultsStored(SubAt(f, p, 0), PutSizeAt(m, f, p, 0));
    } else {
      ValueDefault(f, m, p);
    }
  }

  lemma SlotFits(f: Field, p: nat, m: Memory)
    requires PlacedField(f, p, |m|) && CellsAt(f, p, |m|)
    ensures SlotFor(f, SlotAt(m, f, p))
  {
  }

  lemma SubFieldsOf(f: Field, p: nat, k: nat)
    requires WellFormedField(f) && f.ltype.Submessage?
    ensures f.ptr.Sub? && SubAt(f, p, k).fields == f.ptr.fields
    ensures LongBelow(f) ==> LongArrays(SubAt(f, p, k).fields)
    ensures SubAt(f, p, k).size == f.dataSize && WellFormed(f.ptr.fields, f.dataSize)
  {
  }

  /** Initialising leaves the default values, whatever memory held. */
  lemma DefaultsStored(x: Struct, m: Memory)
    requires Placed(x, |m|) && LongArrays(x.fields)
    ensures WellFormed(x.fields, x.size) && Defaulted(x.fields, View(x, SetDefaults(x, m)))
    decreases x.fields, 1
  {
    TableFits(x, |m|);
    NoneSelected(x, m);
    var v := View(x, SetDefaults(x, m));
    hide Placed, LongArrays, SetDefaults, SlotAt, View, DefaultSlot, WellFormed, GetSlot, Addr, Unshared, PlacedField,
      SlotFor, GetSize;
    forall i | 0 <= i < |x.fields|
      ensures SlotFor(x.fields[i], GetSlot(x.fields, i, v)) && DefaultSlot(x.fields[i], GetSlot(x.fields, i, v))
    {
      ViewSlot(x, i, SetDefaults(x, m));
      if x.fields[i].htype.Oneof? {
        MemberDefaulted(x.fields[i], GetSlot(x.fields, i, v));
      } else {
        SingleUnshared(x.fields, i);
        EntryDefaulted(x, m, i);
      }
    }
  }

  lemma MemberDefaulted(f: Field, s: Slot)
    requires SlotFor(f, s) && f.htype.Oneof? && s.size == 0
    ensures DefaultSlot(f, s)
  {
  }

  lemma TableFits(x: Struct, len: nat)
    requires Placed(x, len)
    ensures WellFormed(x.fields, x.size) && x.base + x.size <= len
  {
  }

  lemma NoneSelected(x: Struct, m: Memory)
    requires Placed(x, |m|) && LongArrays(x.fields)
    ensures forall i :: 0 <= i < |x.fields| && x.fields[i].htype.Oneof?
                        ==> GetSlot(x.fields, i, View(x, SetDefaults(x, m))).size == 0
  {
    hide Placed, LongArrays, View, GetSize, AgreeAt, Addr, WellFormed;
    DefaultsFromAgree(x, m, m, 0);
    TableFits(x, |m|);
  }

  lemma SingleUnshared(fields: seq<Field>, i: nat)
    requires i < |fields| && !fields[i].htype.Oneof?
    ensures Unshared(fields, i)
  {
    forall j | 0 <= j < |fields| && j != i
      ensures Leader(fields, j) != Leader(fields, i)
    {
      if Leader(fields, j) == Leader(fields, i) {
        SharedAreOneof(fields, i, j);
      }
    }
  }

  /** A required or optional entry that is no submessage holds the bytes of the table's default, or
      zeros, after initialising and after decoding the empty input, over any memory. */
  lemma DefaultValueStored(x: Struct, m: Memory, i: nat)
    requires Placed(x, |m|) && LongArrays(x.fields) && i < |x.fields| && !x.fields[i].ltype.Submessage?
    requires x.fields[i].htype.Required? || x.fields[i].htype.Optional?
    ensures Decode(x, m, []).value == SetDefaults(x, m)
    ensures var f, p := x.fields[i], Addr(x, i);
            && p + f.dataSize <= |m|
            && if f.ptr.Default? then Read(SetDefaults(x, m), p, f.dataSize) == f.ptr.bytes
               else forall k :: p <= k < p + f.dataSize ==> SetDefaults(x, m)[k] == 0
  {
    LoopOfNothing(x, Start(SetDefaults(x, m)));
    var f, p := x.fields[i], Addr(x, i);
    SingleUnshared(x.fields, i);
    EntryDefaulted(x, m, i);
    PlacedCells(f, p, |m|);
    SingleLen(f);
    DefaultRead(f, SetDefaults(x, m), p);
    hide Placed, LongArrays, SetDefaults, DecodeLoop, PlacedField, DefaultSlot, SlotAt, AllRequiredSeen;
  }

  lemma DefaultRead(f: Field, m: Memory, p: nat)
    requires CellsAt(f, p, |m|) && SlotFor(f, SlotAt(m, f, p)) && DefaultSlot(f, SlotAt(m, f, p))
    requires !f.ltype.Submessage? && (f.htype.Required? || f.htype.Optional?)
    ensures p + f.dataSize <= |m|
    ensures if f.ptr.Default? then Read(m, p, f.dataSize) == f.ptr.bytes
            else forall k :: p <= k < p + f.dataSize ==> m[k] == 0
  {
    assert SlotAt(m, f, p).data == Read(m, p, f.dataSize);
    if !f.ptr.Default? {
      forall k | p <= k < p + f.dataSize
        ensures m[k] == 0
      {
        assert Read(m, p, f.dataSize)[k - p] == m[k];
      }
    }
  }

  // ---- Submessages that arrive ----

  /** A new entry of an array starts from its defaults: a record without content leaves just these. */
  lemma EntryArrives(f: Field, m: Memory, p: nat, count: nat, e: nat)
    requires PlacedField(f, p, |m|) && f.ltype.Submessage? && LongBelow(f) && f.htype.Repeated? && CellsAt(f, p, |m|)
    requires e == (if f.sizeOffset == 0 then count else SlotAt(m, f, p).size) < f.arraySize
    ensures Placed(SubAt(f, p, e), |m|) && f.ptr.Sub? && WellFormed(f.ptr.fields, f.dataSize)
    ensures Defaulted(f.ptr.fields, View(SubAt(f, p, e), DecodeCells(f, m, p, count, 2, [0]).value.mem))
  {
    hide Placed, LongBelow, LongArrays, SetDefaults, WellFormedField, Defaulted, WellFormed, CellsAt, View,
      DecodeSubmessage, PutSizeAt, PlacedField, SlotAt, SubAt, DecodeCells, OneMore;
    var m1 := PutSizeAt(m, f, p, OneMore(e));
    NextEntry(f, m, p, count, e);
    SubFieldsOf(f, p, e);
    EmptySubmessage(f, m1, p, e);
    DefaultsStored(SubAt(f, p, e), m1);
  }

  lemma NextEntry(f: Field, m: Memory, p: nat, count: nat, e: nat)
    requires PlacedField(f, p, |m|) && f.ltype.Submessage? && f.htype.Repeated? && CellsAt(f, p, |m|)
    requires e == (if f.sizeOffset == 0 then count else SlotAt(m, f, p).size) < f.arraySize
    ensures WellFormedField(f)
    ensures DecodeCells(f, m, p, count, 2, [0]).value.mem
         == DecodeSubmessage(f, PutSizeAt(m, f, p, OneMore(e)), p, e, [0]).value
  {
    PlacedCells(f, p, |m|);
    hide PlacedField, DecodeSubField, DecodeSubmessage, PutSizeAt, SlotAt, CellsAt, OneMore, WellFormedField;
    EntrySteps(f, m, p, count, e, [0]);
  }

  lemma EmptySubmessage(f: Field, m: Memory, p: nat, k: nat)
    requires PlacedField(f, p, |m|) && f.ltype.Submessage? && k < Entries(f)
    ensures Placed(SubAt(f, p, k), |m|)
    ensures DecodeSubmessage(f, m, p, k, [0]).value == if f.htype.Repeated? then SetDefaults(SubAt(f, p, k), m) else m
  {
    PlacedSub(f, p, |m|, k);
    EmptySubstream();
    hide Placed, PlacedField, SetDefaults, Substream, DecodeNoinit;
    var m0 := if f.htype.Repeated? then SetDefaults(SubAt(f, p, k), m) else m;
    EmptyNoinit(SubAt(f, p, k), m0);
  }

  /** So does a member of a oneof if another was selected; what has no default, as a fixed-count array past
      the zero count, is cleared. */
  lemma MemberArrives(f: Field, m: Memory, p: nat, count: nat)
    requires PlacedField(f, p, |m|) && f.ltype.Submessage? && LongBelow(f) && f.htype.Oneof? && CellsAt(f, p, |m|)
    requires SlotAt(m, f, p).size != f.tag
    ensures Placed(SubAt(f, p, 0), |m|) && f.ptr.Sub? && WellFormed(f.ptr.fields, f.dataSize)
    ensures Defaulted(f.ptr.fields, View(SubAt(f, p, 0), DecodeCells(f, m, p, count, 2, [0]).value.mem))
    ensures forall k :: p <= k < p + f.dataSize && !DefaultsWrite(f.ptr.fields, p, k)
                        ==> k < |m| && DecodeCells(f, m, p, count, 2, [0]).value.mem[k] == 0
  {
    hide DefaultsWrite, Placed, LongBelow, LongArrays, SetDefaults, WellFormedField, Defaulted, WellFormed, CellsAt,
      View, DecodeSubmessage, PutSizeAt, PlacedField, SlotAt, SubAt, DecodeCells;
    PlacedCells(f, p, |m|);
    PlacedData(f, p, |m|);
    SubFieldsOf(f, p, 0);
    PlacedSub(f, p, |m|, 0);
    var m1 := Write(m, p, Zeros(f.dataSize));
    var m2 := SetDefaults(SubAt(f, p, 0), m1);
    NewMember(f, m, p, count);
    EmptySubmessage(f, PutSizeAt(m2, f, p, f.tag), p, 0);
    DefaultsStored(SubAt(f, p, 0), m1);
    SizeApart(f, m2, p, f.tag);
    forall k | p <= k < p + f.dataSize && !DefaultsWrite(f.ptr.fields, p, k)
      ensures k < |m| && DecodeCells(f, m, p, count, 2, [0]).value.mem[k] == 0
    {
      Cleared(f, m, p, k);
    }
  }

  lemma Cleared(f: Field, m: Memory, p: nat, k: nat)
    requires PlacedField(f, p, |m|) && f.ltype.Submessage? && f.htype.Oneof? && CellsAt(f, p, |m|) && f.ptr.Sub?
    requires p <= k < p + f.dataSize && !DefaultsWrite(f.ptr.fields, p, k)
    ensures k < |m| && Placed(SubAt(f, p, 0), |m|)
    ensures PutSizeAt(SetDefaults(SubAt(f, p, 0), Write(m, p, Zeros(f.dataSize))), f, p, f.tag)[k] == 0
  {
    PlacedSub(f, p, |m|, 0);
    PlacedData(f, p, |m|);
    var m1 := Write(m, p, Zeros(f.dataSize));
    hide Placed, SetDefaults, DefaultsFrom, DefaultsWrite, WritesFrom, LittleEndian, WellFormed, FieldReaches;
    DefaultsByte(SubAt(f, p, 0), m1, m1, 0, k);
  }

  lemma PlacedData(f: Field, p: nat, len: nat)
    requires PlacedField(f, p, len) && f.htype.Oneof?
    ensures p + f.dataSize <= len
  {
  }

  lemma NewMember(f: Field, m: Memory, p: nat, count: nat)
    requires PlacedField(f, p, |m|) && f.ltype.Submessage? && f.htype.Oneof? && CellsAt(f, p, |m|)
    requires SlotAt(m, f, p).size != f.tag
    ensures p + f.dataSize <= |m| && Placed(SubAt(f, p, 0), |m|)
    ensures DecodeCells(f, m, p, count, 2, [0]).value.mem
         == var m2 := SetDefaults(SubAt(f, p, 0), Write(m, p, Zeros(f.dataSize)));
            DecodeSubmessage(f, PutSizeAt(m2, f, p, f.tag), p, 0, [0]).value
  {
    PlacedSub(f, p, |m|, 0);
    PlacedData(f, p, |m|);
    hide PlacedField, Placed, DecodeSubmessage, PutSizeAt, FromLittleEndian, SetDefaults, Write;
  }

  lemma EmptySubstream()
    ensures Substream([0]) == Got([], [])
  {
  }

  lemma EmptyNoinit(x: Struct, m: Memory)
    requires Placed(x, |m|)
    ensures DecodeNoinit(x, m, []).value == m
  {
    LoopOfNothing(x, Start(m));
  }

  lemma SizeApart(f: Field, m: Memory, p: nat, n: nat)
    requires PlacedField(f, p, |m|) && CellsAt(f, p, |m|) && f.ltype.Submessage? && !f.htype.Repeated?
    ensures Placed(SubAt(f, p, 0), |m|)
    ensures View(SubAt(f, p, 0), PutSizeAt(m, f, p, n)) == View(SubAt(f, p, 0), m)
  {
    PlacedSub(f, p, |m|, 0);
    hide WellFormed, LittleEndian;
  }
}
