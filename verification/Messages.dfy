/** Messages as the user sees them: which struct contents are values a message can have, when two
    structs hold the same message, and what pb_message_set_to_defaults leaves. */
module Messages {
  import opened Bits
  import opened Descriptor
  import opened StructMemory
  import opened Encoding
  import opened Decoding

  // ---- Values a message can have ----

  ghost predicate ValidItem(f: Field, d: seq<byte>)
    requires ItemFor(f, d)
    decreases f, 0
  {
    && (f.ltype.Bytes? ==> BytesLen(d) + SIZE_BYTES <= f.dataSize)
    && (f.ltype.String? ==> StringLen(d) < |d|)
    && (f.ltype.Submessage? ==> ValidMessage(f.ptr.fields, d))
  }

  ghost predicate ValidSlot(f: Field, s: Slot)
    requires SlotFor(f, s)
    decreases f, 1
  {
    if f.htype.Repeated? then
      && CountOf(f, s) <= f.arraySize
      && forall k :: 0 <= k < CountOf(f, s) ==> ValidItem(f, ItemAt(f, s.data, k))
    else Present(f, s) ==> ValidItem(f, s.data)
  }

  /** A which_ cell holds 0 or the tag of a member of its union. */
  ghost predicate ValidWhich(fields: seq<Field>, m: Memory, i: nat)
    requires WellFormed(fields, |m|) && i < |fields|
  {
    fields[i].htype.Oneof? && GetSize(fields, i, m) != 0
    ==> exists k :: 0 <= k < |fields|
                    && fields[k].tag == GetSize(fields, i, m) && Leader(fields, k) == Leader(fields, i)
  }

  ghost predicate ValidMessage(fields: seq<Field>, m: Memory)
    requires WellFormed(fields, |m|)
    decreases fields
  {
    && (forall i :: 0 <= i < |fields| ==> ValidSlot(fields[i], GetSlot(fields, i, m)))
    && (forall i :: 0 <= i < |fields| ==> ValidWhich(fields, m, i))
  }

  /** Proto3 fields default to zero, in submessages too. */
  ghost predicate ZeroDefaults(fields: seq<Field>)
    decreases fields
  {
    forall i :: 0 <= i < |fields| ==> ZeroDefault(fields[i])
  }

  ghost predicate ZeroDefault(f: Field)
    decreases f
  {
    if f.ltype.Submessage? then f.ptr.Sub? ==> ZeroDefaults(f.ptr.fields)
    else Implicit(f) && f.ptr.Default? ==> f.ptr.bytes == Zeros(|f.ptr.bytes|)
  }

  // ---- The same message ----

  ghost predicate SameItem(f: Field, a: seq<byte>, b: seq<byte>)
    requires ItemFor(f, a) && ItemFor(f, b)
    decreases f, 0
  {
    match f.ltype
    case Bool => (a[0] != 0) <==> (b[0] != 0)
    case Bytes =>
      && BytesLen(a) == BytesLen(b)
      && BytesLen(a) + SIZE_BYTES <= f.dataSize
      && a[SIZE_BYTES..SIZE_BYTES + BytesLen(a)] == b[SIZE_BYTES..SIZE_BYTES + BytesLen(a)]
    case String => a[..StringLen(a)] == b[..StringLen(b)]
    case Submessage => SameMessage(f.ptr.fields, a, b)
    case _ => a == b
  }

  ghost predicate SameSlot(f: Field, s: Slot, t: Slot)
    requires SlotFor(f, s) && SlotFor(f, t)
    decreases f, 2
  {
    match f.htype
    case Required => SameItem(f, s.data, t.data)
    case Optional =>
      if f.sizeOffset != 0 then (s.size != 0 <==> t.size != 0) && (s.size != 0 ==> SameItem(f, s.data, t.data))
      else SameItem(f, s.data, t.data)
    case Repeated => CountOf(f, s) == CountOf(f, t) <= f.arraySize && SameItems(f, s.data, t.data, CountOf(f, s))
    case Oneof => s.size == t.size && (s.size == f.tag ==> SameItem(f, s.data, t.data))
  }

  /** The first n entries agree. */
  ghost predicate SameItems(f: Field, a: seq<byte>, b: seq<byte>, n: nat)
    requires WellFormedField(f) && |a| == |b| == f.dataSize * f.arraySize && n <= f.arraySize
    decreases f, 1
  {
    forall k :: 0 <= k < n ==> SameItem(f, ItemAt(f, a, k), ItemAt(f, b, k))
  }

  /** Equal up to values behind a false has_ flag, slots past a count, members a which_ does not
      select, bytes past a string's end or a bytes size, and padding. */
  ghost predicate SameMessage(fields: seq<Field>, a: Memory, b: Memory)
    requires WellFormed(fields, |a|) && WellFormed(fields, |b|)
    decreases fields
  {
    forall i :: 0 <= i < |fields| ==> SameSlot(fields[i], GetSlot(fields, i, a), GetSlot(fields, i, b))
  }

  // ---- Freshly initialised ----

  ghost predicate FreshItem(f: Field, d: seq<byte>)
    requires ItemFor(f, d)
    decreases f, 0
  {
    f.ltype.Submessage? ==> Fresh(f.ptr.fields, d)
  }

  ghost predicate FreshSlot(f: Field, t: Slot)
    requires SlotFor(f, t)
    decreases f, 1
  {
    match f.htype
    case Required => FreshItem(f, t.data)
    case Optional =>
      && (f.sizeOffset != 0 ==> t.size == 0)
      && FreshItem(f, t.data)
      && (Implicit(f) && !f.ltype.Submessage? && !f.ltype.FixedLengthBytes? ==> IsDefault(f, t))
    case Repeated => f.sizeOffset != 0 ==> t.size == 0
    case Oneof => t.size == 0
  }

  ghost predicate Fresh(fields: seq<Field>, m: Memory)
    requires WellFormed(fields, |m|)
    decreases fields
  {
    forall i :: 0 <= i < |fields| ==> FreshSlot(fields[i], GetSlot(fields, i, m))
  }

  /** Entries that share cells are members of a oneof. */
  lemma {:induction false} LeaderOneof(fields: seq<Field>, i: nat)
    requires i < |fields| && Leader(fields, i) < i
    ensures forall k :: Leader(fields, i) <= k <= i ==> fields[k].htype.Oneof?
  {
    if Leader(fields, i - 1) < i - 1 {
      LeaderOneof(fields, i - 1);
    }
  }

  lemma SharedAreOneof(fields: seq<Field>, i: nat, j: nat)
    requires i < |fields| && j < |fields| && i != j && Leader(fields, i) == Leader(fields, j)
    ensures fields[i].htype.Oneof? && fields[j].htype.Oneof?
  {
    if i < j {
      LeaderOneof(fields, j);
    } else {
      LeaderOneof(fields, i);
    }
  }

  lemma {:induction false} ZerosValue(n: nat)
    ensures FromLittleEndian(Zeros(n)) == 0
  {
    if n != 0 {
      assert Zeros(n)[1..] == Zeros(n - 1);
      ZerosValue(n - 1);
    }
  }

  lemma ZerosAreDefault(f: Field)
    requires WellFormedField(f) && Implicit(f) && !f.ltype.Submessage? && !f.ltype.FixedLengthBytes?
    ensures IsDefault(f, Slot(0, Zeros(f.dataSize)))
  {
    if f.ltype.Bytes? {
      assert Zeros(f.dataSize)[..SIZE_BYTES] == Zeros(SIZE_BYTES);
      ZerosValue(SIZE_BYTES);
    }
  }

  // ---- Bytes that only become zero ----

  /** Each byte is as it was or zero. */
  ghost predicate Zeroed(v: seq<byte>, v': seq<byte>) {
    |v'| == |v| && forall k :: 0 <= k < |v| ==> v'[k] == v[k] || v'[k] == 0
  }

  ghost predicate AllZero(b: seq<byte>) {
    forall k :: 0 <= k < |b| ==> b[k] == 0
  }

  lemma {:induction false} ZeroValue(b: seq<byte>)
    ensures FromLittleEndian(b) == 0 <==> AllZero(b)
  {
    if b != [] {
      ZeroValue(b[1..]);
      assert AllZero(b) <==> b[0] == 0 && AllZero(b[1..]) by {
        assert forall k :: 1 <= k < |b| ==> b[k] == b[1..][k - 1];
      }
    }
  }

  lemma ZeroedNumber(b: seq<byte>, b': seq<byte>)
    requires Zeroed(b, b') && FromLittleEndian(b) == 0
    ensures FromLittleEndian(b') == 0
  {
    ZeroValue(b);
    ZeroValue(b');
  }

  lemma SlotOfBytes(f: Field, m: Memory, m1: Memory, p: nat)
    requires CellsFor(f, p, |m|) && |m1| == |m|
    requires forall b :: 0 <= b < |m| && InCells(f, p, b) ==> m1[b] == m[b]
    ensures SlotAt(m1, f, p) == SlotAt(m, f, p)
  {
    hide DataLen, SizeLen, FromLittleEndian;
    assert Read(m1, p, DataLen(f)) == Read(m, p, DataLen(f));
    if SizeLen(f) > 0 {
      assert Read(m1, p + f.sizeOffset, SizeLen(f)) == Read(m, p + f.sizeOffset, SizeLen(f));
    }
  }

  lemma ZeroedRead(v: Memory, v': Memory, lo: nat, n: nat)
    requires |v'| == |v| && lo + n <= |v|
    requires forall k :: lo <= k < lo + n ==> v'[k] == v[k] || v'[k] == 0
    ensures Zeroed(Read(v, lo, n), Read(v', lo, n))
  {
  }

  /** Zeroing bytes of a freshly initialised struct leaves it fresh. */
  lemma FreshZeroed(fields: seq<Field>, v: Memory, v': Memory)
    requires WellFormed(fields, |v|) && Fresh(fields, v) && Zeroed(v, v')
    ensures Fresh(fields, v')
    decreases fields
  {
    hide WellFormed, WellFormedField, FreshSlot, GetSlot, PData, SizeLen, DataLen, SlotAt, InCells;
    forall i | 0 <= i < |fields|
      ensures SlotFor(fields[i], GetSlot(fields, i, v')) && FreshSlot(fields[i], GetSlot(fields, i, v'))
    {
      WellFormedSlot(fields, i, v);
      WellFormedSlot(fields, i, v');
      EntryCells(fields, i, |v|);
      EntrySlot(fields, i, v);
      EntrySlot(fields, i, v');
      CellsZeroed(fields[i], PData(fields, i), v, v');
      FreshSlotZeroed(fields[i], GetSlot(fields, i, v), GetSlot(fields, i, v'));
    }
  }

  lemma EntrySlot(fields: seq<Field>, i: nat, v: Memory)
    requires WellFormed(fields, |v|) && i < |fields|
    ensures CellsAt(fields[i], PData(fields, i), |v|)
    ensures SlotAt(v, fields[i], PData(fields, i)) == GetSlot(fields, i, v)
  {
    SlotAtEntry(fields, i, v, 0, |v|);
    ReadAll(v);
    hide WellFormed, SlotAt, GetSlot;
  }

  lemma CellsZeroed(f: Field, p: nat, v: Memory, v': Memory)
    requires CellsFor(f, p, |v|) && |v'| == |v|
    requires forall k :: 0 <= k < |v| && InCells(f, p, k) ==> v'[k] == v[k] || v'[k] == 0
    ensures SlotAt(v, f, p).size == 0 ==> SlotAt(v', f, p).size == 0
    ensures Zeroed(SlotAt(v, f, p).data, SlotAt(v', f, p).data)
  {
    hide SizeLen, DataLen, FromLittleEndian, Read;
    ZeroedRead(v, v', p, DataLen(f));
    if SizeLen(f) > 0 && SlotAt(v, f, p).size == 0 {
      ZeroedRead(v, v', p + f.sizeOffset, SizeLen(f));
      ZeroedNumber(Read(v, p + f.sizeOffset, SizeLen(f)), Read(v', p + f.sizeOffset, SizeLen(f)));
    }
  }

  lemma FreshSlotZeroed(f: Field, s: Slot, t: Slot)
    requires SlotFor(f, s) && SlotFor(f, t) && FreshSlot(f, s)
    requires (s.size == 0 ==> t.size == 0) && Zeroed(s.data, t.data)
    ensures FreshSlot(f, t)
    decreases f
  {
    hide WellFormed, Fresh;
    if f.htype.Required? || f.htype.Optional? {
      if f.ltype.Submessage? {
        FreshZeroed(f.ptr.fields, s.data, t.data);
      } else if f.ltype.Bytes? && Implicit(f) {
        ZeroedNumber(s.data[..SIZE_BYTES], t.data[..SIZE_BYTES]);
      }
    }
  }

  // ---- What stores spill past their cells ----

  /** Outside [lo, hi) memory changes by zeroing at most, only above hi, and not at all if every
      fixed-count array is long. */
  ghost predicate Spill(m: Memory, m': Memory, lo: nat, hi: nat, long: bool) {
    && |m'| == |m|
    && forall k :: 0 <= k < |m| && (k < lo || hi <= k) ==> m'[k] == m[k] || (!long && lo < hi <= k && m'[k] == 0)
  }

  /** Likewise for a field at p: outside its cells memory changes by zeroing past its data. */
  ghost predicate FieldSpill(f: Field, p: nat, m: Memory, m': Memory, long: bool) {
    && |m'| == |m|
    && forall k :: 0 <= k < |m| && !InCells(f, p, k)
         ==> m'[k] == m[k] || (!long && p < p + DataLen(f) <= k && m'[k] == 0)
  }

  /** What spills from the entry's struct spills from the field. */
  lemma SpillOfEntry(f: Field, p: nat, m: Memory, m': Memory, e: nat, long: bool)
    requires e < Entries(f) && Spill(m, m', EntryAddr(f, p, e), EntryAddr(f, p, e) + f.dataSize, long)
    ensures FieldSpill(f, p, m, m', long)
    ensures Spill(m, m', p, p + DataLen(f), long)
  {
    EntryInData(f, p, e);
    hide DataLen, SizeLen;
  }

  lemma SpillOfField(x: Struct, i: nat, m: Memory, m': Memory, long: bool, long': bool)
    requires Placed(x, |m|) && i < |x.fields| && FieldSpill(x.fields[i], Addr(x, i), m, m', long)
    requires long' ==> long
    ensures Spill(m, m', x.base, x.base + x.size, long')
  {
    hide WellFormed, Reaches, PData, DataLen, SizeLen;
    EntryCells(x.fields, i, x.size);
  }

  lemma SpillTrans(m: Memory, m1: Memory, m2: Memory, lo: nat, hi: nat, long: bool)
    requires Spill(m, m1, lo, hi, long) && Spill(m1, m2, lo, hi, long)
    ensures Spill(m, m2, lo, hi, long)
  {
  }

  lemma PutSizeSpill(f: Field, p: nat, m: Memory, n: nat, m': Memory, long: bool)
    requires CellsAt(f, p, |m|) && FieldSpill(f, p, PutSizeAt(m, f, p, n), m', long)
    ensures FieldSpill(f, p, m, m', long)
  {
    hide PutSizeAt, DataLen;
    forall k | 0 <= k < |m| && !InCells(f, p, k)
      ensures PutSizeAt(m, f, p, n)[k] == m[k]
    {
      PutSizeAtByte(m, f, p, n, k);
    }
  }

  lemma DefaultFieldSpill(f: Field, m: Memory, p: nat)
    requires PlacedField(f, p, |m|)
    ensures FieldSpill(f, p, m, DefaultField(f, m, p), HoldsCount(f) && LongBelow(f))
    decreases f, 0
  {
    hide WellFormed, Reaches, SetDefaults, PutSizeAt, LongArrays;
    PlacedCells(f, p, |m|);
    if !FixedCount(f) {
      var m1 := PutSizeAt(m, f, p, 0);
      if !f.htype.Repeated? && !f.htype.Oneof? && f.ltype.Submessage? {
        PlacedSub(f, p, |m|, 0);
        DefaultsSpill(SubAt(f, p, 0), m1);
        SpillOfEntry(f, p, m1, SetDefaults(SubAt(f, p, 0), m1), 0, LongBelow(f));
      }
      PutSizeSpill(f, p, m, 0, DefaultField(f, m, p), HoldsCount(f) && LongBelow(f));
    }
  }

  lemma {:induction false} DefaultsFromSpill(x: Struct, m: Memory, i: nat)
    requires Placed(x, |m|) && i <= |x.fields|
    ensures Spill(m, DefaultsFrom(x, m, i), x.base, x.base + x.size, LongArrays(x.fields))
    decreases x.fields, |x.fields| - i
  {
    hide Placed, DefaultField, FieldSpill, PlacedField, Addr, HoldsCount, LongBelow;
    if i < |x.fields| {
      PlacedEntry(x, i, |m|);
      var m1 := DefaultField(x.fields[i], m, Addr(x, i));
      DefaultFieldSpill(x.fields[i], m, Addr(x, i));
      SpillOfField(x, i, m, m1, HoldsCount(x.fields[i]) && LongBelow(x.fields[i]), LongArrays(x.fields));
      DefaultsFromSpill(x, m1, i + 1);
      SpillTrans(m, m1, DefaultsFrom(x, m1, i + 1), x.base, x.base + x.size, LongArrays(x.fields));
    }
  }

  /** Initialising a struct leaves what lies before it alone and clears bytes after it at most. */
  lemma DefaultsSpill(x: Struct, m: Memory)
    requires Placed(x, |m|)
    ensures Spill(m, SetDefaults(x, m), x.base, x.base + x.size, LongArrays(x.fields))
    decreases x.fields, |x.fields| + 1
  {
    DefaultsFromSpill(x, m, 0);
  }

  // ---- Initialising makes fresh ----

  lemma DefaultFieldFresh(f: Field, m: Memory, p: nat)
    requires PlacedField(f, p, |m|) && ZeroDefault(f)
    ensures FreshSlot(f, SlotAt(DefaultField(f, m, p), f, p))
    decreases f, 0
  {
    hide WellFormed, Reaches, SetDefaults, PutSizeAt, ZeroDefaults, Fresh, FromLittleEndian, Spill;
    PlacedCells(f, p, |m|);
    if !FixedCount(f) {
      var m1 := PutSizeAt(m, f, p, 0);
      SizeCleared(m, f, p);
      if !f.htype.Repeated? && !f.htype.Oneof? {
        SingleLen(f);
        if f.ltype.Submessage? {
          PlacedSub(f, p, |m|, 0);
          DefaultsSpill(SubAt(f, p, 0), m1);
          DefaultsFresh(SubAt(f, p, 0), m1);
          SizeStaysCleared(f, p, m1, SetDefaults(SubAt(f, p, 0), m1), LongBelow(f));
        } else {
          SlotAtWriteData(m1, f, p, 0, DefaultBytes(f));
          WriteWhole(SlotAt(m1, f, p).data, DefaultBytes(f));
          if Implicit(f) && !f.ltype.FixedLengthBytes? {
            ZerosAreDefault(f);
          }
        }
      }
    }
  }

  lemma SizeCleared(m: Memory, f: Field, p: nat)
    requires CellsFor(f, p, |m|)
    ensures SlotAt(PutSizeAt(m, f, p, 0), f, p).size == 0
  {
    SlotAtPutSize(m, f, p, 0);
    Pow2Facts();
    if SizeLen(f) > 0 {
      FromLittleEndianInverse(0, SizeLen(f));
    }
  }

  lemma SizeStaysCleared(f: Field, p: nat, m: Memory, m': Memory, long: bool)
    requires CellsFor(f, p, |m|) && SlotAt(m, f, p).size == 0
    requires Spill(m, m', p, p + DataLen(f), long)
    ensures SlotAt(m', f, p).size == 0
  {
    hide DataLen, FromLittleEndian;
    if SizeLen(f) > 0 {
      ZeroedRead(m, m', p + f.sizeOffset, SizeLen(f));
      ZeroedNumber(Read(m, p + f.sizeOffset, SizeLen(f)), Read(m', p + f.sizeOffset, SizeLen(f)));
    }
  }

  /** Entry i of a struct, found by address. */
  lemma ViewSlot(x: Struct, i: nat, m: Memory)
    requires Placed(x, |m|) && i < |x.fields|
    ensures PlacedField(x.fields[i], Addr(x, i), |m|) && CellsFor(x.fields[i], Addr(x, i), |m|)
    ensures SlotFor(x.fields[i], SlotAt(m, x.fields[i], Addr(x, i)))
    ensures SlotAt(m, x.fields[i], Addr(x, i)) == GetSlot(x.fields, i, View(x, m))
  {
    hide WellFormed, Reaches, SlotAt, GetSlot, WellFormedField, CellsFor, CellsAt, FieldReaches, DataLen;
    PlacedEntry(x, i, |m|);
    SlotAtEntry(x.fields, i, m, x.base, x.size);
  }

  ghost predicate FreshUpTo(x: Struct, m: Memory, n: nat)
    requires Placed(x, |m|) && n <= |x.fields|
  {
    forall j :: 0 <= j < n ==> FreshSlot(x.fields[j], GetSlot(x.fields, j, View(x, m)))
  }

  /** Initialising a struct leaves it fresh, whatever it held before. */
  lemma DefaultsFresh(x: Struct, m: Memory)
    requires Placed(x, |m|) && ZeroDefaults(x.fields)
    ensures Fresh(x.fields, View(x, SetDefaults(x, m)))
    decreases x.fields, |x.fields| + 1
  {
    DefaultsFromFresh(x, m, 0);
    hide Placed, Fresh, ZeroDefaults;
  }

  lemma {:induction false} DefaultsFromFresh(x: Struct, m: Memory, i: nat)
    requires Placed(x, |m|) && ZeroDefaults(x.fields) && i <= |x.fields| && FreshUpTo(x, m, i)
    ensures Fresh(x.fields, View(x, DefaultsFrom(x, m, i)))
    decreases x.fields, |x.fields| - i
  {
    hide WellFormed, Reaches, ZeroDefaults, DefaultField, FreshUpTo, FreshSlot, GetSlot, SlotAt, PlacedField,
      FieldSpill, Addr, Fresh;
    if i == |x.fields| {
      FreshAll(x, m);
    } else {
      PlacedEntry(x, i, |m|);
      var m1 := DefaultField(x.fields[i], m, Addr(x, i));
      ZeroDefaultAt(x.fields, i);
      DefaultFieldFresh(x.fields[i], m, Addr(x, i));
      DefaultFieldSpill(x.fields[i], m, Addr(x, i));
      ViewSlot(x, i, m1);
      FreshOneMore(x, m, m1, i);
      DefaultsFromFresh(x, m1, i + 1);
    }
  }

  lemma ZeroDefaultAt(fields: seq<Field>, i: nat)
    requires ZeroDefaults(fields) && i < |fields|
    ensures ZeroDefault(fields[i])
  {
  }

  lemma FreshAll(x: Struct, m: Memory)
    requires Placed(x, |m|) && FreshUpTo(x, m, |x.fields|)
    ensures Fresh(x.fields, View(x, m))
  {
  }

  lemma FreshOneMore(x: Struct, m: Memory, m1: Memory, i: nat)
    requires Placed(x, |m|) && |m1| == |m| && i < |x.fields| && FreshUpTo(x, m, i)
    requires FreshSlot(x.fields[i], GetSlot(x.fields, i, View(x, m1)))
    requires FieldSpill(x.fields[i], Addr(x, i), m, m1, HoldsCount(x.fields[i]) && LongBelow(x.fields[i]))
    ensures FreshUpTo(x, m1, i + 1)
  {
    hide WellFormed, Reaches, GetSlot, FreshSlot, FieldSpill, Addr;
    forall j | 0 <= j < i + 1
      ensures SlotFor(x.fields[j], GetSlot(x.fields, j, View(x, m1)))
      ensures FreshSlot(x.fields[j], GetSlot(x.fields, j, View(x, m1)))
    {
      ViewSlot(x, j, m1);
      if j < i {
        ViewSlot(x, j, m);
        FreshKept(x, m, m1, i, j, HoldsCount(x.fields[i]) && LongBelow(x.fields[i]));
      }
    }
  }

  lemma FreshKept(x: Struct, m: Memory, m1: Memory, i: nat, j: nat, long: bool)
    requires Placed(x, |m|) && |m1| == |m| && i < |x.fields| && j < |x.fields| && i != j
    requires SlotFor(x.fields[j], GetSlot(x.fields, j, View(x, m)))
    requires FreshSlot(x.fields[j], GetSlot(x.fields, j, View(x, m)))
    requires FreshSlot(x.fields[i], GetSlot(x.fields, i, View(x, m1)))
    requires FieldSpill(x.fields[i], Addr(x, i), m, m1, long)
    ensures FreshSlot(x.fields[j], GetSlot(x.fields, j, View(x, m1)))
  {
    hide WellFormed, Reaches, PData, SlotAt, FieldSpill, PlacedField, WellFormedField, CellsFor, Fresh, InCells, Leader;
    if Leader(x.fields, i) != Leader(x.fields, j) {
      ViewSlot(x, j, m);
      ViewSlot(x, j, m1);
      CellsSpilled(x, m, m1, i, j, long);
      hide GetSlot, FreshSlot, Addr;
      CellsZeroed(x.fields[j], Addr(x, j), m, m1);
      FreshSlotZeroed(x.fields[j], GetSlot(x.fields, j, View(x, m)), GetSlot(x.fields, j, View(x, m1)));
    } else {
      SharedAreOneof(x.fields, i, j);
      UnionSizeShared(x.fields, i, j, View(x, m1));
    }
  }

  /** Stores into entry i's cells, and what spills from them, do no more to the cells of an entry of
      another union than zero bytes. */
  lemma CellsSpilled(x: Struct, m: Memory, m1: Memory, i: nat, j: nat, long: bool)
    requires Placed(x, |m|) && |m1| == |m| && i < |x.fields| && j < |x.fields|
    requires Leader(x.fields, i) != Leader(x.fields, j) && FieldSpill(x.fields[i], Addr(x, i), m, m1, long)
    ensures forall k :: 0 <= k < |m| && InCells(x.fields[j], Addr(x, j), k)
              ==> m1[k] == m[k] || (!long && Addr(x, i) + DataLen(x.fields[i]) <= k
                                    && DataLen(x.fields[i]) > 0 && m1[k] == 0)
  {
    forall k | 0 <= k < |m| && InCells(x.fields[j], Addr(x, j), k)
      ensures !InCells(x.fields[i], Addr(x, i), k)
    {
      CellsDisjoint(x, i, j, k);
    }
    hide Placed, InCells, Addr, DataLen;
  }

  /** A proto3 field the encoder leaves out holds the same value as a fresh one. */
  lemma DefaultFreshSame(f: Field, s: Slot, t: Slot)
    requires SlotFor(f, s) && SlotFor(f, t) && IsDefault(f, s) && FreshSlot(f, t)
    requires f.htype.Oneof? ==> s.size == t.size
    ensures SameSlot(f, s, t)
    decreases f, 0
  {
    if Implicit(f) {
      if f.ltype.Submessage? {
        AllDefaultFreshSame(f.ptr.fields, s.data, t.data);
      } else if f.ltype.String? {
        assert StringLen(s.data) == 0 && StringLen(t.data) == 0;
      }
    }
  }

  lemma AllDefaultFreshSame(fields: seq<Field>, a: Memory, b: Memory)
    requires WellFormed(fields, |a|) && |a| == |b| && AllDefault(fields, a, 0) && Fresh(fields, b)
    ensures SameMessage(fields, a, b)
    decreases fields
  {
    forall i | 0 <= i < |fields|
      ensures SameSlot(fields[i], GetSlot(fields, i, a), GetSlot(fields, i, b))
    {
      AllDefaultAt(fields, a, 0, i);
      DefaultFreshSame(fields[i], GetSlot(fields, i, a), GetSlot(fields, i, b));
    }
  }

  lemma {:induction false} AllDefaultAt(fields: seq<Field>, m: Memory, from: nat, i: nat)
    requires WellFormed(fields, |m|) && from <= i < |fields| && AllDefault(fields, m, from)
    ensures IsDefault(fields[i], GetSlot(fields, i, m))
    decreases |fields| - from
  {
    if from < i {
      AllDefaultAt(fields, m, from + 1, i);
    }
  }
}
