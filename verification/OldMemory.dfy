/** Decoding does not depend on what memory held before: where every fixed-count array can hold a
    pb_size_t, pb_decode of the same input gives the same answer over any memory and leaves the same
    message, but for fixed-count arrays, which it never initialises beyond their first bytes. */
module OldMemory {
  import opened Bits
  import opened Wire
  import opened Descriptor
  import opened StructMemory
  import opened Encoding
  import opened Decoding
  import opened Locality
  import opened Effects
  import opened Messages
  import opened Placement
  import opened Arrivals
  import opened ValueRoundTrip
  import opened PartialDecode
  import opened RoundTrip

  // ---- When two structs agree ----

  /** The default value still, or the same valid value. */
  ghost predicate AgreeItem(f: Field, a: seq<byte>, b: seq<byte>)
    requires ItemFor(f, a) && ItemFor(f, b)
    decreases f, 0
  {
    if f.ltype.Submessage? then AgreeMessage(f.ptr.fields, a, b)
    else a == b == DefaultBytes(f) || (SameItem(f, a, b) && ValidItem(f, a) && ValidItem(f, b))
  }

  /** The first n entries, as far as the array goes. */
  ghost predicate AgreeItems(f: Field, a: seq<byte>, b: seq<byte>, n: nat)
    requires WellFormedField(f) && |a| == |b| == f.dataSize * f.arraySize
    decreases f, 1
  {
    forall k :: 0 <= k < n && k < f.arraySize ==> AgreeItem(f, ItemAt(f, a, k), ItemAt(f, b, k))
  }

  /** The same flag, count or which_ value, and the same value behind it; of a fixed-count array
      nothing is said. */
  ghost predicate AgreeSlot(f: Field, s: Slot, t: Slot)
    requires SlotFor(f, s) && SlotFor(f, t)
    decreases f, 2
  {
    if f.htype.Repeated? then
      f.sizeOffset != 0 ==> s.size == t.size <= f.arraySize && AgreeItems(f, s.data, t.data, s.size)
    else s.size == t.size && ((f.htype.Oneof? && s.size != f.tag) || AgreeItem(f, s.data, t.data))
  }

  /** Equal up to fixed-count arrays, entries past a count, members a which_ does not select, bytes past a
      string's end or a bytes size, and padding; and every which_ cell names a member. */
  ghost predicate AgreeMessage(fields: seq<Field>, v: Memory, v': Memory)
    requires WellFormed(fields, |v|) && WellFormed(fields, |v'|)
    decreases fields
  {
    && WhichValid(fields, v)
    && forall i :: 0 <= i < |fields| ==> AgreeSlot(fields[i], GetSlot(fields, i, v), GetSlot(fields, i, v'))
  }

  ghost predicate AgreeAt(f: Field, m: Memory, p: nat, m': Memory) {
    && PlacedField(f, p, |m|) && |m'| == |m|
    && AgreeSlot(f, SlotAt(m, f, p), SlotAt(m', f, p))
  }

  lemma AgreeEntry(x: Struct, m: Memory, m': Memory, i: nat)
    requires Placed(x, |m|) && |m'| == |m| && i < |x.fields|
    ensures SlotFor(x.fields[i], GetSlot(x.fields, i, View(x, m)))
    ensures SlotFor(x.fields[i], GetSlot(x.fields, i, View(x, m')))
    ensures AgreeSlot(x.fields[i], GetSlot(x.fields, i, View(x, m)), GetSlot(x.fields, i, View(x, m')))
       <==> AgreeAt(x.fields[i], m, Addr(x, i), m')
  {
    hide WellFormed, Reaches, AgreeSlot, SlotAt, GetSlot, View, PlacedField, WellFormedField;
    ViewSlot(x, i, m);
    ViewSlot(x, i, m');
  }

  /** Stores into entry i's cells that agree leave an entry j that agrees agreeing. */
  lemma AgreeOther(x: Struct, m: Memory, m': Memory, m1: Memory, m1': Memory, i: nat, j: nat)
    requires Placed(x, |m|) && |m| == |m'| && i < |x.fields| && j < |x.fields| && i != j
    requires AgreeAt(x.fields[j], m, Addr(x, j), m')
    requires OnlyCells(x.fields[i], Addr(x, i), m, m1) && OnlyCells(x.fields[i], Addr(x, i), m', m1')
    requires AgreeAt(x.fields[i], m1, Addr(x, i), m1')
    requires x.fields[i].htype.Oneof? ==> WhichNames(x.fields[i], SlotAt(m1, x.fields[i], Addr(x, i)).size)
    ensures AgreeAt(x.fields[j], m1, Addr(x, j), m1')
  {
    hide Placed, AgreeSlot, SlotAt, GetSlot, View, PlacedField, Addr, CellsFor, AgreeAt, InCells, CellsAt, Leader;
    PlacedEntry(x, i, |m|);
    PlacedCells(x.fields[i], Addr(x, i), |m|);
    if Leader(x.fields, i) != Leader(x.fields, j) {
      ApartKept(x, m, m1, i, j);
      ApartKept(x, m', m1', i, j);
      AgreeSame(x.fields[j], m, m', m1, m1', Addr(x, j));
    } else {
      SharedAreOneof(x.fields, i, j);
      AgreeInUnion(x, m1, m1', i, j);
    }
  }

  /** 0 or the field's own tag. */
  predicate WhichNames(f: Field, n: nat) {
    n == 0 || n == f.tag
  }

  lemma ApartKept(x: Struct, m: Memory, m1: Memory, i: nat, j: nat)
    requires Placed(x, |m|) && i < |x.fields| && j < |x.fields| && Leader(x.fields, i) != Leader(x.fields, j)
    requires OnlyCells(x.fields[i], Addr(x, i), m, m1)
    ensures |m1| == |m| && CellsAt(x.fields[j], Addr(x, j), |m|)
    ensures SlotAt(m1, x.fields[j], Addr(x, j)) == SlotAt(m, x.fields[j], Addr(x, j))
  {
    forall b | 0 <= b < |m| && InCells(x.fields[j], Addr(x, j), b)
      ensures m1[b] == m[b]
    {
      CellsDisjoint(x, i, j, b);
    }
    ViewSlot(x, j, m);
    hide Placed, Addr, PlacedField, InCells, SlotAt, GetSlot, View;
    SlotOfBytes(x.fields[j], m, m1, Addr(x, j));
  }

  lemma AgreeSame(f: Field, m: Memory, m': Memory, m1: Memory, m1': Memory, p: nat)
    requires AgreeAt(f, m, p, m') && |m1| == |m| == |m1'| && CellsAt(f, p, |m|)
    requires SlotAt(m1, f, p) == SlotAt(m, f, p) && SlotAt(m1', f, p) == SlotAt(m', f, p)
    ensures AgreeAt(f, m1, p, m1')
  {
    hide PlacedField, AgreeSlot, SlotAt;
    PlacedCells(f, p, |m|);
  }

  lemma AgreeInUnion(x: Struct, m: Memory, m': Memory, i: nat, j: nat)
    requires Placed(x, |m|) && |m| == |m'| && i < |x.fields| && j < |x.fields| && i != j
    requires Leader(x.fields, i) == Leader(x.fields, j) && x.fields[i].htype.Oneof? && x.fields[j].htype.Oneof?
    requires AgreeAt(x.fields[i], m, Addr(x, i), m')
    requires CellsAt(x.fields[i], Addr(x, i), |m|)
    requires WhichNames(x.fields[i], SlotAt(m, x.fields[i], Addr(x, i)).size)
    ensures AgreeAt(x.fields[j], m, Addr(x, j), m')
  {
    hide WellFormed, Reaches, SlotAt, View, GetData, GetSize, PlacedField, Addr, AgreeItem, WellFormedField, CellsFor;
    TagsDiffer(x.fields, x.size, i, j);
    TagsDiffer(x.fields, x.size, j, i);
    ViewSlot(x, i, m);
    ViewSlot(x, i, m');
    ViewSlot(x, j, m);
    ViewSlot(x, j, m');
    UnionSizeShared(x.fields, i, j, View(x, m));
    UnionSizeShared(x.fields, i, j, View(x, m'));
  }

  // ---- Default values ----

  lemma ClearedDefault(f: Field, m: Memory, p: nat)
    requires PlacedField(f, p, |m|) && !FixedCount(f) && (f.htype.Repeated? || f.htype.Oneof?)
    ensures CellsAt(f, p, |m|) && SlotAt(DefaultField(f, m, p), f, p).size == 0
  {
    hide WellFormedField, FieldReaches, PutSizeAt, SlotAt;
    SizeCleared(m, f, p);
  }

  lemma ValueDefault(f: Field, m: Memory, p: nat)
    requires PlacedField(f, p, |m|) && !f.htype.Repeated? && !f.htype.Oneof? && !f.ltype.Submessage?
    ensures CellsAt(f, p, |m|) && SlotAt(DefaultField(f, m, p), f, p) == Slot(0, DefaultBytes(f))
  {
    hide FieldReaches, PutSizeAt, SlotAt, Write, WellFormed;
    var m1 := PutSizeAt(m, f, p, 0);
    SingleLen(f);
    SizeCleared(m, f, p);
    SlotAtWriteData(m1, f, p, 0, DefaultBytes(f));
    WriteWhole(SlotAt(m1, f, p).data, DefaultBytes(f));
  }

  lemma SubDefault(f: Field, m: Memory, p: nat)
    requires PlacedField(f, p, |m|) && !f.htype.Repeated? && !f.htype.Oneof? && f.ltype.Submessage?
    ensures CellsAt(f, p, |m|) && SlotAt(DefaultField(f, m, p), f, p).size == 0
    ensures Placed(SubAt(f, p, 0), |m|)
    ensures SlotAt(DefaultField(f, m, p), f, p).data
         == View(SubAt(f, p, 0), SetDefaults(SubAt(f, p, 0), PutSizeAt(m, f, p, 0)))
  {
    hide WellFormedField, FieldReaches, PutSizeAt, SlotAt, Placed, SetDefaults, Spill, View;
    PlacedCells(f, p, |m|);
    SubView(f, m, p);
    SubTable(f);
    var x, m1 := SubAt(f, p, 0), PutSizeAt(m, f, p, 0);
    SizeCleared(m, f, p);
    SingleLen(f);
    DefaultsSpill(x, m1);
    SizeStaysCleared(f, p, m1, SetDefaults(x, m1), LongArrays(x.fields));
    SubView(f, SetDefaults(x, m1), p);
  }

  /** The default of a field does not depend on memory. */
  lemma DefaultFieldAgrees(f: Field, m: Memory, p: nat, m': Memory)
    requires PlacedField(f, p, |m|) && |m'| == |m| && HoldsCount(f) && LongBelow(f)
    ensures AgreeAt(f, DefaultField(f, m, p), p, DefaultField(f, m', p))
    ensures CellsAt(f, p, |m|) && (f.htype.Oneof? ==> SlotAt(DefaultField(f, m, p), f, p).size == 0)
    decreases f, 0
  {
    hide PlacedField, DefaultField, SlotAt, PutSizeAt, View, SetDefaults, Placed, AgreeItem, ItemAt, LongArrays,
      CellsAt;
    PlacedCells(f, p, |m|);
    if FixedCount(f) {
    } else if f.htype.Repeated? || f.htype.Oneof? {
      ClearedDefault(f, m, p);
      ClearedDefault(f, m', p);
      AgreeCleared(f, SlotAt(DefaultField(f, m, p), f, p), SlotAt(DefaultField(f, m', p), f, p));
    } else if f.ltype.Submessage? {
      SubDefault(f, m, p);
      SubDefault(f, m', p);
      DefaultsAgree(SubAt(f, p, 0), PutSizeAt(m, f, p, 0), PutSizeAt(m', f, p, 0));
      AgreeStruct(f, SlotAt(DefaultField(f, m, p), f, p).data, SlotAt(DefaultField(f, m', p), f, p).data);
    } else {
      ValueDefault(f, m, p);
      ValueDefault(f, m', p);
      AgreeDefault(f);
    }
  }

  lemma AgreeCleared(f: Field, s: Slot, t: Slot)
    requires SlotFor(f, s) && SlotFor(f, t) && (f.htype.Repeated? || f.htype.Oneof?) && s.size == 0 == t.size
    ensures AgreeSlot(f, s, t)
  {
    hide AgreeItem, ItemAt;
  }

  lemma AgreeStruct(f: Field, a: seq<byte>, b: seq<byte>)
    requires ItemFor(f, a) && ItemFor(f, b) && f.ltype.Submessage?
    ensures AgreeItem(f, a, b) <==> AgreeMessage(f.ptr.fields, a, b)
  {
    hide AgreeMessage, WellFormed;
  }

  lemma AgreeDefault(f: Field)
    requires WellFormedField(f) && !f.ltype.Submessage?
    ensures AgreeItem(f, DefaultBytes(f), DefaultBytes(f))
  {
    hide SameItem, WellFormed, ValidItem;
  }

  /** Entries before n agree. */
  ghost predicate AgreeUpTo(x: Struct, m: Memory, m': Memory, n: nat)
    requires n <= |x.fields|
  {
    forall j :: 0 <= j < n ==> AgreeAt(x.fields[j], m, Addr(x, j), m')
  }

  lemma AgreeAll(x: Struct, m: Memory, m': Memory)
    requires Placed(x, |m|) && |m'| == |m|
    ensures AgreeUpTo(x, m, m', |x.fields|) && WhichValid(x.fields, View(x, m))
       <==> AgreeMessage(x.fields, View(x, m), View(x, m'))
  {
    hide WellFormed, Reaches, AgreeSlot, GetSlot, View, AgreeAt, Addr, SlotFor, ValidWhich;
    forall i | 0 <= i < |x.fields|
      ensures SlotFor(x.fields[i], GetSlot(x.fields, i, View(x, m)))
      ensures SlotFor(x.fields[i], GetSlot(x.fields, i, View(x, m')))
      ensures AgreeSlot(x.fields[i], GetSlot(x.fields, i, View(x, m)), GetSlot(x.fields, i, View(x, m')))
         <==> AgreeAt(x.fields[i], m, Addr(x, i), m')
    {
      AgreeEntry(x, m, m', i);
    }
  }

  /** No member is selected in the unions of the entries before n. */
  ghost predicate UnselectedUpTo(x: Struct, m: Memory, n: nat)
    requires Placed(x, |m|) && n <= |x.fields|
  {
    forall j :: 0 <= j < n && x.fields[j].htype.Oneof? ==> GetSize(x.fields, j, View(x, m)) == 0
  }

  lemma UnselectedStep(x: Struct, m: Memory, m1: Memory, i: nat)
    requires Placed(x, |m|) && i < |x.fields| && UnselectedUpTo(x, m, i) && OnlyCells(x.fields[i], Addr(x, i), m, m1)
    requires CellsAt(x.fields[i], Addr(x, i), |m|)
    requires x.fields[i].htype.Oneof? ==> SlotAt(m1, x.fields[i], Addr(x, i)).size == 0
    ensures |m1| == |m| && UnselectedUpTo(x, m1, i + 1)
  {
    hide WellFormed, Reaches, GetSize, GetData, View, SlotAt, OnlyCells, Addr, Leader, PlacedField, CellsFor,
      WellFormedField;
    OnlyLength(x.fields[i], Addr(x, i), m, m1);
    ViewSlot(x, i, m1);
    forall j | 0 <= j < i + 1 && x.fields[j].htype.Oneof?
      ensures GetSize(x.fields, j, View(x, m1)) == 0
    {
      if j < i && Leader(x.fields, i) != Leader(x.fields, j) {
        ApartKept(x, m, m1, i, j);
        ViewSlot(x, j, m);
        ViewSlot(x, j, m1);
      } else if j < i {
        SharedAreOneof(x.fields, i, j);
        UnionSizeShared(x.fields, i, j, View(x, m1));
      }
    }
  }

  lemma OnlyLength(f: Field, p: nat, m: Memory, m1: Memory)
    requires OnlyCells(f, p, m, m1)
    ensures |m1| == |m|
  {
  }

  lemma {:induction false} DefaultsFromAgree(x: Struct, m: Memory, m': Memory, i: nat)
    requires Placed(x, |m|) && |m'| == |m| && LongArrays(x.fields) && i <= |x.fields|
    requires AgreeUpTo(x, m, m', i) && UnselectedUpTo(x, m, i)
    ensures AgreeUpTo(x, DefaultsFrom(x, m, i), DefaultsFrom(x, m', i), |x.fields|)
    ensures UnselectedUpTo(x, DefaultsFrom(x, m, i), |x.fields|)
    decreases x.fields, |x.fields| - i
  {
    hide Placed, LongArrays, DefaultField, AgreeAt, PlacedField, OnlyCells, Addr, SlotAt, CellsAt, HoldsCount,
      LongBelow, UnselectedUpTo;
    if i < |x.fields| {
      PlacedEntry(x, i, |m|);
      LongEntry(x.fields, i);
      var m1, m1' := DefaultField(x.fields[i], m, Addr(x, i)), DefaultField(x.fields[i], m', Addr(x, i));
      DefaultFieldAgrees(x.fields[i], m, Addr(x, i), m');
      EntryOnly(x, m, i);
      EntryOnly(x, m', i);
      UnselectedStep(x, m, m1, i);
      var n := i + 1;
      forall j | 0 <= j < n
        ensures AgreeAt(x.fields[j], m1, Addr(x, j), m1')
      {
        if j < i {
          AgreeOther(x, m, m', m1, m1', i, j);
        }
      }
      DefaultsFromAgree(x, m1, m1', n);
    }
  }

  lemma UnselectedValid(x: Struct, m: Memory)
    requires Placed(x, |m|) && UnselectedUpTo(x, m, |x.fields|)
    ensures WhichValid(x.fields, View(x, m))
  {
    hide WellFormed, Reaches, GetSize, View;
  }

  /** Initialised structs agree, whatever memory held. */
  lemma DefaultsAgree(x: Struct, m: Memory, m': Memory)
    requires Placed(x, |m|) && |m'| == |m| && LongArrays(x.fields)
    ensures AgreeMessage(x.fields, View(x, SetDefaults(x, m)), View(x, SetDefaults(x, m')))
    decreases x.fields, |x.fields| + 1
  {
    hide Placed, LongArrays, AgreeAt, AgreeMessage, WhichValid;
    DefaultsFromAgree(x, m, m', 0);
    UnselectedValid(x, SetDefaults(x, m));
    AgreeAll(x, SetDefaults(x, m), SetDefaults(x, m'));
  }

  // ---- Single values ----

  /** A value decodes, or not, and to the same value, wherever it is put. */
  lemma ValueAgrees(f: Field, d: seq<byte>, d': seq<byte>, s: seq<byte>)
    requires ItemFor(f, d) && ItemFor(f, d') && !f.ltype.Submessage?
    ensures var r, r' := DecodeValue(f, d, s), DecodeValue(f, d', s);
            (r.Ok? <==> r'.Ok?) && (r.Ok? ==> r.rest == r'.rest && AgreeItem(f, r.value, r'.value))
  {
    if f.ltype.Packable() {
      ScalarOverwrites(f, d, d', s);
      hide DecodeScalar;
    } else {
      hide DecodeVarint32, LittleEndian, Write, StringLen, FromLittleEndian;
      if DecodeVarint32(s).Got? {
        var n, rest := DecodeVarint32(s).value, DecodeVarint32(s).rest;
        if f.ltype.Bytes? && n + SIZE_BYTES <= f.dataSize && n <= |rest| {
          BytesStored(d, rest[..n]);
          BytesStored(d', rest[..n]);
        } else if f.ltype.String? && n < f.dataSize && n <= |rest| {
          SameStrings(d, d', rest[..n]);
        }
      }
    }
  }

  lemma SameStrings(d: seq<byte>, d': seq<byte>, b: seq<byte>)
    requires |d'| == |d| && |b| < |d|
    ensures var r, r' := Write(Write(d, 0, b), |b|, [0]), Write(Write(d', 0, b), |b|, [0]);
            r[..StringLen(r)] == r'[..StringLen(r')] && StringLen(r) < |r| && StringLen(r') < |r'|
  {
    var r, r' := Write(Write(d, 0, b), |b|, [0]), Write(Write(d', 0, b), |b|, [0]);
    assert forall k :: 0 <= k <= |b| ==> r[k] == r'[k];
    hide Write;
    SamePrefix(r, r', |b|);
  }

  lemma SamePrefix(r: seq<byte>, r': seq<byte>, n: nat)
    requires n < |r| == |r'| && r[n] == 0 && forall k :: 0 <= k <= n ==> r[k] == r'[k]
    ensures r[..StringLen(r)] == r'[..StringLen(r')] && StringLen(r) < |r| && StringLen(r') < |r'|
  {
    var a := StringLen(r);
    assert a <= n;
    StringLenIs(r', a);
  }

  lemma AgreeAppend(f: Field, a: seq<byte>, b: seq<byte>, k: nat, d: seq<byte>, e: seq<byte>)
    requires WellFormedField(f) && |a| == |b| == f.dataSize * f.arraySize && k < f.arraySize
    requires |d| == f.dataSize == |e| && AgreeItems(f, a, b, k) && AgreeItem(f, d, e)
    ensures AgreeItems(f, PutItem(f, a, k, d), PutItem(f, b, k, e), k + 1)
  {
    hide AgreeItem, WellFormedField, PutItem, ItemAt;
    forall j | 0 <= j < k + 1
      ensures AgreeItem(f, ItemAt(f, PutItem(f, a, k, d), j), ItemAt(f, PutItem(f, b, k, e), j))
    {
      if j == k {
        ItemPutSame(f, a, k, d);
        ItemPutSame(f, b, k, e);
      } else {
        ItemPutOther(f, a, k, d, j);
        ItemPutOther(f, b, k, e, j);
      }
    }
  }

  // ---- Fields below submessages ----

  /** What is needed of two cursors: of a fixed-count array only the local count. */
  ghost predicate AgreeCursor(f: Field, s: Slot, t: Slot) {
    SlotFor(f, s) && SlotFor(f, t) && s.size == t.size && AgreeSlot(f, s, t)
  }

  ghost predicate AgreeResult(f: Field, r: Result<Slot>, r': Result<Slot>) {
    (r.Ok? <==> r'.Ok?) && (r.Ok? ==> r.rest == r'.rest && AgreeCursor(f, r.value, r'.value))
  }

  lemma {:induction false} PackedLoopAgrees(f: Field, s: Slot, t: Slot, b: seq<byte>)
    requires AgreeCursor(f, s, t) && f.htype.Repeated? && f.ltype.Packable()
    ensures AgreeResult(f, PackedLoop(f, s, b), PackedLoop(f, t, b))
    decreases |b|
  {
    hide DecodeScalar, WellFormedField, PutItem, ItemAt, AgreeItem, AgreeItems;
    if b != [] && s.size < f.arraySize {
      var k := s.size;
      ScalarAgrees(f, ItemAt(f, s.data, k), ItemAt(f, t.data, k), b);
      var r, r' := DecodeScalar(f, ItemAt(f, s.data, k), b), DecodeScalar(f, ItemAt(f, t.data, k), b);
      if r.Ok? {
        if f.sizeOffset != 0 {
          AgreeAppend(f, s.data, t.data, k, r.value, r'.value);
        }
        PackedLoopAgrees(f, Slot(k + 1, PutItem(f, s.data, k, r.value)),
                         Slot(k + 1, PutItem(f, t.data, k, r'.value)), r.rest);
      }
    }
  }

  lemma ScalarAgrees(f: Field, d: seq<byte>, d': seq<byte>, s: seq<byte>)
    requires ItemFor(f, d) && ItemFor(f, d') && f.ltype.Packable()
    ensures var r, r' := DecodeScalar(f, d, s), DecodeScalar(f, d', s);
            (r.Ok? <==> r'.Ok?) && (r.Ok? ==> r.rest == r'.rest && AgreeItem(f, r.value, r'.value))
  {
    hide DecodeScalar;
    ScalarOverwrites(f, d, d', s);
  }

  lemma SlotAgrees(f: Field, s: Slot, t: Slot, wireType: nat, b: seq<byte>)
    requires AgreeCursor(f, s, t) && !f.ltype.Submessage?
    ensures AgreeResult(f, DecodeSlot(f, s, wireType, b), DecodeSlot(f, t, wireType, b))
    ensures f.htype.Oneof? ==> DecodeSlot(f, s, wireType, b).value.size == f.tag
  {
    hide DecodeValue, WellFormedField, PackedLoop, PutItem, ItemAt, AgreeItem, AgreeItems, Substream;
    if f.htype.Repeated? && wireType == STRING && f.ltype.Packable() {
      if Substream(b).Got? {
        PackedLoopAgrees(f, s, t, Substream(b).value);
      }
    } else if f.htype.Repeated? && s.size >= f.arraySize {
    } else {
      ValueAgrees(f, Target(f, s), Target(f, t), b);
      var r, r' := DecodeValue(f, Target(f, s), b), DecodeValue(f, Target(f, t), b);
      if r.Ok? && f.htype.Repeated? && f.sizeOffset != 0 {
        AgreeAppend(f, s.data, t.data, s.size, r.value, r'.value);
      }
    }
  }

  // ---- Submessage fields ----

  /** A submessage writes inside its own entry. */
  lemma SubmessageInside(f: Field, m: Memory, p: nat, k: nat, s: seq<byte>)
    requires PlacedField(f, p, |m|) && f.ltype.Submessage? && k < Entries(f) && LongBelow(f)
    ensures Spill(m, DecodeSubmessage(f, m, p, k, s).value, EntryAddr(f, p, k), EntryAddr(f, p, k) + f.dataSize, true)
  {
    hide WellFormed, Reaches, SetDefaults, DecodeNoinit, Substream, LongArrays;
    var x := SubAt(f, p, k);
    PlacedSub(f, p, |m|, k);
    if Substream(s).Got? {
      if f.htype.Repeated? {
        DefaultsInside(x, m);
        NoinitInside(x, SetDefaults(x, m), Substream(s).value);
      } else {
        NoinitInside(x, m, Substream(s).value);
      }
    }
  }

  /** Two memories in which entry k of a submessage field agrees, unless it is about to be initialised. */
  ghost predicate AgreeSub(f: Field, m: Memory, p: nat, k: nat, m': Memory) {
    && PlacedField(f, p, |m|) && |m'| == |m| && f.ltype.Submessage? && k < Entries(f)
    && Placed(SubAt(f, p, k), |m|)
    && AgreeMessage(f.ptr.fields, View(SubAt(f, p, k), m), View(SubAt(f, p, k), m'))
  }

  lemma SubmessageAgrees(f: Field, m: Memory, p: nat, k: nat, m': Memory, s: seq<byte>)
    requires PlacedField(f, p, |m|) && |m'| == |m| && f.ltype.Submessage? && k < Entries(f) && LongBelow(f)
    requires !f.htype.Repeated? ==> AgreeSub(f, m, p, k, m')
    ensures var r, r' := DecodeSubmessage(f, m, p, k, s), DecodeSubmessage(f, m', p, k, s);
            (r.Ok? <==> r'.Ok?) && (r.Ok? ==> r.rest == r'.rest && AgreeSub(f, r.value, p, k, r'.value))
    decreases f, 1
  {
    hide WellFormed, Reaches, SetDefaults, DecodeNoinit, Substream, LongArrays, View, AgreeMessage;
    var x := SubAt(f, p, k);
    PlacedSub(f, p, |m|, k);
    if Substream(s).Got? {
      if f.htype.Repeated? {
        DefaultsAgree(x, m, m');
        NoinitAgrees(x, SetDefaults(x, m), SetDefaults(x, m'), Substream(s).value);
      } else {
        NoinitAgrees(x, m, m', Substream(s).value);
      }
    }
  }

  ghost predicate AgreeCells(f: Field, r: Result<Cells>, p: nat, r': Result<Cells>) {
    && (r.Ok? <==> r'.Ok?)
    && (r.Ok? ==> && r.rest == r'.rest && r.value.count == r'.value.count
                  && AgreeAt(f, r.value.mem, p, r'.value.mem)
                  && CellsAt(f, p, |r.value.mem|)
                  && (f.htype.Oneof? ==> SlotAt(r.value.mem, f, p).size == f.tag))
  }

  /** The cells of a single submessage field, from its size cell and its struct. */
  lemma SingleAgrees(f: Field, m: Memory, p: nat, m': Memory, n: nat)
    requires AgreeSub(f, m, p, 0, m') && !f.htype.Repeated? && CellsAt(f, p, |m|)
    requires SlotAt(m, f, p).size == n == SlotAt(m', f, p).size
    ensures AgreeAt(f, m, p, m')
  {
    hide SlotAt, View, AgreeMessage, Placed, PlacedField, AgreeItem;
    PlacedCells(f, p, |m|);
    SubView(f, m, p);
    SubView(f, m', p);
    AgreeStruct(f, SlotAt(m, f, p).data, SlotAt(m', f, p).data);
  }

  lemma SubOfSingle(f: Field, m: Memory, p: nat, m': Memory)
    requires AgreeAt(f, m, p, m') && f.ltype.Submessage? && !f.htype.Repeated? && CellsAt(f, p, |m|)
    requires f.htype.Oneof? ==> SlotAt(m, f, p).size == f.tag
    ensures AgreeSub(f, m, p, 0, m')
  {
    hide SlotAt, View, AgreeMessage, Placed, PlacedField, AgreeItem;
    PlacedCells(f, p, |m|);
    SubView(f, m, p);
    SubView(f, m', p);
    AgreeStruct(f, SlotAt(m, f, p).data, SlotAt(m', f, p).data);
  }

  /** Storing the size leaves the struct of a single submessage alone. */
  lemma PutSizeAgrees(f: Field, m: Memory, p: nat, m': Memory, n: nat)
    requires AgreeSub(f, m, p, 0, m') && !f.htype.Repeated? && CellsFor(f, p, |m|)
    ensures AgreeSub(f, PutSizeAt(m, f, p, n), p, 0, PutSizeAt(m', f, p, n))
  {
    hide SlotAt, View, AgreeMessage, Placed, PlacedField, PutSizeAt;
    SubView(f, m, p);
    SubView(f, m', p);
    SubView(f, PutSizeAt(m, f, p, n), p);
    SubView(f, PutSizeAt(m', f, p, n), p);
    SlotAtPutSize(m, f, p, n);
    SlotAtPutSize(m', f, p, n);
  }

  /** Where the decoder of a single submessage starts, in both memories. */
  lemma PreparedAgrees(f: Field, m: Memory, p: nat, m': Memory)
    requires AgreeAt(f, m, p, m') && f.ltype.Submessage? && !f.htype.Repeated? && LongBelow(f)
    ensures CellsFor(f, p, |m|) && AgreeSub(f, Prepared(f, m, p), p, 0, Prepared(f, m', p))
    ensures SlotAt(Prepared(f, m, p), f, p).size == SentSize(f) == SlotAt(Prepared(f, m', p), f, p).size
    decreases f, 1
  {
    hide PlacedField, SlotAt, View, Placed, PutSizeAt, ResetMember, AgreeSub, AgreeItem, LittleEndian, FromLittleEndian,
      SentSize, CellsFor, LongBelow;
    PlacedCells(f, p, |m|);
    SentFits(f);
    NoSize(f, m, p);
    NoSize(f, m', p);
    match f.htype {
      case Required => SubOfSingle(f, m, p, m');
      case Optional =>
        SubOfSingle(f, m, p, m');
        if f.sizeOffset != 0 {
          PutSizeAgrees(f, m, p, m', 1);
          SlotAtPutSize(m, f, p, 1);
          SlotAtPutSize(m', f, p, 1);
        }
      case Oneof =>
        ResetAgrees(f, m, p, m');
        var m1, m1' := ResetMember(f, m, p), ResetMember(f, m', p);
        PutSizeAgrees(f, m1, p, m1', f.tag);
        SlotAtPutSize(m1, f, p, f.tag);
        SlotAtPutSize(m1', f, p, f.tag);
    }
  }

  lemma ResetAgrees(f: Field, m: Memory, p: nat, m': Memory)
    requires AgreeAt(f, m, p, m') && f.ltype.Submessage? && f.htype.Oneof? && LongBelow(f)
    ensures AgreeSub(f, ResetMember(f, m, p), p, 0, ResetMember(f, m', p))
    decreases f, 0
  {
    PlacedCells(f, p, |m|);
    PlacedSub(f, p, |m|, 0);
    hide WellFormed, Reaches, SetDefaults, View, SlotAt, LongArrays, AgreeMessage, Write, CellsFor, CellsAt;
    if SlotAt(m, f, p).size == f.tag {
      SubOfSingle(f, m, p, m');
    } else {
      var x := SubAt(f, p, 0);
      DefaultsAgree(x, Write(m, p, Zeros(f.dataSize)), Write(m', p, Zeros(f.dataSize)));
    }
  }

  lemma SubFieldAgrees(f: Field, m: Memory, p: nat, m': Memory, count: nat, s: seq<byte>)
    requires AgreeAt(f, m, p, m') && f.ltype.Submessage? && LongBelow(f)
    ensures AgreeCells(f, DecodeSubField(f, m, p, count, s), p, DecodeSubField(f, m', p, count, s))
    decreases f, 2
  {
    if f.htype.Repeated? {
      ArrayEntryAgrees(f, m, p, m', count, s);
    } else {
      hide PlacedField, SlotAt, PutSizeAt, ResetMember, AgreeSub, AgreeSlot, LongBelow, CellsFor,
        DecodeSubmessage, Spill;
      PreparedAgrees(f, m, p, m');
      PlacedCells(f, p, |m|);
      var m1, m1' := Prepared(f, m, p), Prepared(f, m', p);
      SubmessageAgrees(f, m1, p, 0, m1', s);
      var r, r' := DecodeSubmessage(f, m1, p, 0, s), DecodeSubmessage(f, m1', p, 0, s);
      SizeStays(f, p, m1, s);
      SizeStays(f, p, m1', s);
      if r.Ok? {
        SingleAgrees(f, r.value, p, r'.value, SentSize(f));
        NoSize(f, m1, p);
      }
      SubFieldSteps(f, m, p, count, s);
      SubFieldSteps(f, m', p, count, s);
    }
  }

  lemma SizeStays(f: Field, p: nat, m: Memory, s: seq<byte>)
    requires PlacedField(f, p, |m|) && f.ltype.Submessage? && !f.htype.Repeated? && LongBelow(f) && CellsFor(f, p, |m|)
    ensures SlotAt(DecodeSubmessage(f, m, p, 0, s).value, f, p).size == SlotAt(m, f, p).size
  {
    hide PlacedField, SlotAt, LongBelow, DecodeSubmessage, Spill, CellsFor;
    SubmessageInside(f, m, p, 0, s);
    TameOfLong(f);
    SizeKept(f, p, m, DecodeSubmessage(f, m, p, 0, s).value, 0);
  }

  lemma TameOfLong(f: Field)
    requires LongBelow(f)
    ensures TameField(f)
  {
  }

  /** The next entry of an array of submessages. */
  lemma ArrayEntryAgrees(f: Field, m: Memory, p: nat, m': Memory, count: nat, s: seq<byte>)
    requires AgreeAt(f, m, p, m') && f.ltype.Submessage? && f.htype.Repeated? && LongBelow(f)
    ensures AgreeCells(f, DecodeSubField(f, m, p, count, s), p, DecodeSubField(f, m', p, count, s))
    decreases f, 2, 0
  {
    hide PlacedField, PutSizeAt, AgreeItems, LongBelow, CellsFor, DecodeSubmessage, Spill, WellFormedField,
      FromLittleEndian, Read, AgreeSub;
    PlacedCells(f, p, |m|);
    var n := CursorSlot(m, f, p, count).size;
    var next := (n + 1) % TWO32;
    if n < f.arraySize {
      FieldSizes(f);
      ModSmall(n + 1, TWO32);
      var m1, m1' := PutSizeAt(m, f, p, next), PutSizeAt(m', f, p, next);
      SubmessageAgrees(f, m1, p, n, m1', s);
      var r, r' := DecodeSubmessage(f, m1, p, n, s), DecodeSubmessage(f, m1', p, n, s);
      if r.Ok? && f.sizeOffset != 0 {
        CountAfter(f, p, m, n, s);
        CountAfter(f, p, m', n, s);
        ItemsAfter(f, p, m, m', n, s);
      }
    }
  }

  lemma CountAfter(f: Field, p: nat, m: Memory, n: nat, s: seq<byte>)
    requires PlacedField(f, p, |m|) && f.ltype.Submessage? && Counted(f) && LongBelow(f) && n < f.arraySize
    requires CellsFor(f, p, |m|)
    ensures SlotAt(DecodeSubmessage(f, PutSizeAt(m, f, p, n + 1), p, n, s).value, f, p).size == n + 1
  {
    hide PlacedField, SlotAt, LongBelow, DecodeSubmessage, Spill, CellsFor, PutSizeAt, FromLittleEndian, LittleEndian;
    PlacedCells(f, p, |m|);
    var m1 := PutSizeAt(m, f, p, n + 1);
    SubmessageInside(f, m1, p, n, s);
    TameOfLong(f);
    SizeKept(f, p, m1, DecodeSubmessage(f, m1, p, n, s).value, n);
    SlotAtPutSize(m, f, p, n + 1);
    ArrayBounds(f, n + 1);
    CountStored(f, n + 1);
  }

  lemma ItemsAfter(f: Field, p: nat, m: Memory, m': Memory, n: nat, s: seq<byte>)
    requires AgreeAt(f, m, p, m') && CellsFor(f, p, |m|) && f.ltype.Submessage? && Counted(f) && LongBelow(f)
    requires n < f.arraySize && SlotAt(m, f, p).size == n
    requires var r, r' := DecodeSubmessage(f, PutSizeAt(m, f, p, n + 1), p, n, s),
                          DecodeSubmessage(f, PutSizeAt(m', f, p, n + 1), p, n, s);
             AgreeSub(f, r.value, p, n, r'.value)
    ensures var r, r' := DecodeSubmessage(f, PutSizeAt(m, f, p, n + 1), p, n, s),
                         DecodeSubmessage(f, PutSizeAt(m', f, p, n + 1), p, n, s);
            AgreeItems(f, SlotAt(r.value, f, p).data, SlotAt(r'.value, f, p).data, n + 1)
  {
    hide PlacedField, LongBelow, CellsFor, DecodeSubmessage, Spill, AgreeMessage, View, Placed, PutSizeAt,
      SlotAt, ItemAt, WellFormedField, DataLen, AgreeItem;
    PlacedCells(f, p, |m|);
    ArrayLen(f);
    var r, r' := DecodeSubmessage(f, PutSizeAt(m, f, p, n + 1), p, n, s),
                 DecodeSubmessage(f, PutSizeAt(m', f, p, n + 1), p, n, s);
    forall j | 0 <= j < n + 1
      ensures AgreeItem(f, ItemAt(f, SlotAt(r.value, f, p).data, j), ItemAt(f, SlotAt(r'.value, f, p).data, j))
    {
      if j < n {
        ItemBefore(f, p, m, n, s, j);
        ItemBefore(f, p, m', n, s, j);
        ItemAgrees(f, m, p, m', j);
      } else {
        ItemNow(f, p, r.value, r'.value, n);
      }
    }
  }

  lemma ItemAgrees(f: Field, m: Memory, p: nat, m': Memory, j: nat)
    requires AgreeAt(f, m, p, m') && CellsAt(f, p, |m|) && Counted(f) && j < f.arraySize && j < SlotAt(m, f, p).size
    requires WellFormedField(f) && DataLen(f) == f.dataSize * f.arraySize
    ensures AgreeItem(f, ItemAt(f, SlotAt(m, f, p).data, j), ItemAt(f, SlotAt(m', f, p).data, j))
  {
    hide AgreeItem, ItemAt, SlotAt, PlacedField, WellFormedField;
    SlotItemAgrees(f, SlotAt(m, f, p), SlotAt(m', f, p), j);
  }

  lemma SlotItemAgrees(f: Field, s: Slot, t: Slot, j: nat)
    requires SlotFor(f, s) && SlotFor(f, t) && AgreeSlot(f, s, t) && Counted(f) && j < f.arraySize && j < s.size
    ensures AgreeItem(f, ItemAt(f, s.data, j), ItemAt(f, t.data, j))
  {
    assert AgreeItems(f, s.data, t.data, s.size);
  }

  lemma ArrayLen(f: Field)
    requires f.htype.Repeated?
    ensures DataLen(f) == f.dataSize * f.arraySize
  {
  }

  /** Entries before the one being decoded are as they were. */
  lemma ItemBefore(f: Field, p: nat, m: Memory, n: nat, s: seq<byte>, j: nat)
    requires PlacedField(f, p, |m|) && CellsFor(f, p, |m|) && f.ltype.Submessage? && Counted(f) && LongBelow(f)
    requires j < n < f.arraySize && CellsAt(f, p, |m|) && DataLen(f) == f.dataSize * f.arraySize
    ensures ItemAt(f, SlotAt(DecodeSubmessage(f, PutSizeAt(m, f, p, n + 1), p, n, s).value, f, p).data, j)
         == ItemAt(f, SlotAt(m, f, p).data, j)
  {
    hide PlacedField, LongBelow, CellsFor, DecodeSubmessage, Spill, View, Placed, PutSizeAt, ItemAt, FromLittleEndian,
      Read, LittleEndian;
    var m1 := PutSizeAt(m, f, p, n + 1);
    var m2 := DecodeSubmessage(f, m1, p, n, s).value;
    SubmessageInside(f, m1, p, n, s);
    SlotAtPutSize(m, f, p, n + 1);
    ItemAddr(f, m1, p, j);
    ItemAddr(f, m2, p, j);
    SpillShort(m1, m2, EntryAddr(f, p, n), EntryAddr(f, p, n) + f.dataSize, LongBelow(f));
    ItemKept(f, p, m1, m2, j, n);
  }

  lemma SpillShort(m: Memory, m': Memory, lo: nat, hi: nat, long: bool)
    requires Spill(m, m', lo, hi, true)
    ensures Spill(m, m', lo, hi, long)
  {
  }

  lemma ItemNow(f: Field, p: nat, m: Memory, m': Memory, n: nat)
    requires AgreeSub(f, m, p, n, m') && CellsFor(f, p, |m|) && Counted(f) && n < f.arraySize
    requires CellsAt(f, p, |m|) && DataLen(f) == f.dataSize * f.arraySize && WellFormedField(f)
    ensures AgreeItem(f, ItemAt(f, SlotAt(m, f, p).data, n), ItemAt(f, SlotAt(m', f, p).data, n))
  {
    hide PlacedField, CellsFor, View, Placed, ItemAt, FromLittleEndian, Read, WellFormedField, AgreeMessage;
    ItemAddr(f, m, p, n);
    ItemAddr(f, m', p, n);
  }

  /** One record of one field. */
  lemma CellsAgree(f: Field, m: Memory, p: nat, m': Memory, count: nat, wireType: nat, s: seq<byte>)
    requires AgreeAt(f, m, p, m') && LongBelow(f)
    ensures AgreeCells(f, DecodeCells(f, m, p, count, wireType, s), p, DecodeCells(f, m', p, count, wireType, s))
    decreases f, 3
  {
    hide DecodeSlot, DecodeSubField, PutSlotAt, SlotAt, CursorSlot, PlacedField, AgreeSlot, CellsFor, WellFormedField,
      LongBelow;
    PlacedCells(f, p, |m|);
    if f.ltype.Submessage? {
      SubFieldAgrees(f, m, p, m', count, s);
    } else {
      CursorsAgree(f, m, p, m', count);
      var slot, slot' := CursorSlot(m, f, p, count), CursorSlot(m', f, p, count);
      SlotAgrees(f, slot, slot', wireType, s);
      var r, r' := DecodeSlot(f, slot, wireType, s), DecodeSlot(f, slot', wireType, s);
      if r.Ok? {
        StoredAgree(f, m, p, m', r.value, r'.value);
      }
    }
  }

  lemma CursorsAgree(f: Field, m: Memory, p: nat, m': Memory, count: nat)
    requires AgreeAt(f, m, p, m') && CellsAt(f, p, |m|)
    ensures AgreeCursor(f, CursorSlot(m, f, p, count), CursorSlot(m', f, p, count))
  {
    hide FieldReaches, CellsFor, FromLittleEndian, AgreeItem, AgreeItems, Read;
  }

  lemma StoredAgree(f: Field, m: Memory, p: nat, m': Memory, t: Slot, t': Slot)
    requires PlacedField(f, p, |m|) && |m'| == |m| && CellsFor(f, p, |m|) && CellsAt(f, p, |m|)
    requires AgreeCursor(f, t, t') && (f.htype.Oneof? ==> t.size == f.tag)
    ensures AgreeAt(f, PutSlotAt(m, f, p, t), p, PutSlotAt(m', f, p, t'))
    ensures f.htype.Oneof? ==> SlotAt(PutSlotAt(m, f, p, t), f, p).size == f.tag
  {
    hide PlacedField, CellsFor, PutSlotAt, SlotAt, LittleEndian, FromLittleEndian, AgreeItem, ItemAt, WellFormedField;
    SlotAtPut(m, f, p, t);
    SlotAtPut(m', f, p, t');
    PlacedCells(f, p, |m|);
    StoredBelow(t.size, SizeLen(f));
    if f.htype.Oneof? {
      SentFits(f);
    } else if f.htype.Repeated? && f.sizeOffset != 0 {
      FewerAgree(f, t.data, t'.data, t.size, SlotAt(PutSlotAt(m, f, p, t), f, p).size);
    }
  }

  lemma FewerAgree(f: Field, a: seq<byte>, b: seq<byte>, n: nat, k: nat)
    requires WellFormedField(f) && |a| == |b| == f.dataSize * f.arraySize && k <= n && AgreeItems(f, a, b, n)
    ensures AgreeItems(f, a, b, k)
  {
    hide AgreeItem, ItemAt, WellFormedField;
  }

  /** A cell holds no more than was stored. */
  lemma {:induction false} StoredBelow(n: nat, w: nat)
    ensures FromLittleEndian(LittleEndian(n, w)) <= n
    decreases w
  {
    if w > 0 {
      assert LittleEndian(n, w)[1..] == LittleEndian(n / 256, w - 1);
      StoredBelow(n / 256, w - 1);
    }
  }

  // ---- Messages ----

  ghost predicate AgreeState(x: Struct, st: State, st': State) {
    && StateFor(x, st) && StateFor(x, st') && |st'.mem| == |st.mem|
    && AgreeMessage(x.fields, View(x, st.mem), View(x, st'.mem))
    && st'.seen == st.seen && st'.fixedField == st.fixedField && st'.fixedSize == st.fixedSize
  }

  lemma FieldAgrees(x: Struct, st: State, st': State, i: nat, wireType: nat, s: seq<byte>)
    requires AgreeState(x, st, st') && i < |x.fields| && LongArrays(x.fields)
    ensures var r, r' := DecodeField(x, st, i, wireType, s), DecodeField(x, st', i, wireType, s);
            (r.Ok? <==> r'.Ok?) && (r.Ok? ==> r.rest == r'.rest && AgreeState(x, r.value, r'.value))
    decreases x.fields, 0
  {
    hide Placed, DecodeCells, LongArrays, LongBelow, HoldsCount, View, PlacedField, AgreeMessage, AgreeAt,
      CellsAt, SlotAt, Addr;
    var f, p, count := x.fields[i], Addr(x, i), Enter(x.fields, st, i).fixedSize;
    LongEntry(x.fields, i);
    PlacedEntry(x, i, |st.mem|);
    AgreeAll(x, st.mem, st'.mem);
    CellsAgree(f, st.mem, p, st'.mem, count, wireType, s);
    var c, c' := DecodeCells(f, st.mem, p, count, wireType, s), DecodeCells(f, st'.mem, p, count, wireType, s);
    if c.Ok? {
      DecodedOnly(f, st.mem, p, count, wireType, s);
      DecodedOnly(f, st'.mem, p, count, wireType, s);
      OthersAgree(x, st.mem, st'.mem, c.value.mem, c'.value.mem, i);
    }
  }

  lemma OthersAgree(x: Struct, m: Memory, m': Memory, m1: Memory, m1': Memory, i: nat)
    requires Placed(x, |m|) && |m| == |m'| && i < |x.fields| && AgreeUpTo(x, m, m', |x.fields|)
    requires OnlyCells(x.fields[i], Addr(x, i), m, m1) && OnlyCells(x.fields[i], Addr(x, i), m', m1')
    requires AgreeAt(x.fields[i], m1, Addr(x, i), m1') && CellsAt(x.fields[i], Addr(x, i), |m1|)
    requires x.fields[i].htype.Oneof? ==> SlotAt(m1, x.fields[i], Addr(x, i)).size == x.fields[i].tag
    requires WhichValid(x.fields, View(x, m))
    ensures |m1| == |m| == |m1'| && AgreeMessage(x.fields, View(x, m1), View(x, m1'))
  {
    hide Placed, View, AgreeMessage, AgreeAt, SlotAt, CellsAt, Addr, InCells, WhichValid;
    WhichStaysValid(x, m, m1, i);
    forall j | 0 <= j < |x.fields|
      ensures AgreeAt(x.fields[j], m1, Addr(x, j), m1')
    {
      if j != i {
        AgreeOther(x, m, m', m1, m1', i, j);
      }
    }
    AgreeAll(x, m1, m1');
  }

  lemma WhichStaysValid(x: Struct, m: Memory, m1: Memory, i: nat)
    requires Placed(x, |m|) && i < |x.fields| && OnlyCells(x.fields[i], Addr(x, i), m, m1)
    requires WhichValid(x.fields, View(x, m)) && CellsAt(x.fields[i], Addr(x, i), |m1|)
    requires x.fields[i].htype.Oneof? ==> SlotAt(m1, x.fields[i], Addr(x, i)).size == x.fields[i].tag
    ensures |m1| == |m| && WhichValid(x.fields, View(x, m1))
  {
    hide WellFormed, Reaches, GetSize, GetData, View, SlotAt, OnlyCells, Addr, Leader, PlacedField, CellsFor,
      WellFormedField;
    OnlyLength(x.fields[i], Addr(x, i), m, m1);
    ViewSlot(x, i, m1);
    forall j | 0 <= j < |x.fields|
      ensures ValidWhich(x.fields, View(x, m1), j)
    {
      if Leader(x.fields, i) != Leader(x.fields, j) {
        ApartKept(x, m, m1, i, j);
        ViewSlot(x, j, m);
        ViewSlot(x, j, m1);
        assert ValidWhich(x.fields, View(x, m), j);
      } else if x.fields[j].htype.Oneof? {
        if i != j {
          SharedAreOneof(x.fields, i, j);
          UnionSizeShared(x.fields, i, j, View(x, m1));
        }
        assert x.fields[i].tag == GetSize(x.fields, j, View(x, m1)) && Leader(x.fields, i) == Leader(x.fields, j);
      }
    }
  }

  lemma RecordAgrees(x: Struct, st: State, st': State, tag: nat, wireType: nat, s: seq<byte>)
    requires AgreeState(x, st, st') && LongArrays(x.fields)
    ensures var r, r' := DecodeRecord(x, st, tag, wireType, s), DecodeRecord(x, st', tag, wireType, s);
            (r.Ok? <==> r'.Ok?) && (r.Ok? ==> r.rest == r'.rest && AgreeState(x, r.value, r'.value))
    decreases x.fields, 1
  {
    hide WellFormed, Reaches, DecodeField, DecodeVarint32, SkipField, View, LongArrays;
    if IndexOf(x.fields, tag) < |x.fields| {
      FieldAgrees(x, st, st', IndexOf(x.fields, tag), wireType, s);
    }
  }

  lemma {:induction false} LoopAgrees(x: Struct, st: State, st': State, s: seq<byte>)
    requires AgreeState(x, st, st') && LongArrays(x.fields)
    ensures var r, r' := DecodeLoop(x, st, s), DecodeLoop(x, st', s);
            && (r.Ended? <==> r'.Ended?) && (r.Broken? <==> r'.Broken?)
            && (r.Stopped? ==> r'.Stopped? && r.rest == r'.rest)
            && (!r.Broken? ==> AgreeState(x, r.st, r'.st))
    decreases x.fields, 2, |s|
  {
    hide AgreeState, DecodeRecord, DecodeVarint32, Placed, LongArrays;
    StatesAgree(x, st, st');
    if s != [] && DecodeVarint32(s).Got? && DecodeVarint32(s).value != 0 {
      var key, rest := DecodeVarint32(s).value, DecodeVarint32(s).rest;
      RecordAgrees(x, st, st', key / 8, key % 8, rest);
      var r, r' := DecodeRecord(x, st, key / 8, key % 8, rest), DecodeRecord(x, st', key / 8, key % 8, rest);
      if r.Ok? {
        LoopAgrees(x, r.value, r'.value, r.rest);
      }
    }
  }

  lemma StatesAgree(x: Struct, st: State, st': State)
    requires AgreeState(x, st, st')
    ensures StateFor(x, st) && StateFor(x, st')
  {
  }

  lemma NoinitAgrees(x: Struct, m: Memory, m': Memory, s: seq<byte>)
    requires Placed(x, |m|) && |m'| == |m| && LongArrays(x.fields)
    requires AgreeMessage(x.fields, View(x, m), View(x, m'))
    ensures var r, r' := DecodeNoinit(x, m, s), DecodeNoinit(x, m', s);
            && (r.Ok? <==> r'.Ok?)
            && (r.Ok? ==> r.rest == r'.rest && AgreeMessage(x.fields, View(x, r.value), View(x, r'.value)))
    decreases x.fields, 3
  {
    hide Placed, DecodeLoop, View, LongArrays, AllRequiredSeen, AgreeMessage;
    LoopAgrees(x, Start(m), Start(m'), s);
  }

  /** pb_decode over any two memories: the same answer, the same unread input, and on success messages
      that agree. */
  lemma OldMemoryIrrelevant(x: Struct, m: Memory, m': Memory, s: seq<byte>)
    requires Placed(x, |m|) && |m'| == |m| && LongArrays(x.fields)
    ensures var r, r' := Decode(x, m, s), Decode(x, m', s);
            && (r.Ok? <==> r'.Ok?)
            && (r.Ok? ==> r.rest == r'.rest && AgreeMessage(x.fields, View(x, r.value), View(x, r'.value)))
  {
    hide Placed, DecodeNoinit, SetDefaults, View, LongArrays, AgreeMessage;
    DefaultsAgree(x, m, m');
    NoinitAgrees(x, SetDefaults(x, m), SetDefaults(x, m'), s);
  }

  /** Fixed-count arrays are left out for a reason: an array that is not received keeps what memory held,
      past the zero count. */
  lemma AbsentArrayKept(x: Struct, m: Memory, i: nat, k: nat)
    requires Placed(x, |m|) && LongArrays(x.fields) && i < |x.fields| && FixedCount(x.fields[i])
    requires 4 <= k < DataLen(x.fields[i])
    ensures Addr(x, i) + k < |m| && Decode(x, m, []).value[Addr(x, i) + k] == m[Addr(x, i) + k]
  {
    hide Placed, SetDefaults, LongArrays, DefaultField, Leader, PlacedField, SameCells, Addr, Finish;
    PlacedEntry(x, i, |m|);
    forall j | 0 <= j < |x.fields| && j != i
      ensures Leader(x.fields, j) != Leader(x.fields, i)
    {
      if Leader(x.fields, j) == Leader(x.fields, i) {
        SharedAreOneof(x.fields, i, j);
      }
    }
    EntryDefaults(x, m, i);
    LoopOfNothing(x, Start(SetDefaults(x, m)));
    LongEntry(x.fields, i);
    ArrayByte(x.fields[i], m, Addr(x, i), SetDefaults(x, m), k);
  }

  lemma ArrayByte(f: Field, m: Memory, p: nat, m1: Memory, k: nat)
    requires PlacedField(f, p, |m|) && FixedCount(f) && HoldsCount(f)
    requires SameCells(f, m1, p, DefaultField(f, m, p), p) && SIZE_BYTES <= k < DataLen(f)
    ensures p + k < |m| && p + k < |m1| && m1[p + k] == m[p + k]
  {
    hide PlacedField, SlotAt, DefaultField;
    PlacedCells(f, p, |m|);
    PlacedCells(f, p, |m1|);
    SlotByte(f, m1, p, k);
    SlotByte(f, DefaultField(f, m, p), p, k);
    PastCount(f, m, p, k);
  }

  lemma SlotByte(f: Field, m: Memory, p: nat, k: nat)
    requires CellsAt(f, p, |m|) && k < DataLen(f)
    ensures p + k < |m| && SlotAt(m, f, p).data[k] == m[p + k]
  {
    hide DataLen, SizeLen;
  }

  lemma PastCount(f: Field, m: Memory, p: nat, k: nat)
    requires PlacedField(f, p, |m|) && FixedCount(f) && SIZE_BYTES <= k && p + k < |m|
    ensures DefaultField(f, m, p)[p + k] == m[p + k]
  {
    hide WellFormedField, CellsFor;
  }
}
