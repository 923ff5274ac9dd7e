/** pb_decode undoes pb_encode: arrays, then fields, then messages, through submessages of any depth. */
module RoundTrip {
  import opened Bits
  import opened Wire
  import opened Varint32
  import opened Descriptor
  import opened StructMemory
  import opened Encoding
  import opened Decoding
  import opened Locality
  import opened Effects
  import opened Arrivals
  import opened EncodeErrors
  import opened Messages
  import opened ValueRoundTrip
  import opened PartialDecode

  // ---- Submessages ----

  /** Entry e of a submessage field at p received message a, and only bytes past it were cleared. */
  ghost predicate SubReceived(f: Field, a: seq<byte>, m: Memory, p: nat, e: nat, r: Result<Memory>)
    requires PlacedField(f, p, |m|) && f.ltype.Submessage? && e < Entries(f) && ItemFor(f, a)
  {
    PlacedSub(f, p, |m|, e);
    && r.Ok? && r.rest == [] && |r.value| == |m|
    && SameMessage(f.ptr.fields, a, View(SubAt(f, p, e), r.value))
    && Spill(m, r.value, EntryAddr(f, p, e), EntryAddr(f, p, e) + f.dataSize, LongBelow(f))
  }

  lemma SubmessageRoundTrip(f: Field, a: seq<byte>, m: Memory, p: nat, e: nat)
    requires PlacedField(f, p, |m|) && f.ltype.Submessage? && e < Entries(f)
    requires ItemFor(f, a) && ValidItem(f, a) && ZeroDefault(f) && TameField(f)
    requires Placed(SubAt(f, p, e), |m|)
    requires !f.htype.Repeated? ==> Fresh(f.ptr.fields, View(SubAt(f, p, e), m))
    requires EncodeItem(f, a).Some? && |EncodeItem(f, a).value| < TWO32
    ensures SubReceived(f, a, m, p, e, DecodeSubmessage(f, m, p, e, EncodeItem(f, a).value))
    decreases f, 0
  {
    var x := SubAt(f, p, e);
    var b := EncodeFrom(x.fields, a, 0).value;
    TameBelow(f);
    hide EncodeFrom, DecodeNoinit, SetDefaults, Fresh, WellFormed, SameMessage, ValidMessage, ZeroDefaults,
      Substream, VarintBytes, Reaches, View, Spill, LongArrays, SizesFirst, TameField;
    DelimitedRoundTrip(b, []);
    assert Delimited(b) + [] == Delimited(b);
    if f.htype.Repeated? {
      DefaultsFresh(x, m);
      DefaultsSpill(x, m);
      var m1 := SetDefaults(x, m);
      MessageRoundTrip(x, a, m1);
      SpillTrans(m, m1, DecodeNoinit(x, m1, b).value, x.base, x.base + x.size, LongArrays(x.fields));
    } else {
      MessageRoundTrip(x, a, m);
    }
  }

  lemma SubSame(f: Field, a: seq<byte>, m: Memory, p: nat, e: nat, r: Result<Memory>)
    requires PlacedField(f, p, |m|) && f.ltype.Submessage? && e < Entries(f) && ItemFor(f, a)
    requires SubReceived(f, a, m, p, e, r)
    ensures Placed(SubAt(f, p, e), |m|) && r.Ok? && r.rest == [] && |r.value| == |m|
    ensures SameItem(f, a, View(SubAt(f, p, e), r.value))
    ensures Spill(m, r.value, EntryAddr(f, p, e), EntryAddr(f, p, e) + f.dataSize, LongBelow(f))
  {
    hide Placed, PlacedField, View, Spill, LongBelow, SameMessage;
    PlacedSub(f, p, |m|, e);
  }

  // ---- Arrays ----

  /** The data of an unpacked array whose entries spill, if at all, where nothing has arrived yet. */
  ghost predicate ItemsFor(f: Field, a: seq<byte>) {
    && WellFormedField(f) && ZeroDefault(f) && TameField(f) && f.htype.Repeated? && !f.ltype.Packable()
    && |a| == f.dataSize * f.arraySize
  }

  /** The record of entry k of an unpacked array. */
  lemma OneItem(x: Struct, a: seq<byte>, st: State, i: nat, k: nat, tail: seq<byte>) returns (st': State, t: Slot)
    requires StateFor(x, st) && i < |x.fields| && CanEnter(x, st, i)
    requires ItemsFor(x.fields[i], a) && k < x.fields[i].arraySize && ValidItem(x.fields[i], ItemAt(x.fields[i], a, k))
    requires Loaded(x, st, i).size == k && SameItems(x.fields[i], a, Loaded(x, st, i).data, k)
    requires EncodeItem(x.fields[i], ItemAt(x.fields[i], a, k)).Some?
    requires |EncodeItem(x.fields[i], ItemAt(x.fields[i], a, k)).value| < TWO32
    ensures StateFor(x, st') && |st'.mem| == |st.mem| && Arrival(x, st, i, st', t)
    ensures t.size == k + 1 && |t.data| == |a| && SameItems(x.fields[i], a, t.data, k + 1)
    ensures DecodeLoop(x, st, FieldKey(x.fields[i]) + EncodeItem(x.fields[i], ItemAt(x.fields[i], a, k)).value + tail)
         == DecodeLoop(x, st', tail)
    decreases x.fields[i], 3
  {
    hide Placed, WellFormedField, EncodeItem, SameItems, ValidItem, ItemAt, DecodeLoop, Arrival, Loaded, KeyBytes,
      ZeroDefault, TameField, CanEnter;
    if x.fields[i].ltype.Submessage? {
      st', t := OneSubmessage(x, a, st, i, k, tail);
    } else {
      st', t := OneValue(x, a, st, i, k, tail);
    }
  }

  lemma OneValue(x: Struct, a: seq<byte>, st: State, i: nat, k: nat, tail: seq<byte>) returns (st': State, t: Slot)
    requires StateFor(x, st) && i < |x.fields| && CanEnter(x, st, i) && !x.fields[i].ltype.Submessage?
    requires ItemsFor(x.fields[i], a) && k < x.fields[i].arraySize && ValidItem(x.fields[i], ItemAt(x.fields[i], a, k))
    requires Loaded(x, st, i).size == k && SameItems(x.fields[i], a, Loaded(x, st, i).data, k)
    requires EncodeItem(x.fields[i], ItemAt(x.fields[i], a, k)).Some?
    requires |EncodeItem(x.fields[i], ItemAt(x.fields[i], a, k)).value| < TWO32
    ensures StateFor(x, st') && |st'.mem| == |st.mem| && Arrival(x, st, i, st', t)
    ensures t.size == k + 1 && |t.data| == |a| && SameItems(x.fields[i], a, t.data, k + 1)
    ensures DecodeLoop(x, st, FieldKey(x.fields[i]) + EncodeItem(x.fields[i], ItemAt(x.fields[i], a, k)).value + tail)
         == DecodeLoop(x, st', tail)
  {
    var f := x.fields[i];
    hide Placed, WellFormedField, DecodeSlot, EncodeItem, SameItems, ValidItem, ItemAt, DecodeLoop, Effect, Arrival,
      Loaded, KeyBytes, ZeroDefault, TameField, CanEnter, ArrivedFits, ItemDecodes;
    var item := EncodeItem(f, ItemAt(f, a, k)).value;
    var slot := Loaded(x, st, i);
    ItemRoundTrip(f, ItemAt(f, a, k), ItemAt(f, slot.data, k));
    t := ItemStored(f, a, slot, k, item);
    ArrayBounds(f, k + 1);
    st' := RecordStep(x, st, i, WireType(f.ltype), item, tail);
    EffectArrival(x, st, i, st', t);
  }

  /** A value that decodes past the count of its array is stored there. */
  lemma ItemStored(f: Field, a: seq<byte>, slot: Slot, k: nat, item: seq<byte>) returns (t: Slot)
    requires ItemsFor(f, a) && !f.ltype.Submessage? && |slot.data| == |a| && slot.size == k < f.arraySize
    requires SameItems(f, a, slot.data, k) && ItemDecodes(f, ItemAt(f, a, k), ItemAt(f, slot.data, k), item)
    ensures SlotFor(f, slot) && DecodeSlot(f, slot, WireType(f.ltype), item) == Ok(t, [])
    ensures t.size == k + 1 && |t.data| == |a| && SameItems(f, a, t.data, k + 1)
  {
    hide WellFormedField, DecodeValue, SameItem, ItemAt, PutItem, ZeroDefault, TameField, SameItems;
    var d' := DecodeValue(f, ItemAt(f, slot.data, k), item).value;
    t := Slot(k + 1, PutItem(f, slot.data, k, d'));
    SameItemsPut(f, a, slot.data, k, d');
  }

  lemma OneSubmessage(x: Struct, a: seq<byte>, st: State, i: nat, k: nat, tail: seq<byte>)
    returns (st': State, t: Slot)
    requires StateFor(x, st) && i < |x.fields| && CanEnter(x, st, i) && x.fields[i].ltype.Submessage?
    requires ItemsFor(x.fields[i], a) && k < x.fields[i].arraySize && ValidItem(x.fields[i], ItemAt(x.fields[i], a, k))
    requires Loaded(x, st, i).size == k && SameItems(x.fields[i], a, Loaded(x, st, i).data, k)
    requires EncodeItem(x.fields[i], ItemAt(x.fields[i], a, k)).Some?
    requires |EncodeItem(x.fields[i], ItemAt(x.fields[i], a, k)).value| < TWO32
    ensures StateFor(x, st') && |st'.mem| == |st.mem| && Arrival(x, st, i, st', t)
    ensures t.size == k + 1 && |t.data| == |a| && SameItems(x.fields[i], a, t.data, k + 1)
    ensures DecodeLoop(x, st, FieldKey(x.fields[i]) + EncodeItem(x.fields[i], ItemAt(x.fields[i], a, k)).value + tail)
         == DecodeLoop(x, st', tail)
    decreases x.fields[i], 2
  {
    var f, p := x.fields[i], Addr(x, i);
    var count := Enter(x.fields, st, i).fixedSize;
    hide Placed, PlacedField, WellFormedField, EncodeItem, SameItems, ValidItem, ItemAt, DecodeLoop, Arrival, KeyBytes,
      ZeroDefault, TameField, CanEnter, DecodeSubField, CursorSlot, Addr, FieldSpill, Loaded, Enter, LongBelow,
      DataLen, SizeLen, FixedCount;
    PlacedEntry(x, i, |st.mem|);
    LoadedCursor(x, st, i);
    var m;
    m, t := ItemReceived(f, a, st.mem, p, count, k);
    st' := SubArrival(x, st, i, EncodeItem(f, ItemAt(f, a, k)).value, m, t, tail);
  }

  lemma LoadedCursor(x: Struct, st: State, i: nat)
    requires StateFor(x, st) && i < |x.fields| && PlacedField(x.fields[i], Addr(x, i), |st.mem|)
    ensures Loaded(x, st, i) == CursorSlot(st.mem, x.fields[i], Addr(x, i), Enter(x.fields, st, i).fixedSize)
    ensures |Loaded(x, st, i).data| == DataLen(x.fields[i])
  {
    hide Placed, PlacedField, CursorSlot, Addr;
  }

  /** decode_static_field on the encoding of entry k of an array of submessages. */
  lemma ItemReceived(f: Field, a: seq<byte>, m: Memory, p: nat, count: nat, k: nat) returns (m2: Memory, t: Slot)
    requires PlacedField(f, p, |m|) && f.ltype.Submessage? && ItemsFor(f, a) && k < f.arraySize
    requires CursorSlot(m, f, p, count).size == k && SameItems(f, a, CursorSlot(m, f, p, count).data, k)
    requires ValidItem(f, ItemAt(f, a, k)) && EncodeItem(f, ItemAt(f, a, k)).Some?
    requires |EncodeItem(f, ItemAt(f, a, k)).value| < TWO32
    ensures |m2| == |m|
    ensures DecodeSubField(f, m, p, count, EncodeItem(f, ItemAt(f, a, k)).value)
         == Ok(Cells(m2, if FixedCount(f) then k + 1 else count), [])
    ensures CursorSlot(m2, f, p, k + 1) == t && FieldSpill(f, p, m, m2, LongBelow(f))
    ensures t.size == k + 1 && |t.data| == |a| && SameItems(f, a, t.data, k + 1)
    decreases f, 1
  {
    hide PlacedField, WellFormedField, EncodeItem, SameItems, ValidItem, ItemAt, ZeroDefault, TameField,
      DecodeSubmessage, CursorSlot, SubReceived, PutSizeAt, Fresh, View, FieldSpill, CellsFor, LongBelow;
    ArrayBounds(f, k + 1);
    PlacedCells(f, p, |m|);
    PlacedSub(f, p, |m|, k);
    var m1 := PutSizeAt(m, f, p, k + 1);
    SubmessageRoundTrip(f, ItemAt(f, a, k), m1, p, k);
    var r := DecodeSubmessage(f, m1, p, k, EncodeItem(f, ItemAt(f, a, k)).value);
    m2 := r.value;
    t := ItemArrives(f, a, m, p, count, k, r);
    ModSmall(k + 1, TWO32);
  }

  /** Entry k of an array of submessages was received: the earlier entries are as they were. */
  lemma ItemArrives(f: Field, a: seq<byte>, m: Memory, p: nat, count: nat, k: nat, r: Result<Memory>)
    returns (t: Slot)
    requires PlacedField(f, p, |m|) && f.ltype.Submessage? && ItemsFor(f, a) && k < f.arraySize
    requires CellsFor(f, p, |m|) && ArrivedFits(f, k + 1)
    requires CursorSlot(m, f, p, count).size == k && SameItems(f, a, CursorSlot(m, f, p, count).data, k)
    requires SubReceived(f, ItemAt(f, a, k), PutSizeAt(m, f, p, k + 1), p, k, r)
    ensures r.Ok? && r.rest == [] && |r.value| == |m|
    ensures t == CursorSlot(r.value, f, p, k + 1) && t.size == k + 1 && |t.data| == |a|
    ensures SameItems(f, a, t.data, k + 1)
    ensures FieldSpill(f, p, m, r.value, LongBelow(f))
  {
    hide PlacedField, WellFormedField, SubReceived, FieldSpill, PutSizeAt, FromLittleEndian, LittleEndian, LongBelow,
      TameField, ZeroDefault, CellsFor, Spill, View, Read, SameItems, ItemAt, ArrivedFits;
    PlacedCells(f, p, |m|);
    var m1, m2 := PutSizeAt(m, f, p, k + 1), r.value;
    SubSame(f, ItemAt(f, a, k), m1, p, k, r);
    t := CursorSlot(m2, f, p, k + 1);
    SlotAtPutSize(m, f, p, k + 1);
    SizeKept(f, p, m1, m2, k);
    CountStored(f, k + 1);
    SpillOfEntry(f, p, m1, m2, k, LongBelow(f));
    PutSizeSpill(f, p, m, k + 1, m2, LongBelow(f));
    ItemsKept(f, a, m1, p, k, m2);
  }

  lemma ItemsKept(f: Field, a: seq<byte>, m1: Memory, p: nat, k: nat, m2: Memory)
    requires PlacedField(f, p, |m1|) && f.ltype.Submessage? && ItemsFor(f, a) && k < f.arraySize
    requires CellsFor(f, p, |m1|) && |m2| == |m1|
    requires SameItems(f, a, Read(m1, p, DataLen(f)), k)
    requires SubReceived(f, ItemAt(f, a, k), m1, p, k, Ok(m2, []))
    ensures SameItems(f, a, Read(m2, p, DataLen(f)), k + 1)
  {
    hide PlacedField, WellFormedField, SubReceived, TameField, ZeroDefault, SizeLen, Read, ItemAt, SameItem;
    var b, b' := Read(m1, p, DataLen(f)), Read(m2, p, DataLen(f));
    hide CellsFor, DataLen, SameItems;
    forall j | 0 <= j < k
      ensures ItemAt(f, b', j) == ItemAt(f, b, j)
    {
      ItemEarlier(f, ItemAt(f, a, k), m1, p, j, k, m2);
    }
    ItemAddr(f, m2, p, k);
    SubSame(f, ItemAt(f, a, k), m1, p, k, Ok(m2, []));
    SameItemsKept(f, a, b, b', k);
  }

  lemma SameItemsKept(f: Field, a: seq<byte>, b: seq<byte>, b': seq<byte>, k: nat)
    requires WellFormedField(f) && |a| == |b| == |b'| == f.dataSize * f.arraySize && k < f.arraySize
    requires SameItems(f, a, b, k) && SameItem(f, ItemAt(f, a, k), ItemAt(f, b', k))
    requires forall j :: 0 <= j < k ==> ItemAt(f, b', j) == ItemAt(f, b, j)
    ensures SameItems(f, a, b', k + 1)
  {
    hide WellFormedField, SameItem, ItemAt;
  }

  lemma ItemEarlier(f: Field, d: seq<byte>, m1: Memory, p: nat, j: nat, k: nat, m2: Memory)
    requires PlacedField(f, p, |m1|) && f.ltype.Submessage? && f.htype.Repeated? && CellsFor(f, p, |m1|)
    requires j < k < f.arraySize && ItemFor(f, d) && |m2| == |m1| && SubReceived(f, d, m1, p, k, Ok(m2, []))
    ensures p + DataLen(f) <= |m1|
    ensures ItemAt(f, Read(m2, p, DataLen(f)), j) == ItemAt(f, Read(m1, p, DataLen(f)), j)
  {
    hide PlacedField, Placed, SubReceived, LongBelow, CellsAt, Spill, View, Read, ItemAt;
    SubSame(f, d, m1, p, k, Ok(m2, []));
    ItemAddr(f, m1, p, j);
    ItemAddr(f, m2, p, j);
    ItemKept(f, p, m1, m2, j, k);
  }

  lemma CountStored(f: Field, n: nat)
    requires WellFormedField(f) && ArrivedFits(f, n)
    ensures SizeLen(f) > 0 ==> FromLittleEndian(LittleEndian(n, SizeLen(f))) == n
  {
    if SizeLen(f) > 0 {
      FromLittleEndianInverse(n, SizeLen(f));
    }
  }

  /** Entry j of an array of submessages, as a struct of its own. */
  lemma ItemAddr(f: Field, m: Memory, p: nat, j: nat)
    requires PlacedField(f, p, |m|) && CellsFor(f, p, |m|) && f.ltype.Submessage? && f.htype.Repeated?
    requires j < f.arraySize
    ensures Placed(SubAt(f, p, j), |m|) && p + DataLen(f) <= |m|
    ensures ItemAt(f, Read(m, p, DataLen(f)), j) == View(SubAt(f, p, j), m)
  {
    PlacedSub(f, p, |m|, j);
    ItemInside(f, j);
    hide Placed, PlacedField, SizeLen;
    ReadRead(m, p, DataLen(f), f.dataSize * j, f.dataSize);
  }

  lemma ItemKept(f: Field, p: nat, m: Memory, m': Memory, j: nat, k: nat)
    requires PlacedField(f, p, |m|) && f.ltype.Submessage? && j < k < Entries(f)
    requires Placed(SubAt(f, p, j), |m|)
    requires Spill(m, m', EntryAddr(f, p, k), EntryAddr(f, p, k) + f.dataSize, LongBelow(f))
    ensures View(SubAt(f, p, j), m') == View(SubAt(f, p, j), m)
  {
    hide Reaches, WellFormed, LongBelow, View;
    MulMono(j + 1, k, f.dataSize);
    MulDistribute(f.dataSize, j, 1);
    ViewBelow(SubAt(f, p, j), m, m', EntryAddr(f, p, k), EntryAddr(f, p, k) + f.dataSize, LongBelow(f));
  }

  lemma ViewBelow(x: Struct, m: Memory, m': Memory, lo: nat, hi: nat, long: bool)
    requires x.base + x.size <= |m| && x.base + x.size <= lo && Spill(m, m', lo, hi, long)
    ensures View(x, m') == View(x, m)
  {
  }

  /** The records of an unpacked array from entry k on fill the array from entry k on. */
  lemma {:induction false} ItemsRoundTrip(x: Struct, a: seq<byte>, st: State, i: nat, k: nat, count: nat,
                                         tail: seq<byte>)
    returns (st': State, t: Slot)
    requires StateFor(x, st) && i < |x.fields| && CanEnter(x, st, i) && ItemsFor(x.fields[i], a)
    requires k < count <= x.fields[i].arraySize
    requires forall j :: 0 <= j < count ==> ValidItem(x.fields[i], ItemAt(x.fields[i], a, j))
    requires Loaded(x, st, i).size == k && SameItems(x.fields[i], a, Loaded(x, st, i).data, k)
    requires EncodeItems(x.fields[i], a, k, count).Some? && |EncodeItems(x.fields[i], a, k, count).value| < TWO32
    ensures StateFor(x, st') && |st'.mem| == |st.mem| && Arrival(x, st, i, st', t)
    ensures t.size == count && |t.data| == |a| && SameItems(x.fields[i], a, t.data, count)
    ensures DecodeLoop(x, st, EncodeItems(x.fields[i], a, k, count).value + tail) == DecodeLoop(x, st', tail)
    decreases x.fields[i], 4, count - k
  {
    hide Placed, WellFormedField, EncodeItem, SameItems, ValidItem, ItemAt, DecodeLoop, Arrival, Loaded, FieldKey,
      ZeroDefault, TameField, EncodeItems, CanEnter;
    var f := x.fields[i];
    ItemsHead(f, a, k, count, tail);
    var rest := EncodeItems(f, a, k + 1, count).value;
    var st1, t1 := OneItem(x, a, st, i, k, rest + tail);
    if k + 1 == count {
      assert rest + tail == tail by { ItemsTail(f, a, count); }
      st', t := st1, t1;
    } else {
      ArrivalLoaded(x, st, i, st1, t1);
      st', t := ItemsRoundTrip(x, a, st1, i, k + 1, count, tail);
      ArrivalTrans(x, st, i, st1, t1, st', t);
    }
  }

  /** They get as far as any entry e. */
  lemma {:induction false} ItemsUpTo(x: Struct, a: seq<byte>, st: State, i: nat, k: nat, e: nat, count: nat,
                                     tail: seq<byte>) returns (st': State)
    requires StateFor(x, st) && i < |x.fields| && CanEnter(x, st, i) && ItemsFor(x.fields[i], a)
    requires k <= e < count <= x.fields[i].arraySize
    requires forall j :: 0 <= j < count ==> ValidItem(x.fields[i], ItemAt(x.fields[i], a, j))
    requires Loaded(x, st, i).size == k && SameItems(x.fields[i], a, Loaded(x, st, i).data, k)
    requires EncodeItems(x.fields[i], a, k, count).Some? && |EncodeItems(x.fields[i], a, k, count).value| < TWO32
    ensures StateFor(x, st') && |st'.mem| == |st.mem| && CanEnter(x, st', i) && Loaded(x, st', i).size == e
    ensures EncodeItems(x.fields[i], a, e, count).Some? && |EncodeItems(x.fields[i], a, e, count).value| < TWO32
    ensures DecodeLoop(x, st, EncodeItems(x.fields[i], a, k, count).value + tail)
         == DecodeLoop(x, st', EncodeItems(x.fields[i], a, e, count).value + tail)
    decreases e - k
  {
    hide Placed, WellFormedField, EncodeItem, SameItems, ValidItem, ItemAt, DecodeLoop, Arrival, Loaded, FieldKey,
      ZeroDefault, TameField, EncodeItems, CanEnter;
    st' := st;
    if k < e {
      var f := x.fields[i];
      ItemsHead(f, a, k, count, tail);
      var st1, t1 := OneItem(x, a, st, i, k, EncodeItems(f, a, k + 1, count).value + tail);
      ArrivalLoaded(x, st, i, st1, t1);
      st' := ItemsUpTo(x, a, st1, i, k + 1, e, count, tail);
    }
  }

  lemma ItemsHead(f: Field, a: seq<byte>, k: nat, count: nat, tail: seq<byte>)
    requires WellFormedField(f) && |a| == f.dataSize * f.arraySize && k < count <= f.arraySize
    requires EncodeItems(f, a, k, count).Some? && |EncodeItems(f, a, k, count).value| < TWO32
    ensures EncodeItem(f, ItemAt(f, a, k)).Some? && |EncodeItem(f, ItemAt(f, a, k)).value| < TWO32
    ensures EncodeItems(f, a, k + 1, count).Some? && |EncodeItems(f, a, k + 1, count).value| < TWO32
    ensures EncodeItems(f, a, k, count).value + tail
         == FieldKey(f) + EncodeItem(f, ItemAt(f, a, k)).value + (EncodeItems(f, a, k + 1, count).value + tail)
  {
    hide WellFormedField, EncodeItem, ItemAt, FieldKey;
    var head, rest := FieldKey(f) + EncodeItem(f, ItemAt(f, a, k)).value, EncodeItems(f, a, k + 1, count).value;
    assert EncodeItems(f, a, k, count) == Some(head + rest);
    assert head + rest + tail == head + (rest + tail);
  }

  lemma ItemsTail(f: Field, a: seq<byte>, count: nat)
    requires WellFormedField(f) && |a| == f.dataSize * f.arraySize && count <= f.arraySize
    ensures EncodeItems(f, a, count, count) == Some([])
  {
  }

  /** A packed array is one record. */
  lemma PackedRecord(x: Struct, a: seq<byte>, st: State, i: nat, count: nat, tail: seq<byte>)
    returns (st': State, t: Slot)
    requires StateFor(x, st) && i < |x.fields| && CanEnter(x, st, i)
    requires WellFormedField(x.fields[i]) && x.fields[i].htype.Repeated? && x.fields[i].ltype.Packable()
    requires |a| == DataLen(x.fields[i]) && count <= x.fields[i].arraySize
    requires Loaded(x, st, i).size == 0
    requires |PackedFrom(x.fields[i], a, 0, count)| < TWO32
    ensures StateFor(x, st') && |st'.mem| == |st.mem| && Arrival(x, st, i, st', t)
    ensures t.size == count && |t.data| == |a| && SameItems(x.fields[i], a, t.data, count)
    ensures DecodeLoop(x, st, KeyBytes(x.fields[i].tag, STRING)
                              + Delimited(PackedFrom(x.fields[i], a, 0, count)) + tail)
         == DecodeLoop(x, st', tail)
  {
    var f, slot := x.fields[i], Loaded(x, st, i);
    hide Placed, WellFormedField, SameItem, DecodeLoop, Effect, Arrival, Loaded, KeyBytes, PackedFrom,
      PackedLoop, VarintBytes, DecodeVarint32, SkipField, ArrivedFits, CanEnter;
    var b := PackedFrom(f, a, 0, count);
    t := PackedRoundTrip(f, a, slot, count);
    DelimitedRoundTrip(b, []);
    assert Delimited(b) + [] == Delimited(b);
    assert DecodeSlot(f, slot, STRING, Delimited(b)) == Ok(t, []);
    ArrayBounds(f, count);
    st' := RecordStep(x, st, i, STRING, Delimited(b), tail);
    EffectArrival(x, st, i, st', t);
  }

  // ---- Fields ----

  /** The bytes of a present field decode to the same field. */
  lemma SingleRoundTrip(x: Struct, s: Slot, st: State, i: nat, tail: seq<byte>) returns (st': State, t: Slot)
    requires StateFor(x, st) && i < |x.fields| && Awaits(x, st, i)
    requires SlotFor(x.fields[i], s) && ValidSlot(x.fields[i], s)
    requires !x.fields[i].htype.Repeated? && Present(x.fields[i], s)
    requires EncodeSlot(x.fields[i], s).Some? && |EncodeSlot(x.fields[i], s).value| < TWO32
    ensures StateFor(x, st') && |st'.mem| == |st.mem| && Arrival(x, st, i, st', t)
    ensures SlotFor(x.fields[i], t) && SameSlot(x.fields[i], s, t)
    ensures DecodeLoop(x, st, EncodeSlot(x.fields[i], s).value + tail) == DecodeLoop(x, st', tail)
    decreases x.fields[i], 5
  {
    hide Placed, WellFormedField, ValidSlot, EncodeSlot, SameSlot, Present, DecodeLoop, Arrival, Awaits;
    if x.fields[i].ltype.Submessage? {
      st', t := SingleSubmessage(x, s, st, i, tail);
    } else {
      st', t := SingleValue(x, s, st, i, tail);
    }
  }

  lemma SingleValue(x: Struct, s: Slot, st: State, i: nat, tail: seq<byte>) returns (st': State, t: Slot)
    requires StateFor(x, st) && i < |x.fields| && Awaits(x, st, i) && !x.fields[i].ltype.Submessage?
    requires SlotFor(x.fields[i], s) && ValidSlot(x.fields[i], s)
    requires !x.fields[i].htype.Repeated? && Present(x.fields[i], s)
    requires EncodeSlot(x.fields[i], s).Some? && |EncodeSlot(x.fields[i], s).value| < TWO32
    ensures StateFor(x, st') && |st'.mem| == |st.mem| && Arrival(x, st, i, st', t)
    ensures SlotFor(x.fields[i], t) && SameSlot(x.fields[i], s, t)
    ensures DecodeLoop(x, st, EncodeSlot(x.fields[i], s).value + tail) == DecodeLoop(x, st', tail)
  {
    var f, slot := x.fields[i], Loaded(x, st, i);
    var item := EncodeItem(f, s.data).value;
    LoadedFits(x, st, i);
    hide Placed, WellFormedField, DecodeValue, EncodeItem, SameItem, ValidItem, DecodeLoop, Effect, Arrival, Loaded,
      KeyBytes, ZeroDefault, TameField, FreshItem, IsDefault, CanEnter;
    ItemRoundTrip(f, s.data, slot.data);
    SettleFits(f, slot, DecodeValue(f, slot.data, item).value);
    t := Settle(f, slot, DecodeValue(f, slot.data, item).value);
    assert DecodeSlot(f, slot, WireType(f.ltype), item) == Ok(t, []);
    st' := RecordStep(x, st, i, WireType(f.ltype), item, tail);
    EffectArrival(x, st, i, st', t);
  }

  lemma SingleSubmessage(x: Struct, s: Slot, st: State, i: nat, tail: seq<byte>) returns (st': State, t: Slot)
    requires StateFor(x, st) && i < |x.fields| && Awaits(x, st, i) && x.fields[i].ltype.Submessage?
    requires SlotFor(x.fields[i], s) && ValidSlot(x.fields[i], s)
    requires !x.fields[i].htype.Repeated? && Present(x.fields[i], s)
    requires EncodeSlot(x.fields[i], s).Some? && |EncodeSlot(x.fields[i], s).value| < TWO32
    ensures StateFor(x, st') && |st'.mem| == |st.mem| && Arrival(x, st, i, st', t)
    ensures SlotFor(x.fields[i], t) && SameSlot(x.fields[i], s, t)
    ensures DecodeLoop(x, st, EncodeSlot(x.fields[i], s).value + tail) == DecodeLoop(x, st', tail)
    decreases x.fields[i], 2
  {
    var f, p := x.fields[i], Addr(x, i);
    var item := EncodeItem(f, s.data).value;
    hide Placed, PlacedField, WellFormedField, EncodeItem, SameItem, ValidItem, DecodeLoop, Arrival, KeyBytes,
      ZeroDefault, TameField, CanEnter, DecodeSubmessage, SlotAt, SubReceived, PutSizeAt, ResetMember, Addr, Fresh,
      View, FieldSpill, IsDefault, SameSlot;
    PlacedEntry(x, i, |st.mem|);
    PlacedCells(f, p, |st.mem|);
    SingleEncoding(f, s);
    PreparedReady(f, st.mem, p);
    var m1 := Prepared(f, st.mem, p);
    SubmessageRoundTrip(f, s.data, m1, p, 0);
    var r := DecodeSubmessage(f, m1, p, 0, item);
    t := SingleArrives(f, s, st.mem, m1, p, r);
    st' := SubArrival(x, st, i, item, r.value, t, tail);
  }

  lemma SingleEncoding(f: Field, s: Slot)
    requires SlotFor(f, s) && ValidSlot(f, s) && !f.htype.Repeated? && Present(f, s)
    requires EncodeSlot(f, s).Some? && |EncodeSlot(f, s).value| < TWO32
    ensures ItemFor(f, s.data) && ValidItem(f, s.data) && EncodeItem(f, s.data).Some?
    ensures |EncodeItem(f, s.data).value| < TWO32 && EncodeSlot(f, s).value == FieldKey(f) + EncodeItem(f, s.data).value
  {
    hide WellFormedField, ValidItem, EncodeItem, KeyBytes, IsDefault;
  }

  lemma SingleArrives(f: Field, s: Slot, m: Memory, m1: Memory, p: nat, r: Result<Memory>) returns (t: Slot)
    requires PlacedField(f, p, |m|) && |m1| == |m| && f.ltype.Submessage? && !f.htype.Repeated? && TameField(f)
    requires SlotFor(f, s) && Present(f, s) && CellsFor(f, p, |m|)
    requires FieldSpill(f, p, m, m1, LongBelow(f)) && SlotAt(m1, f, p).size == SentSize(f)
    requires ItemFor(f, s.data) && SubReceived(f, s.data, m1, p, 0, r)
    ensures r.Ok? && r.rest == [] && |r.value| == |m|
    ensures t == CursorSlot(r.value, f, p, t.size) && SlotFor(f, t) && SameSlot(f, s, t)
    ensures FieldSpill(f, p, m, r.value, LongBelow(f))
  {
    var m2 := r.value;
    t := SlotAt(m2, f, p);
    SizeKept(f, p, m1, m2, 0);
    SpillOfEntry(f, p, m1, m2, 0, LongBelow(f));
    hide PlacedField, Placed, WellFormedField, SameMessage, LongBelow, TameField, CellsFor, Spill, View,
      IsDefault, SlotAt, InCells;
    SubView(f, m2, p);
    NoSize(f, m1, p);
  }

  lemma LoadedFits(x: Struct, st: State, i: nat)
    requires StateFor(x, st) && i < |x.fields| && !FixedCount(x.fields[i])
    ensures SizeFits(x.fields[i], Loaded(x, st, i).size)
  {
    hide Placed, Addr, PlacedField, FromLittleEndian;
    var f, p := x.fields[i], Addr(x, i);
    PlacedEntry(x, i, |st.mem|);
    PlacedCells(f, p, |st.mem|);
    if SizeLen(f) > 0 {
      LittleEndianBound(Read(st.mem, p + f.sizeOffset, SizeLen(f)));
    }
  }

  lemma SettleFits(f: Field, slot: Slot, d: seq<byte>)
    requires SlotFor(f, slot) && |d| == f.dataSize && !f.htype.Repeated? && SizeFits(f, slot.size)
    ensures SizeFits(f, Settle(f, slot, d).size)
  {
    SizeFitsFacts(f, Settle(f, slot, d).size);
  }

  lemma ArrayRoundTrip(x: Struct, s: Slot, st: State, i: nat, tail: seq<byte>) returns (st': State, t: Slot)
    requires StateFor(x, st) && i < |x.fields| && Awaits(x, st, i)
    requires SlotFor(x.fields[i], s) && ValidSlot(x.fields[i], s)
    requires x.fields[i].htype.Repeated? && Present(x.fields[i], s)
    requires EncodeSlot(x.fields[i], s).Some? && |EncodeSlot(x.fields[i], s).value| < TWO32
    ensures StateFor(x, st') && |st'.mem| == |st.mem| && Arrival(x, st, i, st', t)
    ensures SlotFor(x.fields[i], t) && t.size == CountOf(x.fields[i], s)
    ensures CountOf(x.fields[i], s) <= x.fields[i].arraySize
    ensures SameItems(x.fields[i], s.data, t.data, CountOf(x.fields[i], s))
    ensures DecodeLoop(x, st, EncodeSlot(x.fields[i], s).value + tail) == DecodeLoop(x, st', tail)
    decreases x.fields[i], 5
  {
    var f, count := x.fields[i], CountOf(x.fields[i], s);
    hide Placed, WellFormedField, SameItem, ValidItem, DecodeLoop, Arrival, Loaded, KeyBytes,
      ZeroDefault, TameField, FreshItem, PackedFrom, EncodeItems, VarintBytes, ItemAt, CanEnter;
    if f.ltype.Packable() {
      st', t := PackedRecord(x, s.data, st, i, count, tail);
    } else {
      st', t := ItemsRoundTrip(x, s.data, st, i, 0, count, tail);
    }
  }

  // ---- Messages ----

  /** Decoding the encoding of entries i onwards gets as far as any entry `to` after them. */
  lemma {:induction false} FromRoundTrip(x: Struct, src: Memory, st: State, i: nat, to: nat) returns (st': State)
    requires StateFor(x, st) && |src| == x.size && i <= to <= |x.fields| && Tame(x.fields)
    requires Progress(x, src, st, i) && ValidMessage(x.fields, src) && ZeroDefaults(x.fields)
    requires EncodeFrom(x.fields, src, i).Some? && |EncodeFrom(x.fields, src, i).value| < TWO32
    ensures StateFor(x, st') && |st'.mem| == |st.mem| && Progress(x, src, st', to)
    ensures EncodeFrom(x.fields, src, to).Some? && |EncodeFrom(x.fields, src, to).value| < TWO32
    ensures DecodeLoop(x, st, EncodeFrom(x.fields, src, i).value)
        == DecodeLoop(x, st', EncodeFrom(x.fields, src, to).value)
    ensures Spill(st.mem, st'.mem, x.base, x.base + x.size, LongArrays(x.fields))
    decreases x.fields, to - i
  {
    hide WellFormed, Reaches, GetSlot, Progress, ValidMessage, ValidSlot, WhichValid, ZeroDefaults, EncodeSlot,
      DecodeLoop, Present, SlotFor, LongArrays, Tame, Spill;
    if i == to {
      st' := st;
      SpillNone(st.mem, x.base, x.base + x.size, LongArrays(x.fields));
    } else {
      var f, s := x.fields[i], GetSlot(x.fields, i, src);
      WellFormedSlot(x.fields, i, src);
      var b, rest := EncodeSlot(f, s).value, EncodeFrom(x.fields, src, i + 1).value;
      ValidAt(x.fields, src, i);
      var st1 := st;
      if Present(f, s) {
        st1 := EntryRoundTrip(x, src, st, i, rest);
      } else {
        ProgressSkip(x, src, st, i);
        AbsentEncoding(f, s);
        assert b + rest == rest;
        SpillNone(st.mem, x.base, x.base + x.size, LongArrays(x.fields));
      }
      st' := FromRoundTrip(x, src, st1, i + 1, to);
      SpillTrans(st.mem, st1.mem, st'.mem, x.base, x.base + x.size, LongArrays(x.fields));
    }
  }

  lemma NothingLeft(fields: seq<Field>, src: Memory)
    requires WellFormed(fields, |src|)
    ensures EncodeFrom(fields, src, |fields|) == Some([])
  {
  }

  lemma SpillNone(m: Memory, lo: nat, hi: nat, long: bool)
    ensures Spill(m, m, lo, hi, long)
  {
  }

  lemma EntryRoundTrip(x: Struct, src: Memory, st: State, i: nat, rest: seq<byte>) returns (st1: State)
    requires StateFor(x, st) && |src| == x.size && i < |x.fields| && Tame(x.fields)
    requires Progress(x, src, st, i) && WhichValid(x.fields, src) && ZeroDefaults(x.fields)
    requires SlotFor(x.fields[i], GetSlot(x.fields, i, src)) && Present(x.fields[i], GetSlot(x.fields, i, src))
    requires ValidSlot(x.fields[i], GetSlot(x.fields, i, src))
    requires EncodeSlot(x.fields[i], GetSlot(x.fields, i, src)).Some?
    requires |EncodeSlot(x.fields[i], GetSlot(x.fields, i, src)).value| < TWO32
    ensures StateFor(x, st1) && |st1.mem| == |st.mem| && Progress(x, src, st1, i + 1)
    ensures DecodeLoop(x, st, EncodeSlot(x.fields[i], GetSlot(x.fields, i, src)).value + rest)
        == DecodeLoop(x, st1, rest)
    ensures Spill(st.mem, st1.mem, x.base, x.base + x.size, LongArrays(x.fields))
    decreases x.fields, 0
  {
    hide WellFormed, Reaches, GetSlot, Progress, ZeroDefaults, EncodeSlot, DecodeLoop, Present, SlotFor,
      Arrival, Awaits, SameSlot, SameItems, ValidSlot, Spill, FieldSpill, LongArrays, LongBelow, HoldsCount, Tame,
      TameField, Addr, WhichValid, ZeroDefault, GetSize;
    var f, s := x.fields[i], GetSlot(x.fields, i, src);
    ZeroDefaultAt(x.fields, i);
    TameEntry(x.fields, i);
    ProgressAwaits(x, src, st, i);
    var t;
    if f.htype.Repeated? {
      st1, t := ArrayRoundTrip(x, s, st, i, rest);
      ArraySame(f, s, t);
    } else {
      st1, t := SingleRoundTrip(x, s, st, i, rest);
    }
    PresentOneof(x.fields, src, i, t);
    ProgressStep(x, src, st, i, st1, t);
    ArrivalSpill(x, st, i, st1, t);
    SpillOfField(x, i, st.mem, st1.mem, LongBelow(f), LongArrays(x.fields));
  }

  lemma ValidAt(fields: seq<Field>, src: Memory, i: nat)
    requires WellFormed(fields, |src|) && ValidMessage(fields, src) && i < |fields|
    ensures ValidSlot(fields[i], GetSlot(fields, i, src)) && WhichValid(fields, src)
  {
  }

  lemma ArraySame(f: Field, s: Slot, t: Slot)
    requires SlotFor(f, s) && SlotFor(f, t) && f.htype.Repeated? && t.size == CountOf(f, s) <= f.arraySize
    requires SameItems(f, s.data, t.data, CountOf(f, s))
    ensures SameSlot(f, s, t)
    ensures FixedCount(f) || SizeFits(f, t.size)
    ensures FixedCount(f) ==> t.size == f.arraySize
  {
    ArrayBounds(f, t.size);
  }

  lemma PresentOneof(fields: seq<Field>, src: Memory, i: nat, t: Slot)
    requires WellFormed(fields, |src|) && i < |fields| && SlotFor(fields[i], t)
    requires SlotFor(fields[i], GetSlot(fields, i, src)) && Present(fields[i], GetSlot(fields, i, src))
    requires SameSlot(fields[i], GetSlot(fields, i, src), t)
    ensures fields[i].htype.Oneof? ==> GetSize(fields, i, src) == fields[i].tag == t.size
  {
    hide WellFormed, SameItem;
  }

  lemma AbsentEncoding(f: Field, s: Slot)
    requires SlotFor(f, s) && !Present(f, s)
    ensures EncodeSlot(f, s) == Some([])
  {
  }

  /** Decoding an encoding into a freshly initialised struct gives back the message. */
  lemma MessageRoundTrip(x: Struct, src: Memory, m: Memory)
    requires Placed(x, |m|) && |src| == x.size && Fresh(x.fields, View(x, m)) && Tame(x.fields)
    requires ZeroDefaults(x.fields) && ValidMessage(x.fields, src)
    requires EncodeMessage(x.fields, src).Some? && |EncodeMessage(x.fields, src).value| < TWO32
    ensures DecodeNoinit(x, m, EncodeMessage(x.fields, src).value).Ok?
    ensures DecodeNoinit(x, m, EncodeMessage(x.fields, src).value).rest == []
    ensures SameMessage(x.fields, src, View(x, DecodeNoinit(x, m, EncodeMessage(x.fields, src).value).value))
    ensures Spill(m, DecodeNoinit(x, m, EncodeMessage(x.fields, src).value).value, x.base, x.base + x.size,
                  LongArrays(x.fields))
    decreases x.fields, |x.fields| + 1
  {
    hide WellFormed, Reaches, ValidMessage, ZeroDefaults, DecodeLoop, EncodeFrom, SameMessage, Fresh, Progress,
      AllRequiredSeen, View, Spill, LongArrays, Tame;
    ProgressStart(x, src, m);
    var st := FromRoundTrip(x, src, Start(m), 0, |x.fields|);
    LoopOfNothing(x, st);
    NothingLeft(x.fields, src);
    WhichOfValid(x.fields, src);
    ProgressDone(x, src, st);
  }

  lemma WhichOfValid(fields: seq<Field>, src: Memory)
    requires WellFormed(fields, |src|) && ValidMessage(fields, src)
    ensures WhichValid(fields, src)
  {
  }

  /** The whole-message round trip: a valid message encodes, and if its encoding is shorter than 2^32
      bytes, pb_decode of it succeeds, whatever memory held before, uses all the bytes, and gives back
      the same message. Outside the struct it clears bytes behind it at most, and none if every
      fixed-count array can hold a pb_size_t. */
  lemma DecodeUndoesEncode(x: Struct, src: Memory, m: Memory)
    requires Placed(x, |m|) && |src| == x.size && ZeroDefaults(x.fields) && Tame(x.fields)
    requires ValidMessage(x.fields, src)
    requires EncodeMessage(x.fields, src).Some? ==> |EncodeMessage(x.fields, src).value| < TWO32
    ensures EncodeMessage(x.fields, src).Some?
    ensures Decode(x, m, EncodeMessage(x.fields, src).value).Ok?
    ensures Decode(x, m, EncodeMessage(x.fields, src).value).rest == []
    ensures SameMessage(x.fields, src, View(x, Decode(x, m, EncodeMessage(x.fields, src).value).value))
    ensures Spill(m, Decode(x, m, EncodeMessage(x.fields, src).value).value, x.base, x.base + x.size,
                  LongArrays(x.fields))
  {
    hide WellFormed, Reaches, ValidMessage, ZeroDefaults, DecodeNoinit, SetDefaults, EncodeFrom, SameMessage,
      Fresh, View, Spill, LongArrays, Tame, Encodable;
    ValidEncodable(x.fields, src);
    EncodesExactly(x.fields, src);
    DefaultsFresh(x, m);
    DefaultsSpill(x, m);
    var m1 := SetDefaults(x, m);
    MessageRoundTrip(x, src, m1);
    SpillTrans(m, m1, DecodeNoinit(x, m1, EncodeMessage(x.fields, src).value).value, x.base, x.base + x.size,
               LongArrays(x.fields));
  }
}
