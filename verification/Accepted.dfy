/** One record of one field, accepted: from cells that are ready for it, decoding the encoding of a valid
    item stores the item and its flag, count or tag. */
module Accepted {
  import opened Bits
  import opened Wire
  import opened Descriptor
  import opened StructMemory
  import opened Encoding
  import opened Decoding
  import opened Messages
  import opened Arrivals
  import opened EncodeErrors
  import opened SizeBounds
  import opened ValueRoundTrip
  import opened RoundTrip
  import opened Planted
  import opened Loud

  /** The cells of a field at p before its entry e arrives. */
  ghost predicate Ready(f: Field, p: nat, m: Memory, count: nat, e: nat) {
    && PlacedField(f, p, |m|) && e < Entries(f)
    && (f.htype.Repeated? ==> CursorSlot(m, f, p, count).size == e)
    && (f.htype.Oneof? ==> SlotAt(m, f, p).size != f.tag)
    && (f.ltype.Submessage? && (f.htype.Required? || f.htype.Optional?) ==> Fresh(f.ptr.fields, SlotAt(m, f, p).data))
  }

  /** A field whose records can be decoded in the order they are encoded, and are short enough. */
  ghost predicate Regular(f: Field) {
    WellFormedField(f) && OrdinaryField(f) && ZeroDefault(f) && MaxItem(f) < TWO32
  }

  /** The payload of a record that brings item d. */
  ghost function Payload(f: Field, d: seq<byte>): (s: seq<byte>)
    requires ItemFor(f, d) && ValidItem(f, d)
  {
    ItemEncodes(f, d);
    ValidItemEncodable(f, d);
    EncodeItem(f, d).value
  }

  lemma PayloadShort(f: Field, d: seq<byte>)
    requires Regular(f) && ItemFor(f, d) && ValidItem(f, d)
    ensures EncodeItem(f, d) == Some(Payload(f, d)) && |Payload(f, d)| < TWO32
  {
    hide EncodeItem, ValidItem, WellFormedField, MaxItem;
    ItemEncodes(f, d);
    ValidItemEncodable(f, d);
    ItemBound(f, d);
  }

  /** The cells of a field at p hold item d as entry e, and the flag, count or tag that goes with it. */
  ghost predicate Holding(f: Field, p: nat, m: Memory, e: nat, d: seq<byte>) {
    && CellsFor(f, p, |m|) && e < Entries(f) && ItemFor(f, d)
    && SameItem(f, d, ItemOf(f, SlotAt(m, f, p).data, e))
    && (HasFlag(f) ==> SlotAt(m, f, p).size == 1)
    && (Counted(f) ==> SlotAt(m, f, p).size == e + 1)
    && (f.htype.Oneof? ==> SlotAt(m, f, p).size == f.tag)
  }

  ghost predicate Accepts(f: Field, p: nat, e: nat, d: seq<byte>, r: Result<Cells>) {
    && r.Ok? && r.rest == [] && Holding(f, p, r.value.mem, e, d)
    && (FixedCount(f) ==> r.value.count == e + 1)
  }

  // ---- Below submessages ----

  lemma LeafSlot(f: Field, slot: Slot, e: nat, d: seq<byte>)
    requires Regular(f) && SlotFor(f, slot) && !f.ltype.Submessage? && ItemFor(f, d) && ValidItem(f, d)
    requires e < Entries(f) && (f.htype.Repeated? ==> slot.size == e)
    ensures var r := DecodeSlot(f, slot, WireType(f.ltype), Payload(f, d));
            && r.Ok? && r.rest == [] && SameItem(f, d, ItemOf(f, r.value.data, e))
            && (f.htype.Repeated? ==> r.value.size == e + 1) && (HasFlag(f) ==> r.value.size == 1)
            && (f.htype.Oneof? ==> r.value.size == f.tag)
  {
    PayloadShort(f, d);
    hide DecodeValue, SameItem, ValidItem, WellFormedField, ItemAt, PutItem, Payload, EncodeItem, OrdinaryField,
      ZeroDefault;
    ItemRoundTrip(f, d, Target(f, slot));
    if f.htype.Repeated? {
      ItemPutSame(f, slot.data, e, DecodeValue(f, Target(f, slot), Payload(f, d)).value);
    }
  }

  lemma LeafAccepted(f: Field, p: nat, m: Memory, count: nat, e: nat, d: seq<byte>)
    requires Regular(f) && Ready(f, p, m, count, e) && !f.ltype.Submessage? && ItemFor(f, d) && ValidItem(f, d)
    ensures Accepts(f, p, e, d, DecodeCells(f, m, p, count, WireType(f.ltype), Payload(f, d)))
  {
    hide WellFormedField, FieldReaches, DecodeSlot, CellsFor, PutSlotAt, SlotAt, SameItem, ValidItem, Payload,
      OrdinaryField, ZeroDefault, MaxItem, CursorSlot, ItemAt, LittleEndian, FromLittleEndian;
    PlacedCells(f, p, |m|);
    var slot := CursorSlot(m, f, p, count);
    LeafSlot(f, slot, e, d);
    var t := DecodeSlot(f, slot, WireType(f.ltype), Payload(f, d)).value;
    SlotAtPut(m, f, p, t);
    SentSizes(f, e, t.size);
  }

  lemma SentSizes(f: Field, e: nat, n: nat)
    requires WellFormedField(f) && e < Entries(f)
    requires (Counted(f) ==> n == e + 1) && (HasFlag(f) ==> n == 1) && (f.htype.Oneof? ==> n == f.tag)
    ensures SizeLen(f) > 0 ==> FromLittleEndian(LittleEndian(n, SizeLen(f))) == n
  {
    hide FromLittleEndian, LittleEndian;
    if SizeLen(f) > 0 {
      SizeFitsFacts(f, n);
      FromLittleEndianInverse(n, SizeLen(f));
    }
  }

  // ---- Submessages ----

  lemma SubAccepted(f: Field, p: nat, m: Memory, e: nat, d: seq<byte>, n: nat)
    requires Regular(f) && PlacedField(f, p, |m|) && f.ltype.Submessage? && e < Entries(f)
    requires ItemFor(f, d) && ValidItem(f, d) && Placed(SubAt(f, p, e), |m|) && CellsFor(f, p, |m|)
    requires !f.htype.Repeated? ==> Fresh(f.ptr.fields, View(SubAt(f, p, e), m))
    requires SlotAt(m, f, p).size == n
    requires (Counted(f) ==> n == e + 1) && (HasFlag(f) ==> n == 1) && (f.htype.Oneof? ==> n == f.tag)
    ensures var r := DecodeSubmessage(f, m, p, e, Payload(f, d));
            r.Ok? && r.rest == [] && Holding(f, p, r.value, e, d)
  {
    PayloadShort(f, d);
    OrdinaryTame(f);
    hide PlacedField, WellFormedField, EncodeItem, ValidItem, SameItem, Payload, OrdinaryField, ZeroDefault, MaxItem,
      DecodeSubmessage, SubReceived, Placed, Fresh, View, Spill, CellsFor, SlotAt, TameField, LongBelow, ItemAt;
    SubmessageRoundTrip(f, d, m, p, e);
    var r := DecodeSubmessage(f, m, p, e, Payload(f, d));
    SubSame(f, d, m, p, e, r);
    SizeKept(f, p, m, r.value, e);
    ItemView(f, r.value, p, e);
  }

  /** Entry e of a submessage field, as a struct of its own. */
  lemma ItemView(f: Field, m: Memory, p: nat, e: nat)
    requires PlacedField(f, p, |m|) && CellsFor(f, p, |m|) && f.ltype.Submessage? && e < Entries(f)
    ensures Placed(SubAt(f, p, e), |m|) && CellsAt(f, p, |m|)
    ensures ItemOf(f, SlotAt(m, f, p).data, e) == View(SubAt(f, p, e), m)
  {
    hide PlacedField, View, Placed, ItemAt, FromLittleEndian, SizeLen;
    if f.htype.Repeated? {
      ItemAddr(f, m, p, e);
    } else {
      SubView(f, m, p);
    }
  }

  lemma SingleAccepted(f: Field, p: nat, m: Memory, count: nat, d: seq<byte>)
    requires Regular(f) && Ready(f, p, m, count, 0) && f.ltype.Submessage? && !f.htype.Repeated?
    requires ItemFor(f, d) && ValidItem(f, d)
    ensures Accepts(f, p, 0, d, DecodeCells(f, m, p, count, STRING, Payload(f, d)))
  {
    hide PlacedField, WellFormedField, ValidItem, SameItem, Payload, OrdinaryField, ZeroDefault, MaxItem, Prepared,
      DecodeSubmessage, Placed, Fresh, View, CellsFor, SlotAt, FieldSpill, DecodeSubField, CursorSlot;
    PlacedCells(f, p, |m|);
    PreparedReady(f, m, p);
    NoSize(f, m, p);
    SubAccepted(f, p, Prepared(f, m, p), 0, d, SentSize(f));
    SubFieldSteps(f, m, p, count, Payload(f, d));
  }

  lemma EntryAccepted(f: Field, p: nat, m: Memory, count: nat, e: nat, d: seq<byte>)
    requires Regular(f) && Ready(f, p, m, count, e) && f.ltype.Submessage? && f.htype.Repeated?
    requires ItemFor(f, d) && ValidItem(f, d)
    ensures Accepts(f, p, e, d, DecodeCells(f, m, p, count, STRING, Payload(f, d)))
  {
    hide PlacedField, WellFormedField, ValidItem, SameItem, Payload, OrdinaryField, ZeroDefault, MaxItem, PutSizeAt,
      DecodeSubmessage, Placed, Fresh, View, CellsFor, SlotAt, FieldSpill, CursorSlot, FromLittleEndian, LittleEndian;
    PlacedCells(f, p, |m|);
    PlacedSub(f, p, |m|, e);
    FieldSizes(f);
    ModSmall(e + 1, TWO32);
    SlotAtPutSize(m, f, p, e + 1);
    SentSizes(f, e, e + 1);
    var m1 := PutSizeAt(m, f, p, e + 1);
    SubAccepted(f, p, m1, e, d, SlotAt(m1, f, p).size);
  }

  /** A record that brings a valid item to cells that are ready for it is accepted. */
  lemma RecordAccepted(f: Field, p: nat, m: Memory, count: nat, e: nat, d: seq<byte>)
    requires Regular(f) && Ready(f, p, m, count, e) && ItemFor(f, d) && ValidItem(f, d)
    ensures Accepts(f, p, e, d, DecodeCells(f, m, p, count, WireType(f.ltype), Payload(f, d)))
  {
    hide Regular, Ready, DecodeCells, Payload, ValidItem, Holding;
    if !f.ltype.Submessage? {
      LeafAccepted(f, p, m, count, e, d);
    } else if f.htype.Repeated? {
      EntryAccepted(f, p, m, count, e, d);
    } else {
      SingleOnly(f, p, m, count, e);
      SingleAccepted(f, p, m, count, d);
    }
  }

  lemma SingleOnly(f: Field, p: nat, m: Memory, count: nat, e: nat)
    requires Ready(f, p, m, count, e) && !f.htype.Repeated?
    ensures e == 0
  {
  }

  /** A byte that the item sets is set afterwards. */
  lemma RingsOut(f: Field, p: nat, m: Memory, e: nat, d: seq<byte>, k: nat)
    requires Holding(f, p, m, e, d) && Rings(f, p, e, d, k)
    ensures k < |m| && m[k] != 0
  {
    hide SameItem, WellFormedField, FromLittleEndian, SlotByte, ValidItem, IsDefault, ItemAt;
    SlotByteAt(f, p, m, k);
  }
}
