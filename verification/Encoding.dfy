/** What pb_encode.c writes, as functions from struct memory to bytes. None is an error that does
    not depend on the stream: a count or a bytes size beyond its declared maximum. */
module Encoding {
  import opened Bits
  import opened Integers
  import opened Wire
  import opened Descriptor
  import opened StructMemory

  function Concat(a: Option<seq<byte>>, b: Option<seq<byte>>): Option<seq<byte>> {
    if a.Some? && b.Some? then Some(a.value + b.value) else None
  }

  /** pb_encode_tag_for_field. */
  function WireType(t: LType): nat {
    match t
    case Bool => VARINT
    case Varint => VARINT
    case Uvarint => VARINT
    case Svarint => VARINT
    case Fixed32 => BITS32
    case Fixed64 => BITS64
    case Bytes => STRING
    case String => STRING
    case Submessage => STRING
    case Extension => STRING
    case FixedLengthBytes => STRING
  }

  function FieldKey(f: Field): seq<byte> {
    KeyBytes(f.tag, WireType(f.ltype))
  }

  // ---- Single values ----

  ghost predicate ItemFor(f: Field, d: seq<byte>) {
    WellFormedField(f) && |d| == f.dataSize
  }

  /** The number stored in a value's bytes. */
  function Number(f: Field, d: seq<byte>): (n: nat)
    requires ItemFor(f, d)
    ensures IntWidth(f.dataSize) ==> n < 2 * Half(f.dataSize)
  {
    LittleEndianBound(d);
    WidthFacts();
    FromLittleEndian(d)
  }

  lemma WidthFacts()
    ensures Pow2(8 * 1) == 2 * Half(1) && Pow2(8 * 2) == 2 * Half(2)
    ensures Pow2(8 * 4) == 2 * Half(4) && Pow2(8 * 8) == 2 * Half(8)
  {
    Pow2Facts();
  }

  /** The varint a scalar field sends. */
  function WireNumber(f: Field, d: seq<byte>): (u: nat)
    requires ItemFor(f, d) && f.ltype.Packable() && !f.ltype.Fixed32? && !f.ltype.Fixed64?
    ensures u < TWO64
  {
    match f.ltype
    case Bool => if d[0] != 0 then 1 else 0
    case Varint => Pattern(Signed(Number(f, d), f.dataSize), 8)
    case Uvarint => Number(f, d)
    case Svarint =>
      PatternSigned(Number(f, d), f.dataSize);
      ZigZag(Signed(Number(f, d), f.dataSize))
  }

  function EncodeScalar(f: Field, d: seq<byte>): seq<byte>
    requires ItemFor(f, d) && f.ltype.Packable()
  {
    if f.ltype.Fixed32? || f.ltype.Fixed64? then LittleEndian(Number(f, d), f.dataSize)
    else VarintBytes(WireNumber(f, d))
  }

  /** strnlen. */
  function StringLen(d: seq<byte>): (n: nat)
    ensures n <= |d|
    ensures n < |d| ==> d[n] == 0
    ensures forall k :: 0 <= k < n ==> d[k] != 0
  {
    if d == [] || d[0] == 0 then 0
    else
      var n := StringLen(d[1..]);
      assert forall k :: 1 <= k < n + 1 ==> d[k] == d[1..][k - 1];
      n + 1
  }

  /** The length cell and the contents of a pb_bytes_array_t. */
  function BytesLen(d: seq<byte>): nat
    requires |d| >= SIZE_BYTES
  {
    FromLittleEndian(d[..SIZE_BYTES])
  }

  function EncodeItem(f: Field, d: seq<byte>): Option<seq<byte>>
    requires ItemFor(f, d)
    decreases f, 0
  {
    if f.ltype.Packable() then Some(EncodeScalar(f, d))
    else
      match f.ltype
      case Bytes =>
        var n := BytesLen(d);
        if n + SIZE_BYTES > f.dataSize then None
        else Some(Delimited(d[SIZE_BYTES..SIZE_BYTES + n]))
      case String => Some(Delimited(d[..StringLen(d)]))
      case FixedLengthBytes => Some(Delimited(d))
      case Submessage =>
        match EncodeFrom(f.ptr.fields, d, 0)
        case None => None
        case Some(b) => Some(Delimited(b))
  }

  // ---- Fields ----

  function EncodeRecord(f: Field, d: seq<byte>): Option<seq<byte>>
    requires ItemFor(f, d)
    decreases f, 1
  {
    Concat(Some(FieldKey(f)), EncodeItem(f, d))
  }

  ghost predicate SlotFor(f: Field, s: Slot) {
    WellFormedField(f) && |s.data| == DataLen(f)
  }

  lemma WellFormedSlot(fields: seq<Field>, i: nat, m: Memory)
    requires WellFormed(fields, |m|) && i < |fields|
    ensures SlotFor(fields[i], GetSlot(fields, i, m))
  {
  }

  /** The payload of a packed array: entries k up to count. */
  function PackedFrom(f: Field, data: seq<byte>, k: nat, count: nat): seq<byte>
    requires WellFormedField(f) && f.ltype.Packable() && |data| == f.dataSize * f.arraySize
    requires k <= count <= f.arraySize
    decreases count - k
  {
    if k == count then []
    else EncodeScalar(f, ItemAt(f, data, k)) + PackedFrom(f, data, k + 1, count)
  }

  function EncodeItems(f: Field, data: seq<byte>, k: nat, count: nat): Option<seq<byte>>
    requires WellFormedField(f) && |data| == f.dataSize * f.arraySize && k <= count <= f.arraySize
    decreases f, 2, count - k
  {
    if k == count then Some([])
    else Concat(EncodeRecord(f, ItemAt(f, data, k)), EncodeItems(f, data, k + 1, count))
  }

  /** encode_array: arrays of packable types are always packed. */
  function EncodeArray(f: Field, data: seq<byte>, count: nat): Option<seq<byte>>
    requires WellFormedField(f) && |data| == f.dataSize * f.arraySize
    decreases f, 3
  {
    if count == 0 then Some([])
    else if count > f.arraySize then None
    else if f.ltype.Packable() then
      Some(KeyBytes(f.tag, STRING) + Delimited(PackedFrom(f, data, 0, count)))
    else EncodeItems(f, data, 0, count)
  }

  function CountOf(f: Field, s: Slot): nat {
    if f.sizeOffset != 0 then s.size else f.arraySize
  }

  /** encode_basic_field's decision whether a non-repeated field is sent. */
  predicate Present(f: Field, s: Slot)
    requires SlotFor(f, s)
  {
    match f.htype
    case Required => true
    case Optional => if f.sizeOffset != 0 then s.size != 0 else !IsDefault(f, s)
    case Repeated => CountOf(f, s) != 0
    case Oneof => s.size == f.tag
  }

  function EncodeSlot(f: Field, s: Slot): Option<seq<byte>>
    requires SlotFor(f, s)
    decreases f, 4
  {
    if f.htype.Repeated? then EncodeArray(f, s.data, CountOf(f, s))
    else if Present(f, s) then EncodeRecord(f, s.data)
    else Some([])
  }

  /** Entries i onwards of a message. */
  function EncodeFrom(fields: seq<Field>, m: Memory, i: nat): Option<seq<byte>>
    requires WellFormed(fields, |m|) && i <= |fields|
    decreases fields, |fields| - i
  {
    if i == |fields| then Some([])
    else Concat(EncodeSlot(fields[i], GetSlot(fields, i, m)), EncodeFrom(fields, m, i + 1))
  }

  /** pb_encode. */
  function EncodeMessage(fields: seq<Field>, m: Memory): Option<seq<byte>>
    requires WellFormed(fields, |m|)
  {
    EncodeFrom(fields, m, 0)
  }

  // ---- Proto3 presence ----

  /** pb_check_proto3_default_value. */
  predicate IsDefault(f: Field, s: Slot)
    requires SlotFor(f, s)
    decreases f, 1
  {
    match f.htype
    case Required => false
    case Repeated => f.sizeOffset != 0 && s.size == 0
    case Oneof => s.size == 0
    case Optional =>
      if f.sizeOffset != 0 then s.size == 0
      else
        match f.ltype
        case Bytes => BytesLen(s.data) == 0
        case String => s.data[0] == 0
        case FixedLengthBytes => f.dataSize == 0
        case Submessage => AllDefault(f.ptr.fields, s.data, 0)
        case _ => forall k :: 0 <= k < |s.data| ==> s.data[k] == 0
  }

  predicate AllDefault(fields: seq<Field>, m: Memory, i: nat)
    requires WellFormed(fields, |m|) && i <= |fields|
    decreases fields, |fields| - i
  {
    i == |fields| || (IsDefault(fields[i], GetSlot(fields, i, m)) && AllDefault(fields, m, i + 1))
  }
}
