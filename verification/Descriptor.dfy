/** The field descriptor table of pb.h, what a well-formed table is, and where each entry's data and
    size cells lie in the message struct. Configuration: pb_size_t is 32 bits (PB_FIELD_32BIT, which
    the Firestore descriptors demand), pointers are 64 bits. */
module Descriptor {
  import opened Bits
  import opened Integers

  datatype LType =
    | Bool | Varint | Uvarint | Svarint | Fixed32 | Fixed64
    | Bytes | String | Submessage | Extension | FixedLengthBytes
  {
    /** At most PB_LTYPE_LAST_PACKABLE. */
    predicate Packable() {
      Bool? || Varint? || Uvarint? || Svarint? || Fixed32? || Fixed64?
    }
  }

  datatype HType = Required | Optional | Repeated | Oneof

  datatype AType = Static | Pointer | Callback

  datatype Ptr = Null | Default(bytes: seq<byte>) | Sub(fields: seq<Field>)

  /** pb_field_t. A table is the sequence of its entries; the terminating entry is LAST_FIELD. */
  datatype Field = Field(
    tag: nat,
    atype: AType,
    htype: HType,
    ltype: LType,
    dataOffset: nat,
    sizeOffset: int,
    dataSize: nat,
    arraySize: nat,
    ptr: Ptr)

  const LAST_FIELD := Field(0, Static, Required, Bool, 0, 0, 0, 0, Null)

  const SIZE_BYTES: nat := 4
  const PB_SIZE_MAX: nat := 0xFFFF_FFFF
  const POINTER_BYTES: nat := 8
  const MAX_TAG: nat := 0x1FFF_FFFF

  function Entry(fields: seq<Field>, i: nat): Field {
    if i < |fields| then fields[i] else LAST_FIELD
  }

  // ---- Kinds of fields ----

  /** A proto2 optional field with its own has_ flag. */
  predicate HasFlag(f: Field) {
    f.htype.Optional? && f.sizeOffset != 0
  }

  /** A proto3 field: optional without a has_ flag. */
  predicate Implicit(f: Field) {
    f.htype.Optional? && f.sizeOffset == 0
  }

  predicate Counted(f: Field) {
    f.htype.Repeated? && f.sizeOffset != 0
  }

  predicate FixedCount(f: Field) {
    f.htype.Repeated? && f.sizeOffset == 0
  }

  /** Bytes of the has_, _count or which_ cell; 0 if the struct holds none. */
  function SizeLen(f: Field): nat {
    if HasFlag(f) then 1 else if Counted(f) || f.htype.Oneof? then SIZE_BYTES else 0
  }

  /** Bytes of the data cell. */
  function DataLen(f: Field): nat {
    if f.htype.Repeated? then f.dataSize * f.arraySize else f.dataSize
  }

  // ---- Offsets, as a fold over the table ----

  /** The entry continues the union its predecessor belongs to. */
  predicate Continues(prev: Field, f: Field) {
    prev.htype.Oneof? && f.htype.Oneof? && f.dataOffset == PB_SIZE_MAX
  }

  /** Bytes an entry occupies in the struct itself. */
  function StructBytes(f: Field): nat {
    if f.atype.Static? && f.htype.Repeated? then f.dataSize * f.arraySize
    else if f.atype.Pointer? then POINTER_BYTES
    else f.dataSize
  }

  function PData(fields: seq<Field>, i: nat): nat
    requires i < |fields|
  {
    if i == 0 then fields[0].dataOffset
    else if Continues(fields[i - 1], fields[i]) then PData(fields, i - 1)
    else PData(fields, i - 1) + StructBytes(fields[i - 1]) + fields[i].dataOffset
  }

  /** The first entry of the union that entry i belongs to; i itself outside unions. */
  function Leader(fields: seq<Field>, i: nat): (k: nat)
    requires i < |fields|
    ensures k <= i
  {
    if i > 0 && Continues(fields[i - 1], fields[i]) then Leader(fields, i - 1) else i
  }

  function PSize(fields: seq<Field>, i: nat): int
    requires i < |fields|
  {
    PData(fields, i) + fields[Leader(fields, i)].sizeOffset
  }

  /** The number of required entries before entry i. */
  function RequiredBefore(fields: seq<Field>, i: nat): (n: nat)
    requires i <= |fields|
    ensures n <= i
  {
    if i == 0 then 0
    else RequiredBefore(fields, i - 1) + if fields[i - 1].htype.Required? then 1 else 0
  }

  /** The members of one union share their cells. */
  lemma {:induction false} UnionShares(fields: seq<Field>, i: nat)
    requires i < |fields|
    ensures PData(fields, i) == PData(fields, Leader(fields, i))
    ensures Leader(fields, Leader(fields, i)) == Leader(fields, i)
  {
    if i > 0 && Continues(fields[i - 1], fields[i]) {
      UnionShares(fields, i - 1);
    }
  }

  /** Entry m of a table the PB_DATAOFFSET macros built from a struct whose member k starts at
      offs[k]: the first offset, the gap after the previous member, or the union marker. */
  ghost predicate BuiltFrom(fields: seq<Field>, offs: seq<nat>) {
    && |fields| == |offs|
    && (forall k :: 0 <= k < |fields| ==> MacroOffset(fields, offs, k))
  }

  ghost predicate MacroOffset(fields: seq<Field>, offs: seq<nat>, k: nat)
    requires k < |fields| == |offs|
  {
    if k == 0 then fields[0].dataOffset == offs[0]
    else if Continues(fields[k - 1], fields[k]) then offs[k] == offs[k - 1]
    else fields[k].dataOffset == offs[k] - offs[k - 1] - StructBytes(fields[k - 1])
  }

  /** The offsets folded out of such a table are the offsets of the struct members. */
  lemma {:induction false} FoldRecoversOffsets(fields: seq<Field>, offs: seq<nat>, i: nat)
    requires BuiltFrom(fields, offs) && i < |fields|
    ensures PData(fields, i) == offs[i]
  {
    assert MacroOffset(fields, offs, i);
    if i > 0 {
      FoldRecoversOffsets(fields, offs, i - 1);
    }
  }

  /** Their size offsets are relative to the data, and those of one union lead to one which_ cell: folding
      them gives back the offsets of the has_, _count and which_ members. */
  lemma FoldRecoversSizes(fields: seq<Field>, offs: seq<nat>, sizeOffs: seq<nat>, i: nat)
    requires BuiltFrom(fields, offs) && |sizeOffs| == |offs| && i < |fields|
    requires forall k :: 0 <= k < |fields| ==> fields[k].sizeOffset + offs[k] == sizeOffs[k]
    requires sizeOffs[Leader(fields, i)] == sizeOffs[i]
    ensures PSize(fields, i) == sizeOffs[i]
  {
    var k := Leader(fields, i);
    FoldRecoversOffsets(fields, offs, i);
    FoldRecoversOffsets(fields, offs, k);
    UnionShares(fields, i);
  }

  // ---- Well-formed tables ----

  ghost predicate ScalarSize(f: Field) {
    match f.ltype
    case Bool => f.dataSize == 1
    case Varint => IntWidth(f.dataSize)
    case Uvarint => IntWidth(f.dataSize)
    case Svarint => IntWidth(f.dataSize)
    case Fixed32 => f.dataSize == 4
    case Fixed64 => f.dataSize == 8
    case Bytes => f.dataSize >= SIZE_BYTES
    case String => f.dataSize >= 1
    case Submessage => true
    case Extension => false
    case FixedLengthBytes => true
  }

  /** One entry on its own: static, sized for its type, with a pointer that matches. A fixed-count
      array, like any C array, is not empty. */
  ghost predicate WellFormedField(f: Field)
    decreases f
  {
    && 0 < f.tag <= MAX_TAG
    && f.atype.Static?
    && ScalarSize(f)
    && f.dataSize <= PB_SIZE_MAX && f.arraySize <= PB_SIZE_MAX
    && (f.htype.Oneof? ==> f.sizeOffset != 0)
    && (FixedCount(f) ==> DataLen(f) > 0)
    && (f.ltype.Submessage? ==> f.ptr.Sub? && WellFormed(f.ptr.fields, f.dataSize))
    && (!f.ltype.Submessage? ==> !f.ptr.Sub? && (f.ptr.Default? ==> |f.ptr.bytes| == f.dataSize))
  }

  /** Two byte ranges with no byte in common. */
  predicate Apart(lo: int, len: nat, lo': int, len': nat) {
    len == 0 || len' == 0 || lo + len <= lo' || lo' + len' <= lo
  }

  ghost predicate CellsInside(fields: seq<Field>, i: nat, size: nat)
    requires i < |fields|
  {
    && PData(fields, i) + DataLen(fields[i]) <= size
    && (SizeLen(fields[i]) > 0 ==> 0 <= PSize(fields, i) && PSize(fields, i) + SizeLen(fields[i]) <= size)
    && Apart(PData(fields, i), DataLen(fields[i]), PSize(fields, i), SizeLen(fields[i]))
    && fields[i].sizeOffset == fields[Leader(fields, i)].sizeOffset
  }

  ghost predicate CellsApart(fields: seq<Field>, i: nat, j: nat)
    requires i < |fields| && j < |fields|
  {
    && Apart(PData(fields, i), DataLen(fields[i]), PData(fields, j), DataLen(fields[j]))
    && Apart(PData(fields, i), DataLen(fields[i]), PSize(fields, j), SizeLen(fields[j]))
    && Apart(PSize(fields, i), SizeLen(fields[i]), PSize(fields, j), SizeLen(fields[j]))
  }

  /** A table for structs of `size` bytes, as the generator emits them. */
  ghost predicate WellFormed(fields: seq<Field>, size: nat)
    decreases fields
  {
    && (fields == [] ==> size >= 1)
    && (forall i :: 0 <= i < |fields| ==> WellFormedField(fields[i]))
    && (forall i :: 0 <= i < |fields| ==> CellsInside(fields, i, size))
    && (forall i, j :: 0 <= i < |fields| && 0 <= j < |fields| && Leader(fields, i) != Leader(fields, j)
          ==> CellsApart(fields, i, j))
    && DistinctTags(fields)
  }

  ghost predicate DistinctTags(fields: seq<Field>) {
    forall i, j :: 0 <= i < j < |fields| ==> fields[i].tag != fields[j].tag
  }

  // ---- Fixed-count arrays and their defaults ----

  /** pb_field_set_to_default stores a zero pb_size_t at the start of a fixed-count array, which has no
      count cell. This array is long enough to hold it. */
  predicate HoldsCount(f: Field) {
    FixedCount(f) ==> DataLen(f) >= SIZE_BYTES
  }

  /** So are all fixed-count arrays in the table and in the submessages below it. */
  ghost predicate LongArrays(fields: seq<Field>)
    decreases fields
  {
    forall i :: 0 <= i < |fields| ==> HoldsCount(fields[i]) && LongBelow(fields[i])
  }

  /** So are all fixed-count arrays in the submessages below one entry. */
  ghost predicate LongBelow(f: Field)
    decreases f
  {
    f.ltype.Submessage? && f.ptr.Sub? ==> LongArrays(f.ptr.fields)
  }

  /** The generator declares has_, _count and which_ cells before the data they describe, in the
      submessages below too. */
  ghost predicate SizesFirst(fields: seq<Field>)
    decreases fields
  {
    forall i :: 0 <= i < |fields| ==> SizeFirst(fields[i]) && SizesFirstBelow(fields[i])
  }

  predicate SizeFirst(f: Field) {
    SizeLen(f) > 0 ==> f.sizeOffset + SizeLen(f) <= 0
  }

  ghost predicate SizesFirstBelow(f: Field)
    decreases f
  {
    f.ltype.Submessage? && f.ptr.Sub? ==> SizesFirst(f.ptr.fields)
  }

  /** What a short fixed-count array overruns has not been decoded yet when records arrive in the order
      of the table. */
  ghost predicate Tame(fields: seq<Field>) {
    LongArrays(fields) || SizesFirst(fields)
  }

  ghost predicate TameField(f: Field) {
    LongBelow(f) || (SizeFirst(f) && SizesFirstBelow(f))
  }

  lemma TameEntry(fields: seq<Field>, i: nat)
    requires Tame(fields) && i < |fields|
    ensures TameField(fields[i])
    ensures LongArrays(fields) ==> HoldsCount(fields[i]) && LongBelow(fields[i])
    ensures !LongArrays(fields) ==> forall j :: 0 <= j < |fields| ==> SizeFirst(fields[j])
  {
  }

  lemma TameBelow(f: Field)
    requires TameField(f) && f.ltype.Submessage? && f.ptr.Sub?
    ensures Tame(f.ptr.fields) && (LongArrays(f.ptr.fields) <==> LongBelow(f))
  {
  }

  lemma {:induction false} PDataOrder(fields: seq<Field>, j: nat, i: nat)
    requires j <= i < |fields|
    ensures PData(fields, j) <= PData(fields, i)
  {
    if j < i {
      PDataOrder(fields, j, i - 1);
    }
  }

  // ---- Looking a tag up ----

  predicate Matches(f: Field, tag: nat) {
    f.tag == tag && !f.ltype.Extension?
  }

  /** The first entry with this tag from entry i on, or |fields|. */
  function IndexFrom(fields: seq<Field>, tag: nat, i: nat): (k: nat)
    requires i <= |fields|
    ensures i <= k <= |fields|
    ensures k < |fields| ==> Matches(fields[k], tag)
    ensures forall j :: i <= j < k ==> !Matches(fields[j], tag)
    decreases |fields| - i
  {
    if i == |fields| || Matches(fields[i], tag) then i else IndexFrom(fields, tag, i + 1)
  }

  function IndexOf(fields: seq<Field>, tag: nat): (k: nat)
    ensures k <= |fields|
    ensures k < |fields| ==> Matches(fields[k], tag)
    ensures forall j :: 0 <= j < k ==> !Matches(fields[j], tag)
  {
    IndexFrom(fields, tag, 0)
  }

  lemma IndexOfTag(fields: seq<Field>, i: nat)
    requires i < |fields| && DistinctTags(fields) && !fields[i].ltype.Extension?
    ensures IndexOf(fields, fields[i].tag) == i
  {
    assert Matches(fields[i], fields[i].tag);
  }

  lemma FieldOf(fields: seq<Field>, size: nat, i: nat)
    requires WellFormed(fields, size) && i < |fields|
    ensures WellFormedField(fields[i])
  {
  }

  lemma FieldIndex(fields: seq<Field>, size: nat, i: nat)
    requires WellFormed(fields, size) && i < |fields|
    ensures fields[i].tag > 0 && IndexOf(fields, fields[i].tag) == i
  {
    IndexOfTag(fields, i);
  }

  lemma TagsNonzero(fields: seq<Field>, size: nat)
    requires WellFormed(fields, size)
    ensures forall k :: 0 <= k < |fields| ==> fields[k].tag != 0
  {
  }

  lemma FieldSizes(f: Field)
    requires WellFormedField(f)
    ensures f.arraySize <= PB_SIZE_MAX && f.dataSize <= PB_SIZE_MAX
  {
  }
}
