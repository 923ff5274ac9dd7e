/** Upper bounds on encoded sizes from the descriptor alone: a table whose bound is below 2^64 never
    needs a length that a size_t cannot hold. */
module SizeBounds {
  import opened Bits
  import opened Wire
  import opened Descriptor
  import opened StructMemory
  import opened Encoding

  /** A varint of at most 64 bits. */
  const MAX_VARINT: nat := 10

  function MaxItem(f: Field): nat
    decreases f, 0
  {
    if f.ltype.Packable() then MAX_VARINT
    else if f.ltype.Submessage? then MAX_VARINT + (if f.ptr.Sub? then MaxFrom(f.ptr.fields, 0) else 0)
    else MAX_VARINT + f.dataSize
  }

  function MaxField(f: Field): nat
    decreases f, 1
  {
    if f.htype.Repeated? then 2 * MAX_VARINT + (MAX_VARINT + MaxItem(f)) * f.arraySize
    else MAX_VARINT + MaxItem(f)
  }

  function MaxFrom(fields: seq<Field>, i: nat): nat
    requires i <= |fields|
    decreases fields, |fields| - i
  {
    if i == |fields| then 0 else MaxField(fields[i]) + MaxFrom(fields, i + 1)
  }

  /** Every length the encoder can meet fits in 64 bits. */
  predicate Bounded(fields: seq<Field>) {
    MaxFrom(fields, 0) < TWO64
  }

  lemma DelimitedBound(b: seq<byte>)
    requires |b| < TWO64
    ensures |Delimited(b)| <= MAX_VARINT + |b|
  {
    VarintBytesAtMostTen(|b|);
  }

  lemma KeyBound(f: Field, wireType: nat)
    requires f.tag <= MAX_TAG && wireType < 8
    ensures |KeyBytes(f.tag, wireType)| <= MAX_VARINT
  {
    VarintBytesAtMostTen(f.tag * 8 + wireType);
  }

  lemma ScalarBound(f: Field, d: seq<byte>)
    requires ItemFor(f, d) && f.ltype.Packable()
    ensures |EncodeScalar(f, d)| <= MAX_VARINT
  {
    if !f.ltype.Fixed32? && !f.ltype.Fixed64? {
      VarintBytesAtMostTen(WireNumber(f, d));
    }
    hide WireNumber, VarintBytes, Number;
  }

  lemma ItemBound(f: Field, d: seq<byte>)
    requires ItemFor(f, d) && MaxItem(f) < TWO64 && EncodeItem(f, d).Some?
    ensures |EncodeItem(f, d).value| <= MaxItem(f)
    decreases f, 0
  {
    if f.ltype.Packable() {
      ScalarBound(f, d);
    } else {
      hide VarintBytes, StringLen, BytesLen;
      match f.ltype
      case Bytes => DelimitedBound(d[SIZE_BYTES..SIZE_BYTES + BytesLen(d)]);
      case String => DelimitedBound(d[..StringLen(d)]);
      case FixedLengthBytes => DelimitedBound(d);
      case Submessage =>
        FromBound(f.ptr.fields, d, 0);
        DelimitedBound(EncodeFrom(f.ptr.fields, d, 0).value);
    }
  }

  lemma RecordBound(f: Field, d: seq<byte>)
    requires ItemFor(f, d) && MaxItem(f) < TWO64 && EncodeRecord(f, d).Some?
    ensures |EncodeRecord(f, d).value| <= MAX_VARINT + MaxItem(f)
    decreases f, 1
  {
    ItemBound(f, d);
    KeyBound(f, WireType(f.ltype));
    hide EncodeItem, MaxItem;
  }

  lemma {:induction false} PackedBound(f: Field, data: seq<byte>, k: nat, count: nat)
    requires WellFormedField(f) && f.ltype.Packable() && |data| == f.dataSize * f.arraySize
    requires k <= count <= f.arraySize
    ensures |PackedFrom(f, data, k, count)| <= MAX_VARINT * (count - k)
    decreases count - k
  {
    if k < count {
      ScalarBound(f, ItemAt(f, data, k));
      PackedBound(f, data, k + 1, count);
    }
  }

  lemma {:induction false} ItemsBound(f: Field, data: seq<byte>, k: nat, count: nat)
    requires WellFormedField(f) && |data| == f.dataSize * f.arraySize && k <= count <= f.arraySize
    requires MaxItem(f) < TWO64 && EncodeItems(f, data, k, count).Some?
    ensures |EncodeItems(f, data, k, count).value| <= (MAX_VARINT + MaxItem(f)) * (count - k)
    decreases f, 2, count - k
  {
    hide EncodeRecord, MaxItem;
    if k < count {
      RecordBound(f, ItemAt(f, data, k));
      ItemsBound(f, data, k + 1, count);
      MulDistribute(MAX_VARINT + MaxItem(f), count - k - 1, 1);
    }
  }

  /** The entries of an array field are bounded if the field is. */
  lemma FieldBoundsItem(f: Field)
    requires MaxField(f) < TWO64 && (f.htype.Repeated? ==> f.arraySize > 0)
    ensures MaxItem(f) < TWO64
  {
    if f.htype.Repeated? {
      MulMono(1, f.arraySize, MAX_VARINT + MaxItem(f));
    }
  }

  lemma PackedFieldBound(f: Field, data: seq<byte>, count: nat)
    requires WellFormedField(f) && f.ltype.Packable() && |data| == f.dataSize * f.arraySize && count <= f.arraySize
    ensures |KeyBytes(f.tag, STRING) + Delimited(PackedFrom(f, data, 0, count))| <= 2 * MAX_VARINT + MAX_VARINT * count
  {
    PackedBound(f, data, 0, count);
    KeyBound(f, STRING);
    DelimitedBound(PackedFrom(f, data, 0, count));
    hide PackedFrom, KeyBytes, WellFormedField;
  }

  lemma ArrayBound(f: Field, data: seq<byte>, count: nat)
    requires WellFormedField(f) && f.htype.Repeated? && |data| == f.dataSize * f.arraySize && MaxField(f) < TWO64
    requires 0 < count <= f.arraySize && EncodeArray(f, data, count).Some?
    ensures |EncodeArray(f, data, count).value| <= MaxField(f)
    decreases f, 3
  {
    FieldBoundsItem(f);
    hide EncodeItems, PackedFrom, MaxItem, Delimited, KeyBytes, WellFormedField;
    var each := MAX_VARINT + MaxItem(f);
    MulMono(count, f.arraySize, each);
    if f.ltype.Packable() {
      PackedFieldBound(f, data, count);
      MulMono(MAX_VARINT, each, count);
    } else {
      ItemsBound(f, data, 0, count);
    }
  }

  lemma SlotBound(f: Field, s: Slot)
    requires SlotFor(f, s) && MaxField(f) < TWO64 && EncodeSlot(f, s).Some?
    ensures |EncodeSlot(f, s).value| <= MaxField(f)
    decreases f, 4
  {
    hide EncodeItems, PackedFrom, MaxItem, VarintBytes, EncodeRecord, WellFormedField, IsDefault;
    if f.htype.Repeated? {
      MulMono(0, f.arraySize, MAX_VARINT + MaxItem(f));
      if CountOf(f, s) > 0 {
        ArrayBound(f, s.data, CountOf(f, s));
      }
    } else if Present(f, s) {
      RecordBound(f, s.data);
    }
  }

  lemma {:induction false} FromBound(fields: seq<Field>, m: Memory, i: nat)
    requires WellFormed(fields, |m|) && i <= |fields| && MaxFrom(fields, i) < TWO64
    requires EncodeFrom(fields, m, i).Some?
    ensures |EncodeFrom(fields, m, i).value| <= MaxFrom(fields, i)
    decreases fields, |fields| - i
  {
    hide GetSlot, EncodeSlot, MaxField, WellFormed;
    if i < |fields| {
      WellFormedSlot(fields, i, m);
      SlotBound(fields[i], GetSlot(fields, i, m));
      FromBound(fields, m, i + 1);
    }
  }

  lemma {:induction false} TableBoundsField(fields: seq<Field>, from: nat, i: nat)
    requires from <= i < |fields|
    ensures MaxField(fields[i]) <= MaxFrom(fields, from)
    decreases |fields| - from
  {
    if from < i {
      TableBoundsField(fields, from + 1, i);
    }
  }
}
