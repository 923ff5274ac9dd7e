/** Exactly which struct contents pb_encode refuses for reasons other than room in the stream. */
module EncodeErrors {
  import opened Bits
  import opened Descriptor
  import opened StructMemory
  import opened Encoding
  import opened Messages

  ghost predicate EncodableItem(f: Field, d: seq<byte>)
    requires ItemFor(f, d)
    decreases f, 0
  {
    && (f.ltype.Bytes? ==> BytesLen(d) + SIZE_BYTES <= f.dataSize)
    && (f.ltype.Submessage? ==> Encodable(f.ptr.fields, d))
  }

  ghost predicate EncodableSlot(f: Field, s: Slot)
    requires SlotFor(f, s)
    decreases f, 1
  {
    if f.htype.Repeated? then
      && CountOf(f, s) <= f.arraySize
      && forall k :: 0 <= k < CountOf(f, s) ==> EncodableItem(f, ItemAt(f, s.data, k))
    else Present(f, s) ==> EncodableItem(f, s.data)
  }

  /** Every count is within its array and every bytes size within its field, in all that is sent. */
  ghost predicate Encodable(fields: seq<Field>, m: Memory)
    requires WellFormed(fields, |m|)
    decreases fields
  {
    forall i :: 0 <= i < |fields| ==> EncodableSlot(fields[i], GetSlot(fields, i, m))
  }

  lemma ItemEncodes(f: Field, d: seq<byte>)
    requires ItemFor(f, d)
    ensures EncodeItem(f, d).Some? <==> EncodableItem(f, d)
    decreases f, 0
  {
    if f.ltype.Submessage? {
      EncodesExactly(f.ptr.fields, d);
    }
    hide Encodable, EncodeFrom, WellFormed, BytesLen, StringLen, EncodeScalar;
  }

  lemma {:induction false} ItemsEncode(f: Field, data: seq<byte>, k: nat, count: nat)
    requires WellFormedField(f) && |data| == f.dataSize * f.arraySize && k <= count <= f.arraySize
    ensures EncodeItems(f, data, k, count).Some?
       <==> forall j :: k <= j < count ==> EncodableItem(f, ItemAt(f, data, j))
    decreases f, 1, count - k
  {
    hide WellFormedField, EncodeItem, EncodableItem, ItemAt;
    if k < count {
      ItemEncodes(f, ItemAt(f, data, k));
      ItemsEncode(f, data, k + 1, count);
    }
  }

  lemma ScalarsEncodable(f: Field, s: Slot)
    requires SlotFor(f, s) && f.htype.Repeated? && f.ltype.Packable()
    ensures EncodableSlot(f, s) <==> CountOf(f, s) <= f.arraySize
  {
  }

  lemma SlotEncodes(f: Field, s: Slot)
    requires SlotFor(f, s)
    ensures EncodeSlot(f, s).Some? <==> EncodableSlot(f, s)
    decreases f, 2
  {
    if f.htype.Repeated? {
      if f.ltype.Packable() {
        ScalarsEncodable(f, s);
        hide EncodableSlot, PackedFrom;
      } else if 0 < CountOf(f, s) <= f.arraySize {
        ItemsEncode(f, s.data, 0, CountOf(f, s));
        hide EncodeItems, EncodableItem;
      }
    } else if Present(f, s) {
      ItemEncodes(f, s.data);
      hide EncodeItem, EncodableItem, IsDefault;
    }
  }

  lemma {:induction false} FromEncodes(fields: seq<Field>, m: Memory, i: nat)
    requires WellFormed(fields, |m|) && i <= |fields|
    ensures EncodeFrom(fields, m, i).Some?
       <==> forall j :: i <= j < |fields| ==> EncodableSlot(fields[j], GetSlot(fields, j, m))
    decreases fields, |fields| - i
  {
    hide WellFormed, EncodeSlot, EncodableSlot, GetSlot, WellFormedField;
    if i < |fields| {
      WellFormedSlot(fields, i, m);
      SlotEncodes(fields[i], GetSlot(fields, i, m));
      FromEncodes(fields, m, i + 1);
    }
  }

  /** pb_encode on a stream with enough room succeeds if and only if the struct is encodable. */
  lemma EncodesExactly(fields: seq<Field>, m: Memory)
    requires WellFormed(fields, |m|)
    ensures EncodeMessage(fields, m).Some? <==> Encodable(fields, m)
    decreases fields, |fields| + 1
  {
    FromEncodes(fields, m, 0);
    hide WellFormed, EncodeFrom, EncodableSlot, GetSlot;
  }

  lemma ValidItemEncodable(f: Field, d: seq<byte>)
    requires ItemFor(f, d) && ValidItem(f, d)
    ensures EncodableItem(f, d)
    decreases f, 0
  {
    if f.ltype.Submessage? {
      ValidEncodable(f.ptr.fields, d);
    }
    hide ValidMessage, Encodable, WellFormed;
  }

  lemma ValidSlotEncodable(f: Field, s: Slot)
    requires SlotFor(f, s) && ValidSlot(f, s)
    ensures EncodableSlot(f, s)
    decreases f, 1
  {
    hide ValidItem, EncodableItem, WellFormedField, Present;
    if f.htype.Repeated? {
      forall k | 0 <= k < CountOf(f, s)
        ensures EncodableItem(f, ItemAt(f, s.data, k))
      {
        ValidItemEncodable(f, ItemAt(f, s.data, k));
      }
    } else if Present(f, s) {
      ValidItemEncodable(f, s.data);
    }
  }

  /** Every value a message can have is encodable. */
  lemma ValidEncodable(fields: seq<Field>, m: Memory)
    requires WellFormed(fields, |m|) && ValidMessage(fields, m)
    ensures Encodable(fields, m)
    decreases fields
  {
    hide WellFormed, ValidSlot, EncodableSlot, GetSlot, ValidWhich, WellFormedField;
    forall i | 0 <= i < |fields|
      ensures SlotFor(fields[i], GetSlot(fields, i, m)) && EncodableSlot(fields[i], GetSlot(fields, i, m))
    {
      WellFormedSlot(fields, i, m);
      ValidSlotEncodable(fields[i], GetSlot(fields, i, m));
    }
  }
}
