/** A value decodes to what it was encoded from: scalars, strings, bytes and packed arrays. */
module ValueRoundTrip {
  import opened Bits
  import opened Integers
  import opened Wire
  import opened Varint32
  import opened Descriptor
  import opened StructMemory
  import opened Encoding
  import opened Decoding
  import opened Locality
  import opened Packing
  import opened Messages

  // ---- Single values ----

  lemma NumberRoundTrip(f: Field, d: seq<byte>)
    requires ItemFor(f, d)
    ensures LittleEndian(Number(f, d), f.dataSize) == d
  {
    LittleEndianInverse(d);
  }

  lemma WireNumberNarrows(f: Field, d: seq<byte>)
    requires ItemFor(f, d) && (f.ltype.Varint? || f.ltype.Uvarint? || f.ltype.Svarint?)
    ensures Narrow(f, WireNumber(f, d)) == Narrowed(Number(f, d), true)
  {
    NarrowInverse(Number(f, d), f.dataSize);
    hide Number, NarrowVarint, NarrowUvarint, NarrowSvarint, Pattern, ZigZag;
  }

  /** A scalar decodes to the bytes it was encoded from; a bool to the same truth value. */
  lemma ScalarRoundTrip(f: Field, a: seq<byte>, d: seq<byte>, t: seq<byte>)
    requires ItemFor(f, a) && ItemFor(f, d) && f.ltype.Packable()
    ensures DecodeScalar(f, d, EncodeScalar(f, a) + t).Ok?
    ensures DecodeScalar(f, d, EncodeScalar(f, a) + t).rest == t
    ensures SameItem(f, a, DecodeScalar(f, d, EncodeScalar(f, a) + t).value)
    ensures !f.ltype.Bool? ==> DecodeScalar(f, d, EncodeScalar(f, a) + t).value == a
  {
    NumberRoundTrip(f, a);
    if f.ltype.Fixed32? || f.ltype.Fixed64? {
      FixedRoundTrip(f, a, t);
    } else if f.ltype.Bool? {
      Varint32RoundTrip(WireNumber(f, a), t);
      hide DecodeVarint32, VarintBytes;
    } else {
      WireNumberNarrows(f, a);
      VarintRoundTrip(WireNumber(f, a), t);
      hide Number, WireNumber, Narrow, LittleEndian, DecodeVarint, VarintBytes;
    }
  }

  lemma FixedRoundTrip(f: Field, a: seq<byte>, t: seq<byte>)
    requires ItemFor(f, a) && (f.ltype.Fixed32? || f.ltype.Fixed64?)
    ensures (EncodeScalar(f, a) + t)[..f.dataSize] == a && (EncodeScalar(f, a) + t)[f.dataSize..] == t
  {
    NumberRoundTrip(f, a);
    hide LittleEndian, Number;
    SplitAt(a, t);
  }

  lemma BytesRoundTrip(f: Field, a: seq<byte>, d: seq<byte>)
    requires ItemFor(f, a) && ItemFor(f, d) && f.ltype.Bytes? && ValidItem(f, a)
    ensures DecodeBytes(f, d, EncodeItem(f, a).value).Ok?
    ensures DecodeBytes(f, d, EncodeItem(f, a).value).rest == []
    ensures SameItem(f, a, DecodeBytes(f, d, EncodeItem(f, a).value).value)
  {
    hide DecodeBytes, Delimited, LittleEndian, Write;
    var n := BytesLen(a);
    var b := a[SIZE_BYTES..SIZE_BYTES + n];
    BytesDecode(f, d, b);
    BytesStored(d, b);
  }

  lemma BytesDecode(f: Field, d: seq<byte>, b: seq<byte>)
    requires ItemFor(f, d) && f.ltype.Bytes? && |b| + SIZE_BYTES <= f.dataSize
    ensures DecodeBytes(f, d, Delimited(b)) == Ok(Write(Write(d, 0, LittleEndian(|b|, SIZE_BYTES)), SIZE_BYTES, b), [])
  {
    hide DecodeVarint32, Write, LittleEndian, VarintBytes;
    DelimitedRoundTrip(b, []);
    assert Delimited(b) + [] == Delimited(b) && b + [] == b;
    assert b[..|b|] == b && b[|b|..] == [];
  }

  lemma BytesStored(d: seq<byte>, b: seq<byte>)
    requires |b| + SIZE_BYTES <= |d| && |b| < TWO32
    ensures var d2 := Write(Write(d, 0, LittleEndian(|b|, SIZE_BYTES)), SIZE_BYTES, b);
            BytesLen(d2) == |b| && d2[SIZE_BYTES..SIZE_BYTES + |b|] == b
  {
    hide LittleEndian, FromLittleEndian, Write;
    var cell := LittleEndian(|b|, SIZE_BYTES);
    SizeCellHolds(|b|);
    var d1 := Write(d, 0, cell);
    var d2 := Write(d1, SIZE_BYTES, b);
    ReadWriteSame(d1, SIZE_BYTES, b);
    ReadWriteSame(d, 0, cell);
    ReadWriteApart(d1, 0, SIZE_BYTES, SIZE_BYTES, b);
    assert d2[..SIZE_BYTES] == Read(d2, 0, SIZE_BYTES) == cell;
    assert d2[SIZE_BYTES..SIZE_BYTES + |b|] == Read(d2, SIZE_BYTES, |b|);
  }

  lemma SizeCellHolds(n: nat)
    requires n < TWO32
    ensures FromLittleEndian(LittleEndian(n, SIZE_BYTES)) == n
  {
    Pow2Facts();
    FromLittleEndianInverse(n, SIZE_BYTES);
  }

  lemma StringRoundTrip(f: Field, a: seq<byte>, d: seq<byte>)
    requires ItemFor(f, a) && ItemFor(f, d) && f.ltype.String? && ValidItem(f, a)
    ensures DecodeString(f, d, EncodeItem(f, a).value).Ok?
    ensures DecodeString(f, d, EncodeItem(f, a).value).rest == []
    ensures SameItem(f, a, DecodeString(f, d, EncodeItem(f, a).value).value)
  {
    hide DecodeString, Write, Delimited, StringLen;
    var n := StringLen(a);
    var b := a[..n];
    StringDecodes(f, d, b);
    StringStored(d, b);
    var d2 := Write(Write(d, 0, b), n, [0]);
    PrefixNonzero(d2, b);
    StringLenIs(d2, n);
  }

  lemma PrefixNonzero(d: seq<byte>, b: seq<byte>)
    requires |b| <= |d| && d[..|b|] == b && forall k :: 0 <= k < |b| ==> b[k] != 0
    ensures forall k :: 0 <= k < |b| ==> d[k] != 0
  {
    assert forall k :: 0 <= k < |b| ==> d[k] == d[..|b|][k];
  }

  /** A string without a terminator inside its field is encoded, but what is sent is not accepted
      back: a string value makes the round trip if and only if it is terminated. */
  lemma StringRoundTripExact(f: Field, a: seq<byte>, d: seq<byte>)
    requires ItemFor(f, a) && ItemFor(f, d) && f.ltype.String?
    ensures EncodeItem(f, a).Some?
    ensures DecodeValue(f, d, EncodeItem(f, a).value).Ok? <==> StringLen(a) < f.dataSize
  {
    hide DecodeVarint32, Write, VarintBytes, StringLen;
    var b := a[..StringLen(a)];
    if StringLen(a) < f.dataSize {
      StringDecodes(f, d, b);
    } else {
      DelimitedRoundTrip(b, []);
      assert Delimited(b) + [] == Delimited(b);
    }
  }

  lemma StringStored(d: seq<byte>, b: seq<byte>)
    requires |b| < |d|
    ensures Write(Write(d, 0, b), |b|, [0])[..|b|] == b && Write(Write(d, 0, b), |b|, [0])[|b|] == 0
  {
  }

  lemma StringLenIs(d: seq<byte>, n: nat)
    requires n < |d| && d[n] == 0 && forall k :: 0 <= k < n ==> d[k] != 0
    ensures StringLen(d) == n
  {
  }

  lemma StringDecodes(f: Field, d: seq<byte>, b: seq<byte>)
    requires ItemFor(f, d) && f.ltype.String? && |b| < f.dataSize
    ensures DecodeString(f, d, Delimited(b)) == Ok(Write(Write(d, 0, b), |b|, [0]), [])
  {
    hide DecodeVarint32, Write, VarintBytes;
    DelimitedRoundTrip(b, []);
    assert Delimited(b) + [] == Delimited(b) && b + [] == b;
    assert b[..|b|] == b && b[|b|..] == [];
    ModSmall(|b| + 1, TWO32);
  }

  lemma FixedLengthRoundTrip(f: Field, a: seq<byte>, d: seq<byte>)
    requires ItemFor(f, a) && ItemFor(f, d) && f.ltype.FixedLengthBytes?
    ensures DecodeFixedLengthBytes(f, d, Delimited(a)) == Ok(a, [])
  {
    DelimitedRoundTrip(a, []);
    assert Delimited(a) + [] == Delimited(a) && a + [] == a;
    assert a[..|a|] == a && a[|a|..] == [];
    hide DecodeVarint32, Delimited;
  }

  ghost predicate ItemDecodes(f: Field, a: seq<byte>, d: seq<byte>, b: seq<byte>)
    requires ItemFor(f, a) && ItemFor(f, d) && !f.ltype.Submessage?
  {
    var r := DecodeValue(f, d, b);
    r.Ok? && r.rest == [] && SameItem(f, a, r.value)
  }

  lemma ItemRoundTrip(f: Field, a: seq<byte>, d: seq<byte>)
    requires ItemFor(f, a) && ItemFor(f, d) && ValidItem(f, a) && !f.ltype.Submessage?
    requires EncodeItem(f, a).Some? && |EncodeItem(f, a).value| < TWO32
    ensures ItemDecodes(f, a, d, EncodeItem(f, a).value)
  {
    if f.ltype.Packable() {
      ScalarRoundTrip(f, a, d, []);
      assert EncodeScalar(f, a) + [] == EncodeScalar(f, a);
      hide EncodeScalar, DecodeScalar;
    } else {
      match f.ltype
      case Bytes => BytesRoundTrip(f, a, d); hide DecodeBytes, BytesLen, Delimited;
      case String => StringRoundTrip(f, a, d); hide DecodeString, StringLen, Delimited;
      case FixedLengthBytes => FixedLengthRoundTrip(f, a, d); hide DecodeFixedLengthBytes, Delimited;
    }
  }

  // ---- Packed arrays ----

  lemma {:induction false} PackedRoundTrip(f: Field, a: seq<byte>, slot: Slot, count: nat) returns (t: Slot)
    requires SlotFor(f, slot) && f.htype.Repeated? && f.ltype.Packable() && |a| == |slot.data|
    requires slot.size <= count <= f.arraySize && SameItems(f, a, slot.data, slot.size)
    ensures |t.data| == |a| && t.size == count && SameItems(f, a, t.data, count)
    ensures PackedLoop(f, slot, PackedFrom(f, a, slot.size, count)) == Ok(t, [])
    decreases count - slot.size
  {
    var k := slot.size;
    hide EncodeScalar, DecodeScalar, SameItem, WellFormedField, PutItem, ItemAt;
    if k == count {
      t := slot;
    } else {
      var rest := PackedFrom(f, a, k + 1, count);
      ScalarRoundTrip(f, ItemAt(f, a, k), ItemAt(f, slot.data, k), rest);
      var d := DecodeScalar(f, ItemAt(f, slot.data, k), EncodeScalar(f, ItemAt(f, a, k)) + rest).value;
      var slot1 := Slot(k + 1, PutItem(f, slot.data, k, d));
      SameItemsPut(f, a, slot.data, k, d);
      t := PackedRoundTrip(f, a, slot1, count);
      assert EncodeScalar(f, ItemAt(f, a, k)) + rest != [] by {
        EncodedScalarNonempty(f, ItemAt(f, a, k));
      }
    }
  }

  lemma EncodedScalarNonempty(f: Field, a: seq<byte>)
    requires ItemFor(f, a) && f.ltype.Packable()
    ensures EncodeScalar(f, a) != []
  {
  }

  lemma SameItemsPut(f: Field, a: seq<byte>, b: seq<byte>, k: nat, d: seq<byte>)
    requires WellFormedField(f) && |a| == |b| == f.dataSize * f.arraySize && k < f.arraySize && |d| == f.dataSize
    requires SameItems(f, a, b, k) && SameItem(f, ItemAt(f, a, k), d)
    ensures SameItems(f, a, PutItem(f, b, k, d), k + 1)
  {
    hide SameItem, WellFormedField, PutItem, ItemAt;
    forall j | 0 <= j < k + 1
      ensures SameItem(f, ItemAt(f, a, j), ItemAt(f, PutItem(f, b, k, d), j))
    {
      if j == k {
        ItemPutSame(f, b, k, d);
      } else {
        ItemPutOther(f, b, k, d, j);
      }
    }
  }

  /** What the encoder sends for a scalar is an element in the sense of module Packing, so every
      array the encoder writes, and every other way of splitting it, falls under SplittingIrrelevant. */
  lemma EncodedScalarSpells(f: Field, a: seq<byte>) returns (e: Element)
    requires ItemFor(f, a) && f.ltype.Packable()
    ensures Spells(f, e) && e.bytes == EncodeScalar(f, a) && SameItem(f, a, e.value)
  {
    var b := EncodeScalar(f, a);
    ScalarRoundTrip(f, a, a, []);
    assert b + [] == b;
    e := Element(b, DecodeScalar(f, a, b).value);
    forall d: seq<byte> | ItemFor(f, d)
      ensures DecodeScalar(f, d, b) == Ok(e.value, [])
    {
      ScalarOverwrites(f, a, d, b);
    }
    hide DecodeScalar, EncodeScalar;
  }
}
