/** What the encoder sends, told without the encoder's own functions: which numbers, wire types and
    lengths a reader of the wire format finds, which fields it finds, and in which order. */
module SentBytes {
  import opened Bits
  import opened Integers
  import opened Wire
  import opened Varint32
  import opened Descriptor
  import opened StructMemory
  import opened Encoding
  import opened Messages
  import opened PartialDecode

  // ---- Keys ----

  /** A field's key reads as its tag and the wire type of its type: 0 for a varint, 1 for eight bytes, 5
      for four bytes, 2 for what has a length. */
  lemma KeyReads(f: Field, t: seq<byte>)
    requires WellFormedField(f)
    ensures DecodeVarint(FieldKey(f) + t).Got? && DecodeVarint(FieldKey(f) + t).rest == t
    ensures DecodeVarint(FieldKey(f) + t).value / 8 == f.tag
    ensures f.ltype.Bool? || f.ltype.Varint? || f.ltype.Uvarint? || f.ltype.Svarint?
        ==> DecodeVarint(FieldKey(f) + t).value % 8 == 0
    ensures f.ltype.Fixed64? ==> DecodeVarint(FieldKey(f) + t).value % 8 == 1
    ensures f.ltype.Fixed32? ==> DecodeVarint(FieldKey(f) + t).value % 8 == 5
    ensures f.ltype.Bytes? || f.ltype.String? || f.ltype.Submessage? || f.ltype.FixedLengthBytes?
        ==> DecodeVarint(FieldKey(f) + t).value % 8 == 2
  {
    VarintRoundTrip(f.tag * 8 + WireType(f.ltype), t);
    hide VarintBytes, DecodeVarint;
  }

  // ---- Numbers ----

  /** The number a varint field holds is the number a 64-bit reader finds: a signed one modulo 2^64, a
      zig-zag one folded, a bool as 0 or 1. */
  lemma NumberSent(f: Field, d: seq<byte>, t: seq<byte>)
    requires ItemFor(f, d) && (f.ltype.Varint? || f.ltype.Uvarint? || f.ltype.Svarint? || f.ltype.Bool?)
    ensures EncodeItem(f, d).Some?
    ensures f.ltype.Varint?
        ==> var x := Signed(FromLittleEndian(d), f.dataSize);
            DecodeVarint(EncodeItem(f, d).value + t) == Got(if x >= 0 then x else x + TWO64, t)
    ensures f.ltype.Uvarint? ==> DecodeVarint(EncodeItem(f, d).value + t) == Got(FromLittleEndian(d), t)
    ensures f.ltype.Svarint?
        ==> var x := Signed(FromLittleEndian(d), f.dataSize);
            DecodeVarint(EncodeItem(f, d).value + t) == Got(if x >= 0 then 2 * x else -2 * x - 1, t)
    ensures f.ltype.Bool? ==> DecodeVarint(EncodeItem(f, d).value + t) == Got(if d[0] != 0 then 1 else 0, t)
  {
    VarintRoundTrip(WireNumber(f, d), t);
    hide VarintBytes, DecodeVarint;
    if f.ltype.Varint? || f.ltype.Svarint? {
      var x := Signed(Number(f, d), f.dataSize);
      PatternSigned(Number(f, d), f.dataSize);
      EuclidUnique(x, TWO64, if x >= 0 then 0 else -1, if x >= 0 then x else x + TWO64);
      ZigZagValue(x);
      hide ZigZag;
    }
  }

  /** A number is sent in the same bytes whatever the width of the field that holds it. */
  lemma WidthInvisible(f: Field, d: seq<byte>, g: Field, e: seq<byte>)
    requires ItemFor(f, d) && ItemFor(g, e) && f.ltype == g.ltype
    requires f.ltype.Varint? || f.ltype.Uvarint? || f.ltype.Svarint?
    requires if f.ltype.Uvarint? then FromLittleEndian(d) == FromLittleEndian(e)
             else Signed(FromLittleEndian(d), f.dataSize) == Signed(FromLittleEndian(e), g.dataSize)
    ensures EncodeItem(f, d) == EncodeItem(g, e)
  {
    NumberSent(f, d, []);
    NumberSent(g, e, []);
    VarintRoundTrip(WireNumber(f, d), []);
    VarintRoundTrip(WireNumber(g, e), []);
    hide VarintBytes, DecodeVarint, WireNumber;
  }

  /** Fixed-size values are sent as they lie in memory. */
  lemma FixedSent(f: Field, d: seq<byte>)
    requires ItemFor(f, d) && (f.ltype.Fixed32? || f.ltype.Fixed64?)
    ensures EncodeItem(f, d) == Some(d) && |d| == if f.ltype.Fixed32? then 4 else 8
  {
    LittleEndianInverse(d);
  }

  // ---- Strings, bytes and submessages ----

  lemma StringSent(f: Field, d: seq<byte>, n: nat, t: seq<byte>)
    requires ItemFor(f, d) && f.ltype.String? && n <= |d|
    requires (n < |d| ==> d[n] == 0) && forall k :: 0 <= k < n ==> d[k] != 0
    ensures EncodeItem(f, d).Some? && Substream(EncodeItem(f, d).value + t) == Got(d[..n], t)
  {
    assert StringLen(d) == n;
    DelimitedRoundTrip(d[..n], t);
  }

  lemma BytesSent(f: Field, d: seq<byte>, t: seq<byte>)
    requires ItemFor(f, d) && f.ltype.Bytes?
    ensures var n := FromLittleEndian(d[..4]);
            if 4 + n <= |d|
            then EncodeItem(f, d).Some? && Substream(EncodeItem(f, d).value + t) == Got(d[4..4 + n], t)
            else EncodeItem(f, d) == None
  {
    var n := FromLittleEndian(d[..4]);
    if 4 + n <= |d| {
      DelimitedRoundTrip(d[4..4 + n], t);
    }
  }

  lemma FixedLengthBytesSent(f: Field, d: seq<byte>, t: seq<byte>)
    requires ItemFor(f, d) && f.ltype.FixedLengthBytes?
    ensures EncodeItem(f, d).Some? && Substream(EncodeItem(f, d).value + t) == Got(d, t)
  {
    DelimitedRoundTrip(d, t);
  }

  lemma SubmessageSent(f: Field, d: seq<byte>, t: seq<byte>)
    requires ItemFor(f, d) && f.ltype.Submessage?
    ensures var b := EncodeMessage(f.ptr.fields, d);
            && (EncodeItem(f, d).Some? <==> b.Some?)
            && (b.Some? && |b.value| < TWO32 ==> Substream(EncodeItem(f, d).value + t) == Got(b.value, t))
  {
    var b := EncodeMessage(f.ptr.fields, d);
    if b.Some? && |b.value| < TWO32 {
      DelimitedRoundTrip(b.value, t);
    }
    hide Substream, Delimited, EncodeFrom;
  }

  // ---- Arrays ----

  /** What the entries of an array are sent as, one after the other, where all can be sent. */
  function Items(f: Field, data: seq<byte>, n: nat): (ss: seq<Option<seq<byte>>>)
    requires WellFormedField(f) && |data| == f.dataSize * f.arraySize && n <= f.arraySize
    ensures |ss| == n && forall k :: 0 <= k < n ==> ss[k] == EncodeItem(f, ItemAt(f, data, k))
  {
    if n == 0 then [] else Items(f, data, n - 1) + [EncodeItem(f, ItemAt(f, data, n - 1))]
  }

  function Joined(ss: seq<Option<seq<byte>>>): (r: Option<seq<byte>>) {
    if ss == [] then Some([])
    else if ss[0].Some? && Joined(ss[1..]).Some? then Some(ss[0].value + Joined(ss[1..]).value) else None
  }

  lemma {:induction false} PackedIsJoined(f: Field, data: seq<byte>, k: nat, n: nat)
    requires WellFormedField(f) && f.ltype.Packable() && |data| == f.dataSize * f.arraySize && k <= n <= f.arraySize
    ensures Joined(Items(f, data, n)[k..]) == Some(PackedFrom(f, data, k, n))
    decreases n - k
  {
    hide EncodeScalar, ItemAt, WellFormedField;
    if k < n {
      PackedIsJoined(f, data, k + 1, n);
      assert Items(f, data, n)[k..][0] == Items(f, data, n)[k];
      assert Items(f, data, n)[k..][1..] == Items(f, data, n)[k + 1..];
    }
  }

  /** The number of entries of an array, from its count cell if it has one. */
  function EntryCount(f: Field, s: Slot): nat {
    if f.sizeOffset == 0 then f.arraySize else s.size
  }

  /** An array of scalars is one record: its key says that a length follows, whatever the scalar type,
      and the payload is the entries in order. */
  lemma ArraySentPacked(f: Field, s: Slot, t: seq<byte>)
    requires SlotFor(f, s) && f.htype.Repeated? && f.ltype.Packable() && 0 < EntryCount(f, s) <= f.arraySize
    ensures Joined(Items(f, s.data, EntryCount(f, s))).Some? && EncodeSlot(f, s).Some?
    ensures var payload := Joined(Items(f, s.data, EntryCount(f, s))).value;
            && DecodeVarint(EncodeSlot(f, s).value + t).Got?
            && DecodeVarint(EncodeSlot(f, s).value + t).value == f.tag * 8 + 2
            && (|payload| < TWO32 ==> Substream(DecodeVarint(EncodeSlot(f, s).value + t).rest) == Got(payload, t))
  {
    hide PackedFrom, Items, Joined, VarintBytes, DecodeVarint, Substream, EncodeSlot, Delimited, WellFormedField;
    PackedSlot(f, s);
    var payload := PackedFrom(f, s.data, 0, EntryCount(f, s));
    var rest := Delimited(payload) + t;
    VarintRoundTrip(f.tag * 8 + 2, rest);
    assert EncodeSlot(f, s).value + t == VarintBytes(f.tag * 8 + 2) + rest;
    if |payload| < TWO32 {
      DelimitedRoundTrip(payload, t);
    }
  }

  lemma PackedSlot(f: Field, s: Slot)
    requires SlotFor(f, s) && f.htype.Repeated? && f.ltype.Packable() && 0 < EntryCount(f, s) <= f.arraySize
    ensures 0 < f.tag <= 0x1FFF_FFFF
    ensures Joined(Items(f, s.data, EntryCount(f, s))) == Some(PackedFrom(f, s.data, 0, EntryCount(f, s)))
    ensures EncodeSlot(f, s) == Some(VarintBytes(f.tag * 8 + 2) + Delimited(PackedFrom(f, s.data, 0, EntryCount(f, s))))
  {
    var n := EntryCount(f, s);
    PackedIsJoined(f, s.data, 0, n);
    assert Items(f, s.data, n)[0..] == Items(f, s.data, n);
    hide PackedFrom, Items, Joined, VarintBytes, Delimited;
  }

  /** A record of each of the first n entries. */
  function EntryRecords(f: Field, data: seq<byte>, n: nat): (ss: seq<Option<seq<byte>>>)
    requires WellFormedField(f) && |data| == f.dataSize * f.arraySize && n <= f.arraySize
    ensures |ss| == n
    ensures forall k :: 0 <= k < n ==> ss[k] == Concat(Some(FieldKey(f)), EncodeItem(f, ItemAt(f, data, k)))
  {
    if n == 0 then []
    else EntryRecords(f, data, n - 1) + [Concat(Some(FieldKey(f)), EncodeItem(f, ItemAt(f, data, n - 1)))]
  }

  lemma {:induction false} ItemsAreJoined(f: Field, data: seq<byte>, k: nat, n: nat)
    requires WellFormedField(f) && |data| == f.dataSize * f.arraySize && k <= n <= f.arraySize
    ensures Joined(EntryRecords(f, data, n)[k..]) == EncodeItems(f, data, k, n)
    decreases n - k
  {
    hide EncodeItem, ItemAt, WellFormedField, FieldKey;
    if k < n {
      ItemsAreJoined(f, data, k + 1, n);
      assert EntryRecords(f, data, n)[k..][0] == EntryRecords(f, data, n)[k];
      assert EntryRecords(f, data, n)[k..][1..] == EntryRecords(f, data, n)[k + 1..];
    }
  }

  /** Of any other array each entry is a record of its own. */
  lemma ArraySentUnpacked(f: Field, s: Slot)
    requires SlotFor(f, s) && f.htype.Repeated? && !f.ltype.Packable() && EntryCount(f, s) <= f.arraySize
    ensures EncodeSlot(f, s) == Joined(EntryRecords(f, s.data, EntryCount(f, s)))
  {
    var n := EntryCount(f, s);
    ItemsAreJoined(f, s.data, 0, n);
    assert EntryRecords(f, s.data, n)[0..] == EntryRecords(f, s.data, n);
    hide EncodeItems, EntryRecords;
    if n == 0 {
      NoneJoined(EntryRecords(f, s.data, n));
    }
  }

  lemma NoneJoined(ss: seq<Option<seq<byte>>>)
    requires ss == []
    ensures Joined(ss) == Some([])
  {
  }

  /** An empty array is not sent, and one beyond its size cannot be. */
  lemma ArrayLimits(f: Field, s: Slot)
    requires SlotFor(f, s) && f.htype.Repeated?
    ensures EntryCount(f, s) == 0 ==> EncodeSlot(f, s) == Some([])
    ensures EntryCount(f, s) > f.arraySize ==> EncodeSlot(f, s) == None
    ensures 0 < EntryCount(f, s) <= f.arraySize ==> EncodeSlot(f, s) != Some([])
  {
    if 0 < EntryCount(f, s) <= f.arraySize {
      if f.ltype.Packable() {
        ArraySentPacked(f, s, []);
      }
      hide PackedFrom, EncodeItems, Items, Joined, WellFormedField;
      if !f.ltype.Packable() {
        FirstSent(f, s.data, CountOf(f, s));
      }
    }
  }

  lemma FirstSent(f: Field, data: seq<byte>, n: nat)
    requires WellFormedField(f) && |data| == f.dataSize * f.arraySize && 0 < n <= f.arraySize
    ensures EncodeItems(f, data, 0, n) != Some([])
  {
    hide ItemAt, EncodeItem, WellFormedField;
  }

  // ---- Which fields are sent ----

  /** A single value that is sent is sent as one record. */
  lemma SentOrNot(f: Field, s: Slot)
    requires SlotFor(f, s) && !f.htype.Repeated?
    ensures EncodeSlot(f, s) == Some([]) || EncodeSlot(f, s) == Concat(Some(FieldKey(f)), EncodeItem(f, s.data))
    ensures Concat(Some(FieldKey(f)), EncodeItem(f, s.data)) != Some([])
  {
    hide EncodeItem, IsDefault, WellFormedField;
  }

  /** A required field is always sent, an optional one if its has_ flag is set, and a member of a oneof
      if the which_ cell holds its tag. */
  lemma FlaggedSent(f: Field, s: Slot)
    requires SlotFor(f, s) && !f.htype.Repeated? && !Implicit(f)
    ensures EncodeSlot(f, s) == Some([])
       <==> (f.htype.Optional? && s.size == 0) || (f.htype.Oneof? && s.size != f.tag)
  {
    SentOrNot(f, s);
    hide EncodeItem, IsDefault, WellFormedField;
  }

  /** A proto3 field is left out if it is an empty string, no bytes, or zero. */
  lemma ImplicitSent(f: Field, s: Slot)
    requires SlotFor(f, s) && Implicit(f) && !f.ltype.Submessage?
    ensures f.ltype.String? ==> (EncodeSlot(f, s) == Some([]) <==> s.data[0] == 0)
    ensures f.ltype.Bytes? ==> (EncodeSlot(f, s) == Some([]) <==> FromLittleEndian(s.data[..4]) == 0)
    ensures f.ltype.FixedLengthBytes? ==> (EncodeSlot(f, s) == Some([]) <==> |s.data| == 0)
    ensures f.ltype.Packable() ==> (EncodeSlot(f, s) == Some([]) <==> forall k :: 0 <= k < |s.data| ==> s.data[k] == 0)
  {
    SentOrNot(f, s);
    hide EncodeItem, WellFormed;
  }

  /** A proto3 submessage is left out if and only if nothing of it would be sent. */
  lemma ImplicitSubmessageSent(f: Field, s: Slot)
    requires SlotFor(f, s) && Implicit(f) && f.ltype.Submessage? && WhichValid(f.ptr.fields, s.data)
    ensures EncodeSlot(f, s) == Some([]) <==> EncodeMessage(f.ptr.fields, s.data) == Some([])
  {
    SentOrNot(f, s);
    DefaultSendsNothing(f.ptr.fields, s.data);
    hide EncodeItem, WellFormed, AllDefault, EncodeFrom;
  }

  lemma DefaultSendsNothing(fields: seq<Field>, m: Memory)
    requires WellFormed(fields, |m|) && WhichValid(fields, m)
    ensures AllDefault(fields, m, 0) <==> EncodeMessage(fields, m) == Some([])
  {
    hide WellFormed, GetSlot, EncodeSlot, IsDefault, EncodeFrom, AllDefault, ValidWhich;
    NothingSent(fields, m, 0);
    AllDefaultMeans(fields, m, 0);
    forall i | 0 <= i < |fields|
      ensures SlotFor(fields[i], GetSlot(fields, i, m))
      ensures IsDefault(fields[i], GetSlot(fields, i, m)) ==> EncodeSlot(fields[i], GetSlot(fields, i, m)) == Some([])
    {
      WellFormedSlot(fields, i, m);
      if IsDefault(fields[i], GetSlot(fields, i, m)) {
        DefaultNotSent(fields[i], GetSlot(fields, i, m));
      }
    }
    if EncodeMessage(fields, m) == Some([]) {
      forall i | 0 <= i < |fields|
        ensures IsDefault(fields[i], GetSlot(fields, i, m))
      {
        WellFormedSlot(fields, i, m);
        NotSentDefault(fields, m, i);
      }
    }
  }

  lemma DefaultNotSent(f: Field, s: Slot)
    requires SlotFor(f, s) && IsDefault(f, s)
    ensures EncodeSlot(f, s) == Some([])
  {
    hide EncodeItem, WellFormed, AllDefault;
  }

  lemma NotSentDefault(fields: seq<Field>, m: Memory, i: nat)
    requires WellFormed(fields, |m|) && WhichValid(fields, m) && i < |fields|
    requires forall j :: 0 <= j < |fields| ==> EncodeSlot(fields[j], GetSlot(fields, j, m)) == Some([])
    ensures SlotFor(fields[i], GetSlot(fields, i, m)) && IsDefault(fields[i], GetSlot(fields, i, m))
  {
    WellFormedSlot(fields, i, m);
    var f, s := fields[i], GetSlot(fields, i, m);
    hide WellFormed, GetData, EncodeItem, AllDefault;
    if f.htype.Repeated? {
      hide GetSlot, GetSize, IsDefault;
      EmptyArray(f, s);
    } else {
      SentOrNot(f, s);
      if f.htype.Oneof? && s.size != 0 {
        assert ValidWhich(fields, m, i);
        var k :| 0 <= k < |fields| && fields[k].tag == GetSize(fields, i, m) && Leader(fields, k) == Leader(fields, i);
        if k != i {
          SharedAreOneof(fields, i, k);
          UnionSizeShared(fields, i, k, m);
        }
        WellFormedSlot(fields, k, m);
        FlaggedSent(fields[k], GetSlot(fields, k, m));
      }
    }
  }

  lemma EmptyArray(f: Field, s: Slot)
    requires SlotFor(f, s) && f.htype.Repeated? && EncodeSlot(f, s) == Some([])
    ensures IsDefault(f, s)
  {
    ArrayLimits(f, s);
    if FixedCount(f) {
      ArrayHasRoom(f);
    }
    hide EncodeSlot, WellFormedField;
  }

  lemma ArrayHasRoom(f: Field)
    requires WellFormedField(f) && FixedCount(f)
    ensures f.arraySize > 0
  {
  }

  lemma {:induction false} NothingSent(fields: seq<Field>, m: Memory, i: nat)
    requires WellFormed(fields, |m|) && i <= |fields|
    ensures EncodeFrom(fields, m, i) == Some([])
       <==> forall j :: i <= j < |fields| ==> EncodeSlot(fields[j], GetSlot(fields, j, m)) == Some([])
    decreases |fields| - i
  {
    hide WellFormed, GetSlot, EncodeSlot, WellFormedField;
    if i < |fields| {
      NothingSent(fields, m, i + 1);
      WellFormedSlot(fields, i, m);
      var s, rest := EncodeSlot(fields[i], GetSlot(fields, i, m)), EncodeFrom(fields, m, i + 1);
      ConcatEmpty(s, rest);
      assert EncodeFrom(fields, m, i) == Concat(s, rest);
      hide Concat;
    }
  }

  lemma ConcatEmpty(a: Option<seq<byte>>, b: Option<seq<byte>>)
    ensures Concat(a, b) == Some([]) <==> a == Some([]) && b == Some([])
  {
    if a.Some? && b.Some? {
      assert |a.value + b.value| == |a.value| + |b.value|;
    }
  }

  lemma {:induction false} AllDefaultMeans(fields: seq<Field>, m: Memory, i: nat)
    requires WellFormed(fields, |m|) && i <= |fields|
    ensures AllDefault(fields, m, i)
       <==> forall j :: i <= j < |fields| ==> IsDefault(fields[j], GetSlot(fields, j, m))
    decreases |fields| - i
  {
    hide WellFormed, GetSlot, IsDefault;
    if i < |fields| {
      AllDefaultMeans(fields, m, i + 1);
    }
  }

  // ---- The message ----

  function Piece(fields: seq<Field>, m: Memory, i: nat): Option<seq<byte>>
    requires WellFormed(fields, |m|) && i < |fields|
  {
    WellFormedSlot(fields, i, m);
    EncodeSlot(fields[i], GetSlot(fields, i, m))
  }

  /** What is sent of each of the first n entries. */
  function Pieces(fields: seq<Field>, m: Memory, n: nat): (ss: seq<Option<seq<byte>>>)
    requires WellFormed(fields, |m|) && n <= |fields|
    ensures |ss| == n && forall i :: 0 <= i < n ==> ss[i] == Piece(fields, m, i)
  {
    if n == 0 then []
    else
      hide WellFormed, Piece;
      Pieces(fields, m, n - 1) + [Piece(fields, m, n - 1)]
  }

  lemma {:induction false} FromIsJoined(fields: seq<Field>, m: Memory, i: nat)
    requires WellFormed(fields, |m|) && i <= |fields|
    ensures Joined(Pieces(fields, m, |fields|)[i..]) == EncodeFrom(fields, m, i)
    decreases |fields| - i
  {
    hide WellFormed, EncodeSlot, GetSlot;
    if i < |fields| {
      FromIsJoined(fields, m, i + 1);
      assert Pieces(fields, m, |fields|)[i..][0] == Pieces(fields, m, |fields|)[i];
      assert Pieces(fields, m, |fields|)[i..][1..] == Pieces(fields, m, |fields|)[i + 1..];
    }
  }

  /** The fields are sent in the order of the table. */
  lemma MessageSentInOrder(fields: seq<Field>, m: Memory)
    requires WellFormed(fields, |m|)
    ensures EncodeMessage(fields, m) == Joined(Pieces(fields, m, |fields|))
  {
    FromIsJoined(fields, m, 0);
    assert Pieces(fields, m, |fields|)[0..] == Pieces(fields, m, |fields|);
  }
}
