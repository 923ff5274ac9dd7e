/** What the decoder takes from the wire, told without the decoder's own functions: which varints, which
    records of unknown fields and which values it accepts, what it stores for them, and where a message
    ends. */
module TakenBytes {
  import opened Bits
  import opened Integers
  import opened Wire
  import opened Varint32
  import opened Descriptor
  import opened StructMemory
  import opened Encoding
  import opened Decoding
  import opened Locality
  import opened ValueRoundTrip
  import opened Effects
  import opened Arrivals

  // ---- Varints ----

  /** A 64-bit varint is accepted if and only if one of the first ten bytes has no continuation bit. */
  lemma VarintAcceptedExactly(s: seq<byte>)
    ensures DecodeVarint(s).Got? <==> exists n :: 0 <= n < 10 && n < |s| && s[n] < 128
  {
    hide Base128;
    var n := VarintLen(s);
    if n > 0 {
      assert s[n - 1] < 128;
    }
  }

  /** Then its value is that of the digits up to there, modulo 2^64. */
  lemma VarintTaken(s: seq<byte>, n: nat)
    requires 0 < n <= 10 && n <= |s| && s[n - 1] < 128 && forall i :: 0 <= i < n - 1 ==> s[i] >= 128
    ensures DecodeVarint(s) == Got(Base128(s[..n]) % TWO64, s[n..])
  {
    VarintLenUnique(s, n);
    hide Base128;
  }

  /** n digits of value zero, with continuation bits. */
  function ZeroDigits(n: nat): (s: seq<byte>)
    ensures |s| == n
  {
    if n == 0 then [] else [128] + ZeroDigits(n - 1)
  }

  lemma {:induction false} ZerosPass(n: nat, bitpos: nat, t: seq<byte>)
    requires bitpos < 256
    ensures Varint32Loop(ZeroDigits(n) + t, 0, bitpos) == Varint32Loop(t, 0, (bitpos + 7 * n) % 256)
    decreases n
  {
    hide Varint32Loop;
    if n == 0 {
      assert ZeroDigits(0) + t == t;
    } else {
      var s := ZeroDigits(n) + t;
      assert s[0] == 128 && s[1..] == ZeroDigits(n - 1) + t;
      ZeroPasses(s, bitpos);
      ZerosPass(n - 1, (bitpos + 7) % 256, t);
      WrapTwice(bitpos, n);
    }
  }

  lemma ZeroPasses(s: seq<byte>, bitpos: nat)
    requires s != [] && s[0] == 128 && bitpos < 256
    ensures Varint32Loop(s, 0, bitpos) == Varint32Loop(s[1..], 0, (bitpos + 7) % 256)
  {
    assert Varint32Merge(0, 128, bitpos) == 0;
    hide Varint32Merge;
  }

  lemma WrapTwice(p: nat, n: nat)
    requires n > 0
    ensures ((p + 7) % 256 + 7 * (n - 1)) % 256 == (p + 7 * n) % 256
  {
  }

  /** The 32-bit reader counts bits in eight bits: after 37 digits of zero it is back at bit 3, and a last
      digit of 1 makes 8. */
  lemma BitposWraps(t: seq<byte>)
    ensures DecodeVarint32(ZeroDigits(37) + [1] + t) == Got(8, t)
  {
    FirstZero(37, t);
    hide Varint32Loop, ZeroDigits;
    ZerosPass(36, 7, [1] + t);
    LastDigit(t);
  }

  lemma FirstZero(n: nat, t: seq<byte>)
    requires n > 0
    ensures var s := ZeroDigits(n) + [1] + t; s[0] == 128 && s[1..] == ZeroDigits(n - 1) + ([1] + t)
  {
  }

  lemma LastDigit(t: seq<byte>)
    ensures Varint32Loop([1] + t, 0, 3) == Got(8, t)
  {
    assert Pow2(3) == 8;
    assert Varint32Merge(0, 1, 3) == 8;
    assert ([1] + t)[0] == 1 && ([1] + t)[1..] == t;
    hide Varint32Merge;
  }

  // ---- Unknown fields ----

  /** What is skipped: for wire type 0 one varint, for 1 eight bytes, for 5 four bytes, for 2 a length and
      as many bytes; any other wire type is an error. */
  lemma SkippedExactly(wireType: nat, s: seq<byte>)
    ensures wireType == 0 ==> (SkipField(wireType, s).Got? <==> exists n :: 0 <= n < |s| && s[n] < 128)
    ensures wireType == 1 ==> SkipField(wireType, s) == if |s| < 8 then Bad else Got((), s[8..])
    ensures wireType == 5 ==> SkipField(wireType, s) == if |s| < 4 then Bad else Got((), s[4..])
    ensures wireType == 2
        ==> SkipField(wireType, s)
            == match DecodeVarint32(s) {
                 case Bad => Bad
                 case Got(n, rest) => if |rest| < n then Bad else Got((), rest[n..])
               }
    ensures wireType !in {0, 1, 2, 5} ==> SkipField(wireType, s) == Bad
  {
    if wireType == 0 {
      var n := VarintLen(s);
      if n > 0 {
        assert s[n - 1] < 128;
      }
    }
  }

  lemma VarintSkipped(s: seq<byte>, n: nat)
    requires 0 < n <= |s| && s[n - 1] < 128 && forall i :: 0 <= i < n - 1 ==> s[i] >= 128
    ensures SkipField(0, s) == Got((), s[n..])
  {
    VarintLenUnique(s, n);
  }

  // ---- Values ----

  /** The signed number a zig-zag varint stands for: 0, -1, 1, -2, ... */
  function Unfolded(u: nat): int {
    if u % 2 == 0 then u / 2 else -(u / 2) - 1
  }

  /** The number an integer field makes of a varint; a signed field below eight bytes looks at the low 32
      bits only. */
  function NumberOf(f: Field, u: nat): int {
    if f.ltype.Uvarint? then u
    else if f.ltype.Svarint? then Unfolded(u)
    else if f.dataSize == 8 then if u < 0x8000_0000_0000_0000 then u else u - TWO64
    else if u % TWO32 < 0x8000_0000 then u % TWO32 else u % TWO32 - TWO32
  }

  /** An integer field accepts a varint if and only if the number fits its width, and then holds that
      number. Otherwise its low bytes have been stored all the same. */
  lemma NumberTaken(f: Field, d: seq<byte>, s: seq<byte>)
    requires ItemFor(f, d) && (f.ltype.Varint? || f.ltype.Uvarint? || f.ltype.Svarint?)
    ensures DecodeVarint(s).Bad? ==> DecodeValue(f, d, s) == Fail(d)
    ensures DecodeVarint(s).Got?
        ==> var r, x, w := DecodeValue(f, d, s), NumberOf(f, DecodeVarint(s).value), f.dataSize;
            && (r.Ok? <==> if f.ltype.Uvarint? then x < Pow2(8 * w) else 0 <= 2 * x + Pow2(8 * w) < 2 * Pow2(8 * w))
            && (r.Ok? ==> r.rest == DecodeVarint(s).rest)
            && FromLittleEndian(r.value) == x % Pow2(8 * w)
  {
    hide DecodeVarint, LittleEndian, FromLittleEndian, Pow2, NumberOf;
    if DecodeVarint(s).Got? {
      StoredNumber(f, DecodeVarint(s).value);
      NumberNarrows(f, DecodeVarint(s).value);
      hide Narrow;
    }
  }

  lemma NumberNarrows(f: Field, u: nat)
    requires WellFormedField(f) && (f.ltype.Varint? || f.ltype.Uvarint? || f.ltype.Svarint?) && u < TWO64
    ensures var x, w := NumberOf(f, u), f.dataSize;
            && (Narrow(f, u).fits
                <==> if f.ltype.Uvarint? then x < Pow2(8 * w) else 0 <= 2 * x + Pow2(8 * w) < 2 * Pow2(8 * w))
            && Narrow(f, u).stored == x % Pow2(8 * w)
  {
    var w := f.dataSize;
    WidthFacts();
    hide Pow2;
    NarrowExact(u, w);
    NarrowVarintExact(u, w);
    UnfoldedIs(u);
    PatternSigned(u, 8);
    hide Unfolded, UnZigZag;
  }

  lemma StoredNumber(f: Field, u: nat)
    requires WellFormedField(f) && (f.ltype.Varint? || f.ltype.Uvarint? || f.ltype.Svarint?) && u < TWO64
    ensures FromLittleEndian(LittleEndian(Narrow(f, u).stored, f.dataSize)) == Narrow(f, u).stored
  {
    WidthFacts();
    FromLittleEndianInverse(Narrow(f, u).stored, f.dataSize);
    hide NarrowVarint, NarrowUvarint, NarrowSvarint, LittleEndian, FromLittleEndian;
  }

  lemma UnfoldedIs(u: nat)
    requires u < TWO64
    ensures UnZigZag(u) == Unfolded(u)
  {
  }

  /** A bool is true for every number but zero. */
  lemma BoolTaken(f: Field, d: seq<byte>, s: seq<byte>)
    requires ItemFor(f, d) && f.ltype.Bool?
    ensures DecodeValue(f, d, s)
         == match DecodeVarint32(s) {
              case Bad => Fail(d)
              case Got(v, rest) => Ok([if v != 0 then 1 else 0], rest)
            }
  {
  }

  /** A fixed-size value takes its four or eight bytes as they are. */
  lemma FixedTaken(f: Field, d: seq<byte>, s: seq<byte>)
    requires ItemFor(f, d) && (f.ltype.Fixed32? || f.ltype.Fixed64?)
    ensures var w := if f.ltype.Fixed32? then 4 else 8;
            DecodeValue(f, d, s) == if |s| < w then Fail(d) else Ok(s[..w], s[w..])
  {
    var w := if f.ltype.Fixed32? then 4 else 8;
    if |s| >= w {
      LittleEndianInverse(s[..w]);
    }
  }

  /** A string is accepted if and only if it fits with its terminator. If it is cut short, the terminator
      is written all the same. */
  lemma StringTaken(f: Field, d: seq<byte>, s: seq<byte>)
    requires ItemFor(f, d) && f.ltype.String?
    ensures DecodeValue(f, d, s).Ok? <==> Substream(s).Got? && |Substream(s).value| < f.dataSize
    ensures DecodeValue(f, d, s).Ok?
        ==> var b, r := Substream(s).value, DecodeValue(f, d, s);
            r.rest == Substream(s).rest && r.value[..|b|] == b && r.value[|b|] == 0
    ensures DecodeVarint32(s).Got?
        ==> var n, rest := DecodeVarint32(s).value, DecodeVarint32(s).rest;
            |rest| < n < f.dataSize ==> DecodeValue(f, d, s) == Fail(d[n := 0])
  {
    hide DecodeVarint32;
    if DecodeVarint32(s).Got? && DecodeVarint32(s).value < f.dataSize {
      assert Write(d, DecodeVarint32(s).value, [0]) == d[DecodeVarint32(s).value := 0];
    }
  }

  /** Bytes are accepted if and only if they fit behind their size. If they are cut short, the size is
      written all the same. */
  lemma BytesTaken(f: Field, d: seq<byte>, s: seq<byte>)
    requires ItemFor(f, d) && f.ltype.Bytes?
    ensures DecodeValue(f, d, s).Ok? <==> Substream(s).Got? && 4 + |Substream(s).value| <= f.dataSize
    ensures DecodeValue(f, d, s).Ok?
        ==> var b, r := Substream(s).value, DecodeValue(f, d, s);
            && r.rest == Substream(s).rest
            && FromLittleEndian(r.value[..4]) == |b| && r.value[4..4 + |b|] == b
    ensures DecodeVarint32(s).Got?
        ==> var n, r := DecodeVarint32(s).value, DecodeValue(f, d, s);
            |DecodeVarint32(s).rest| < n && n + 4 <= f.dataSize
            ==> r.Fail? && FromLittleEndian(r.value[..4]) == n && r.value[4..] == d[4..]
  {
    hide DecodeVarint32, Write, LittleEndian, FromLittleEndian;
    if DecodeValue(f, d, s).Ok? {
      BytesStored(d, Substream(s).value);
    } else if DecodeVarint32(s).Got? && DecodeVarint32(s).value + 4 <= f.dataSize {
      SizeStored(d, DecodeVarint32(s).value);
    }
  }

  lemma SizeStored(d: seq<byte>, n: nat)
    requires 4 <= |d| && n < TWO32
    ensures var r := Write(d, 0, LittleEndian(n, 4)); FromLittleEndian(r[..4]) == n && r[4..] == d[4..]
  {
    SizeCellHolds(n);
    hide FromLittleEndian, LittleEndian;
    assert Write(d, 0, LittleEndian(n, 4))[..4] == LittleEndian(n, 4);
  }

  /** Bytes of fixed length are accepted if and only if they have this length, or none, which stands for
      zeros. */
  lemma FixedLengthBytesTaken(f: Field, d: seq<byte>, s: seq<byte>)
    requires ItemFor(f, d) && f.ltype.FixedLengthBytes?
    ensures DecodeValue(f, d, s).Ok?
       <==> Substream(s).Got? && (|Substream(s).value| == 0 || |Substream(s).value| == f.dataSize)
    ensures DecodeValue(f, d, s).Ok?
        ==> var b, r := Substream(s).value, DecodeValue(f, d, s);
            && r.rest == Substream(s).rest
            && if |b| == 0 then forall k :: 0 <= k < |d| ==> r.value[k] == 0 else r.value == b
  {
    hide DecodeVarint32;
  }

  // ---- Records ----

  /** The wire type of a known field's record is not checked. It only tells a packed array from a single
      entry. */
  lemma WireTypeIgnored(f: Field, m: Memory, p: nat, count: nat, w: nat, w': nat, s: seq<byte>)
    requires PlacedField(f, p, |m|)
    requires f.htype.Repeated? && f.ltype.Packable() ==> (w == 2 <==> w' == 2)
    ensures DecodeCells(f, m, p, count, w, s) == DecodeCells(f, m, p, count, w', s)
  {
    hide PlacedField, DecodeValue, DecodeSubField, Substream, PackedLoop;
  }

  /** What a record of a single value leaves in its has_ or which_ cell, accepted or not: 1, or the tag. */
  lemma FlagStored(f: Field, m: Memory, p: nat, count: nat, w: nat, s: seq<byte>)
    requires PlacedField(f, p, |m|) && !f.ltype.Submessage?
    ensures CellsAt(f, p, |m|)
    ensures var t := SlotAt(DecodeCells(f, m, p, count, w, s).value.mem, f, p);
            (HasFlag(f) ==> t.size == 1) && (f.htype.Oneof? ==> t.size == f.tag)
  {
    PlacedCells(f, p, |m|);
    hide PlacedField, DecodeSlot, PutSlotAt, SlotAt, FromLittleEndian, LittleEndian, WellFormedField, SizeLen,
      CursorSlot, DecodeCells, CellsFor, CellsAt, SentSize;
    var t := DecodeSlot(f, CursorSlot(m, f, p, count), w, s).value;
    LeafStored(f, m, p, count, w, s);
    if !f.htype.Repeated? {
      SentFits(f);
      NoSize(f, m, p);
      SlotFlagged(f, CursorSlot(m, f, p, count), w, s);
    }
    SlotAtPut(m, f, p, t);
  }

  lemma SlotFlagged(f: Field, slot: Slot, w: nat, s: seq<byte>)
    requires SlotFor(f, slot) && !f.htype.Repeated? && !f.ltype.Submessage?
    ensures HasFlag(f) || f.htype.Oneof? ==> DecodeSlot(f, slot, w, s).value.size == SentSize(f)
  {
    hide DecodeValue, WellFormedField;
  }

  /** A pb_size_t counted up, in its 32 bits. */
  function OneMore(n: nat): (r: nat)
    ensures r < TWO32
  {
    (n + 1) % 0x1_0000_0000
  }

  /** An entry of an array is counted whether or not it is accepted. */
  lemma EntryCounted(f: Field, m: Memory, p: nat, count: nat, w: nat, s: seq<byte>)
    requires PlacedField(f, p, |m|) && f.htype.Repeated? && !f.ltype.Submessage? && !(f.ltype.Packable() && w == 2)
    requires CellsAt(f, p, |m|)
    ensures var c := DecodeCells(f, m, p, count, w, s).value;
            if f.sizeOffset == 0 then c.count == OneMore(count)
            else c.count == count && SlotAt(c.mem, f, p).size == OneMore(SlotAt(m, f, p).size)
  {
    PlacedCells(f, p, |m|);
    hide PlacedField, DecodeSlot, PutSlotAt, SlotAt, CellsFor, WellFormedField, DecodeCells, CursorSlot, CellsAt,
      OneMore;
    CursorSize(m, f, p, count);
    var slot := CursorSlot(m, f, p, count);
    SlotCounted(f, slot, w, s);
    LeafStored(f, m, p, count, w, s);
    if f.sizeOffset != 0 {
      CellCounted(m, f, p, DecodeSlot(f, slot, w, s).value);
    }
  }

  lemma LeafStored(f: Field, m: Memory, p: nat, count: nat, w: nat, s: seq<byte>)
    requires PlacedField(f, p, |m|) && CellsAt(f, p, |m|) && SlotFor(f, CursorSlot(m, f, p, count))
    requires !f.ltype.Submessage?
    ensures var t := DecodeSlot(f, CursorSlot(m, f, p, count), w, s).value;
            DecodeCells(f, m, p, count, w, s).value
            == Cells(PutSlotAt(m, f, p, t), if FixedCount(f) then t.size else count)
  {
    hide PlacedField, DecodeSlot, PutSlotAt, CursorSlot, WellFormedField;
  }

  lemma CursorSize(m: Memory, f: Field, p: nat, count: nat)
    requires CellsAt(f, p, |m|) && f.htype.Repeated?
    ensures CursorSlot(m, f, p, count).size == if f.sizeOffset == 0 then count else SlotAt(m, f, p).size
  {
  }

  lemma CellCounted(m: Memory, f: Field, p: nat, t: Slot)
    requires CellsFor(f, p, |m|) && |t.data| == DataLen(f) && Counted(f) && t.size < TWO32
    ensures SlotAt(PutSlotAt(m, f, p, t), f, p).size == t.size
  {
    SizeCellHolds(t.size);
    hide CellsFor, PutSlotAt, SlotAt, FromLittleEndian, LittleEndian;
    SlotAtPut(m, f, p, t);
  }

  lemma SlotCounted(f: Field, slot: Slot, w: nat, s: seq<byte>)
    requires SlotFor(f, slot) && f.htype.Repeated? && !f.ltype.Submessage? && !(f.ltype.Packable() && w == 2)
    ensures DecodeSlot(f, slot, w, s).value.size == OneMore(slot.size)
  {
    hide DecodeValue, PutItem, ItemAt;
    if slot.size < f.arraySize {
      ModSmall(slot.size + 1, TWO32);
    }
  }

  /** A full array takes no further entry, but counts it. */
  lemma FullArrayRefuses(f: Field, m: Memory, p: nat, count: nat, w: nat, s: seq<byte>)
    requires PlacedField(f, p, |m|) && f.htype.Repeated? && !(f.ltype.Packable() && w == 2)
    requires CellsAt(f, p, |m|) && (if f.sizeOffset == 0 then count else SlotAt(m, f, p).size) >= f.arraySize
    ensures var r := DecodeCells(f, m, p, count, w, s);
            && r.Fail?
            && if f.sizeOffset == 0 then r.value.count == OneMore(count)
               else r.value.count == count && SlotAt(r.value.mem, f, p).size == OneMore(SlotAt(m, f, p).size)
  {
    PlacedCells(f, p, |m|);
    if f.ltype.Submessage? {
      FullSubmessages(f, m, p, count, s);
    } else {
      EntryCounted(f, m, p, count, w, s);
      hide PlacedField, DecodeValue, PutSlotAt, SlotAt, OneMore, CellsFor;
    }
  }

  lemma FullSubmessages(f: Field, m: Memory, p: nat, count: nat, s: seq<byte>)
    requires PlacedField(f, p, |m|) && f.htype.Repeated? && f.ltype.Submessage? && CellsFor(f, p, |m|)
    requires CellsAt(f, p, |m|) && (if f.sizeOffset == 0 then count else SlotAt(m, f, p).size) >= f.arraySize
    ensures var r := DecodeSubField(f, m, p, count, s);
            && r.Fail?
            && if f.sizeOffset == 0 then r.value.count == OneMore(count)
               else r.value.count == count && SlotAt(r.value.mem, f, p).size == OneMore(SlotAt(m, f, p).size)
  {
    hide PlacedField, DecodeSubField, DecodeSubmessage, PutSizeAt, SlotAt, CellsFor, CellsAt, FromLittleEndian,
      LittleEndian, OneMore;
    var n := if FixedCount(f) then count else SlotAt(m, f, p).size;
    EntrySteps(f, m, p, count, n, s);
    if Counted(f) {
      SizeCellHolds(OneMore(n));
      SlotAtPutSize(m, f, p, OneMore(n));
    }
  }

  /** A record of entry n of an array of submessages, step by step. */
  lemma EntrySteps(f: Field, m: Memory, p: nat, count: nat, n: nat, s: seq<byte>)
    requires PlacedField(f, p, |m|) && f.htype.Repeated? && f.ltype.Submessage? && CellsAt(f, p, |m|)
    requires n == if FixedCount(f) then count else SlotAt(m, f, p).size
    ensures var m1, c1 := PutSizeAt(m, f, p, OneMore(n)), if FixedCount(f) then OneMore(n) else count;
            DecodeSubField(f, m, p, count, s)
            == if n >= f.arraySize then Fail(Cells(m1, c1)) else WithCount(DecodeSubmessage(f, m1, p, n, s), c1)
  {
    hide PlacedField, DecodeSubmessage, PutSizeAt, FromLittleEndian;
  }

  /** A packed array whose next value is refused fails. The value is not counted, but what its decoder
      stored stays in the entry past the count. */
  lemma PackedRefused(f: Field, slot: Slot, b: seq<byte>)
    requires SlotFor(f, slot) && f.htype.Repeated? && f.ltype.Packable() && slot.size < f.arraySize
    requires b != [] && |b| < TWO32 && DecodeValue(f, ItemAt(f, slot.data, slot.size), b).Fail?
    ensures DecodeSlot(f, slot, 2, Delimited(b))
         == Fail(Slot(slot.size,
                      PutItem(f, slot.data, slot.size, DecodeValue(f, ItemAt(f, slot.data, slot.size), b).value)))
  {
    DelimitedRoundTrip(b, []);
    assert Delimited(b) + [] == Delimited(b);
    hide DecodeScalar, PutItem, ItemAt, Delimited, Substream, WellFormedField;
  }

  /** While a fixed-count array is incomplete no other one is begun. */
  lemma IncompleteRefused(x: Struct, st: State, i: nat, w: nat, s: seq<byte>)
    requires StateFor(x, st) && i < |x.fields| && FixedCount(x.fields[i]) && st.fixedField.Some?
    requires st.fixedField.value != i && st.fixedSize != x.fields[st.fixedField.value].arraySize
    ensures DecodeField(x, st, i, w, s).Fail?
  {
    hide Placed, DecodeCells;
  }

  /** A payload that is accepted whatever the value before. */
  ghost predicate AlwaysTaken(f: Field, s: seq<byte>)
    requires WellFormedField(f) && !f.ltype.Submessage?
  {
    forall d: seq<byte> :: |d| == f.dataSize ==> DecodeValue(f, d, s).Ok? && DecodeValue(f, d, s).rest == []
  }

  /** One record for each payload. */
  function EntriesOf(f: Field, ps: seq<seq<byte>>): seq<byte> {
    if ps == [] then [] else FieldKey(f) + ps[0] + EntriesOf(f, ps[1..])
  }

  lemma EntryTaken(x: Struct, st: State, i: nat, s: seq<byte>, tail: seq<byte>)
    requires StateFor(x, st) && i < |x.fields| && FixedCount(x.fields[i]) && !x.fields[i].ltype.Submessage?
    requires WellFormedField(x.fields[i]) && AlwaysTaken(x.fields[i], s)
    requires st.fixedField == Some(i) || st.fixedField == None
    ensures var k := if st.fixedField == None then 0 else st.fixedSize;
            var input := FieldKey(x.fields[i]) + s + tail;
            if k < x.fields[i].arraySize
            then exists st1 :: && StateFor(x, st1) && DecodeLoop(x, st, input) == DecodeLoop(x, st1, tail)
                               && st1.fixedField == Some(i) && st1.fixedSize == k + 1
            else DecodeLoop(x, st, input).Broken?
  {
    var f, w := x.fields[i], WireType(x.fields[i].ltype);
    hide Placed, DecodeField, DecodeLoop, SkipField, KeyBytes, AlwaysTaken, WellFormedField;
    EntryStored(x, st, i, s);
    LoopOfField(x, st, i, w, s, tail);
    assert DecodeField(x, st, i, w, s).Ok?
        ==> DecodeLoop(x, st, FieldKey(f) + s + tail) == DecodeLoop(x, DecodeField(x, st, i, w, s).value, tail);
  }

  lemma EntryStored(x: Struct, st: State, i: nat, s: seq<byte>)
    requires StateFor(x, st) && i < |x.fields| && FixedCount(x.fields[i]) && !x.fields[i].ltype.Submessage?
    requires WellFormedField(x.fields[i]) && AlwaysTaken(x.fields[i], s)
    requires st.fixedField == Some(i) || st.fixedField == None
    ensures SkipField(WireType(x.fields[i].ltype), s) == Got((), [])
    ensures var k := if st.fixedField == None then 0 else st.fixedSize;
            var r := DecodeField(x, st, i, WireType(x.fields[i].ltype), s);
            if k < x.fields[i].arraySize then r.Ok? && r.value.fixedField == Some(i) && r.value.fixedSize == k + 1
            else r.Fail?
  {
    PlacedEntry(x, i, |st.mem|);
    EntryDecodes(x.fields[i], st.mem, Addr(x, i), Enter(x.fields, st, i).fixedSize, s);
    hide Placed, PlacedField, DecodeCells, SkipField, AlwaysTaken, Addr, WellFormedField, Mark;
  }

  lemma EntryDecodes(f: Field, m: Memory, p: nat, n: nat, s: seq<byte>)
    requires PlacedField(f, p, |m|) && FixedCount(f) && !f.ltype.Submessage? && WellFormedField(f) && AlwaysTaken(f, s)
    ensures SkipField(WireType(f.ltype), s) == Got((), [])
    ensures var r := DecodeCells(f, m, p, n, WireType(f.ltype), s);
            if n < f.arraySize then r.Ok? && r.value.count == n + 1 else r.Fail?
  {
    var d := Zeros(f.dataSize);
    DecodeValueConsumes(f, d, s);
    PlacedCells(f, p, |m|);
    hide PlacedField, DecodeValue, SkipField, PutSlotAt, PutItem, ItemAt, WellFormedField, CellsFor;
    if n < f.arraySize {
      assert DecodeValue(f, Target(f, CursorSlot(m, f, p, n)), s).Ok?;
    }
  }

  lemma {:induction false} EntriesTaken(x: Struct, st: State, i: nat, ps: seq<seq<byte>>)
    requires StateFor(x, st) && i < |x.fields| && FixedCount(x.fields[i]) && !x.fields[i].ltype.Submessage?
    requires WellFormedField(x.fields[i]) && forall j :: 0 <= j < |ps| ==> AlwaysTaken(x.fields[i], ps[j])
    requires st.fixedField == Some(i) && st.fixedSize <= x.fields[i].arraySize
    ensures var r := DecodeLoop(x, st, EntriesOf(x.fields[i], ps));
            if st.fixedSize + |ps| <= x.fields[i].arraySize
            then r.Ended? && r.st.fixedField == Some(i) && r.st.fixedSize == st.fixedSize + |ps|
            else r.Broken?
    decreases |ps|
  {
    hide Placed, DecodeLoop, AlwaysTaken, WellFormedField;
    if ps == [] {
      LoopOfNothing(x, st);
    } else {
      var tail := EntriesOf(x.fields[i], ps[1..]);
      EntryTaken(x, st, i, ps[0], tail);
      if st.fixedSize < x.fields[i].arraySize {
        var st1 :| && StateFor(x, st1) && st1.fixedField == Some(i) && st1.fixedSize == st.fixedSize + 1
                   && DecodeLoop(x, st, FieldKey(x.fields[i]) + ps[0] + tail) == DecodeLoop(x, st1, tail);
        EntriesTaken(x, st1, i, ps[1..]);
      }
    }
  }

  /** A message of a fixed-count array alone is accepted with no entry, or with all of them. */
  lemma FixedCountTaken(x: Struct, m: Memory, i: nat, ps: seq<seq<byte>>)
    requires Placed(x, |m|) && i < |x.fields| && FixedCount(x.fields[i]) && !x.fields[i].ltype.Submessage?
    requires forall j :: 0 <= j < |x.fields| ==> !x.fields[j].htype.Required?
    requires WellFormedField(x.fields[i]) && forall j :: 0 <= j < |ps| ==> AlwaysTaken(x.fields[i], ps[j])
    ensures DecodeNoinit(x, m, EntriesOf(x.fields[i], ps)).Ok? <==> |ps| == 0 || |ps| == x.fields[i].arraySize
  {
    ArrayNotEmpty(x.fields[i]);
    NoneRequired(x.fields, |x.fields|);
    hide Placed, DecodeLoop, AlwaysTaken, WellFormedField;
    if ps == [] {
      LoopOfNothing(x, Start(m));
    } else {
      var tail := EntriesOf(x.fields[i], ps[1..]);
      EntryTaken(x, Start(m), i, ps[0], tail);
      var st1 :| && StateFor(x, st1) && st1.fixedField == Some(i) && st1.fixedSize == 1
                 && DecodeLoop(x, Start(m), FieldKey(x.fields[i]) + ps[0] + tail) == DecodeLoop(x, st1, tail);
      EntriesTaken(x, st1, i, ps[1..]);
    }
  }

  lemma ArrayNotEmpty(f: Field)
    requires WellFormedField(f) && FixedCount(f)
    ensures f.arraySize > 0
  {
  }

  lemma {:induction false} NoneRequired(fields: seq<Field>, n: nat)
    requires n <= |fields| && forall j :: 0 <= j < |fields| ==> !fields[j].htype.Required?
    ensures RequiredBefore(fields, n) == 0
  {
    if n > 0 {
      NoneRequired(fields, n - 1);
    }
  }

  /** On an empty table the terminator takes tag 0: a bool at the start of the struct. */
  lemma TerminatorTaken(x: Struct, st: State, w: nat, s: seq<byte>)
    requires StateFor(x, st) && x.fields == [] && x.base < |st.mem|
    ensures var r := DecodeRecord(x, st, 0, w, s);
            match DecodeVarint32(s) {
              case Bad => r.Fail? && r.value.mem == st.mem
              case Got(v, rest) => r.Ok? && r.rest == rest && r.value.mem == st.mem[x.base := if v != 0 then 1 else 0]
            }
  {
    hide DecodeVarint32, Placed;
  }

  /** A zero byte where a key could be ends the message, and what follows is not read. */
  lemma ZeroKeyEnds(x: Struct, m: Memory, a: seq<byte>, t: seq<byte>)
    requires Placed(x, |m|) && DecodeLoop(x, Start(m), a).Ended?
    ensures DecodeNoinit(x, m, a).Ok? <==> DecodeNoinit(x, m, a + [0] + t).Ok?
    ensures DecodeNoinit(x, m, a + [0] + t).value == DecodeNoinit(x, m, a).value
    ensures DecodeNoinit(x, m, a).Ok? ==> DecodeNoinit(x, m, a).rest == [] && DecodeNoinit(x, m, a + [0] + t).rest == t
  {
    hide DecodeLoop, Placed, AllRequiredSeen;
    LoopConcat(x, Start(m), a, [0] + t);
    assert a + [0] + t == a + ([0] + t);
    StopsAtZero(x, DecodeLoop(x, Start(m), a).st, t);
  }

  lemma StopsAtZero(x: Struct, st: State, t: seq<byte>)
    requires StateFor(x, st)
    ensures DecodeLoop(x, st, [0] + t) == Stopped(st, t)
  {
    assert ([0] + t)[0] == 0 && ([0] + t)[1..] == t;
    hide Placed, DecodeRecord;
  }
}
