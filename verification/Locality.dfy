/** Decoders look only at the bytes they consume, and a record whose wire type agrees with its
    descriptor consumes exactly what pb_skip_field would. */
module Locality {
  import opened Bits
  import opened Wire
  import opened Descriptor
  import opened StructMemory
  import opened Encoding
  import opened Decoding

  function Append<T>(r: Result<T>, t: seq<byte>): Result<T> {
    match r
    case Ok(v, rest) => Ok(v, rest + t)
    case Fail(v) => Fail(v)
  }

  lemma TakeExtends(s: seq<byte>, t: seq<byte>, n: nat)
    requires n <= |s|
    ensures (s + t)[..n] == s[..n] && (s + t)[n..] == s[n..] + t
  {
  }

  lemma DecodeScalarExtends(f: Field, d: seq<byte>, s: seq<byte>, t: seq<byte>)
    requires ItemFor(f, d) && f.ltype.Packable() && DecodeScalar(f, d, s).Ok?
    ensures DecodeScalar(f, d, s + t) == Append(DecodeScalar(f, d, s), t)
  {
    hide DecodeVarint, DecodeVarint32, Narrow, LittleEndian, FromLittleEndian;
    if f.ltype.Bool? {
      DecodeVarint32Extends(s, t);
    } else if f.ltype.Fixed32? || f.ltype.Fixed64? {
      TakeExtends(s, t, f.dataSize);
    } else {
      DecodeVarintExtends(s, t);
    }
  }

  /** What was in the memory before does not matter for a value that decodes. */
  lemma ScalarOverwrites(f: Field, d: seq<byte>, d': seq<byte>, s: seq<byte>)
    requires ItemFor(f, d) && ItemFor(f, d') && f.ltype.Packable()
    ensures DecodeScalar(f, d, s).Ok? <==> DecodeScalar(f, d', s).Ok?
    ensures DecodeScalar(f, d, s).Ok? ==> DecodeScalar(f, d, s) == DecodeScalar(f, d', s)
  {
    hide DecodeVarint, DecodeVarint32, Narrow, LittleEndian, FromLittleEndian;
  }

  lemma DecodeBlobExtends(f: Field, d: seq<byte>, s: seq<byte>, t: seq<byte>)
    requires ItemFor(f, d) && (f.ltype.Bytes? || f.ltype.String? || f.ltype.FixedLengthBytes?)
    requires DecodeValue(f, d, s).Ok?
    ensures DecodeValue(f, d, s + t) == Append(DecodeValue(f, d, s), t)
  {
    hide DecodeVarint32, Write, LittleEndian;
    DecodeVarint32Extends(s, t);
    var n, rest := DecodeVarint32(s).value, DecodeVarint32(s).rest;
    TakeExtends(rest, t, n);
  }

  lemma DecodeValueExtends(f: Field, d: seq<byte>, s: seq<byte>, t: seq<byte>)
    requires ItemFor(f, d) && !f.ltype.Submessage? && DecodeValue(f, d, s).Ok?
    ensures DecodeValue(f, d, s + t) == Append(DecodeValue(f, d, s), t)
  {
    if f.ltype.Packable() {
      DecodeScalarExtends(f, d, s, t);
    } else {
      DecodeBlobExtends(f, d, s, t);
    }
  }

  lemma DecodePackedExtends(f: Field, slot: Slot, s: seq<byte>, t: seq<byte>)
    requires SlotFor(f, slot) && f.htype.Repeated? && f.ltype.Packable() && DecodePacked(f, slot, s).Ok?
    ensures DecodePacked(f, slot, s + t) == Append(DecodePacked(f, slot, s), t)
  {
    hide Substream, PackedLoop;
    SubstreamExtends(s, t);
  }

  lemma DecodeSlotExtends(f: Field, slot: Slot, wireType: nat, s: seq<byte>, t: seq<byte>)
    requires SlotFor(f, slot) && !f.ltype.Submessage? && DecodeSlot(f, slot, wireType, s).Ok?
    ensures DecodeSlot(f, slot, wireType, s + t) == Append(DecodeSlot(f, slot, wireType, s), t)
  {
    if f.htype.Repeated? && wireType == STRING && f.ltype.Packable() {
      DecodePackedExtends(f, slot, s, t);
    } else {
      hide DecodeValue, DecodePacked;
      DecodeValueExtends(f, Target(f, slot), s, t);
    }
  }

  lemma DecodeSubmessageExtends(f: Field, m: Memory, p: nat, k: nat, s: seq<byte>, t: seq<byte>)
    requires PlacedField(f, p, |m|) && f.ltype.Submessage? && k < Entries(f) && Substream(s).Got?
    ensures DecodeSubmessage(f, m, p, k, s + t) == Append(DecodeSubmessage(f, m, p, k, s), t)
  {
    hide Substream, DecodeNoinit, SetDefaults, PlacedField;
    SubstreamExtends(s, t);
  }

  /** Past its length prefix a submessage field does not look at what follows its payload. */
  lemma DecodeSubFieldExtends(f: Field, m: Memory, p: nat, count: nat, s: seq<byte>, t: seq<byte>)
    requires PlacedField(f, p, |m|) && f.ltype.Submessage? && Substream(s).Got?
    ensures DecodeSubField(f, m, p, count, s + t) == Append(DecodeSubField(f, m, p, count, s), t)
  {
    hide DecodeSubmessage, PlacedField, PutSizeAt, CursorSlot, ResetMember, Substream;
    PlacedCells(f, p, |m|);
    var n := CursorSlot(m, f, p, count).size;
    match f.htype
    case Required => DecodeSubmessageExtends(f, m, p, 0, s, t);
    case Optional =>
      DecodeSubmessageExtends(f, if f.sizeOffset != 0 then PutSizeAt(m, f, p, 1) else m, p, 0, s, t);
    case Oneof =>
      DecodeSubmessageExtends(f, PutSizeAt(ResetMember(f, m, p), f, p, f.tag), p, 0, s, t);
    case Repeated =>
      if n < f.arraySize {
        DecodeSubmessageExtends(f, PutSizeAt(m, f, p, (n + 1) % TWO32), p, n, s, t);
      }
  }

  lemma DecodeSubFieldConsumes(f: Field, m: Memory, p: nat, count: nat, s: seq<byte>)
    requires PlacedField(f, p, |m|) && f.ltype.Submessage? && DecodeSubField(f, m, p, count, s).Ok?
    ensures Substream(s).Got? && Substream(s).rest == DecodeSubField(f, m, p, count, s).rest
  {
    hide PlacedField, PutSizeAt, CursorSlot, ResetMember, Substream, DecodeNoinit, SetDefaults;
  }

  lemma DecodeCellsExtends(f: Field, m: Memory, p: nat, count: nat, wireType: nat, s: seq<byte>, t: seq<byte>)
    requires PlacedField(f, p, |m|) && DecodeCells(f, m, p, count, wireType, s).Ok?
    ensures DecodeCells(f, m, p, count, wireType, s + t) == Append(DecodeCells(f, m, p, count, wireType, s), t)
  {
    hide DecodeSlot, DecodeSubField, PutSlotAt, FieldReaches, WellFormedField, Substream;
    if f.ltype.Submessage? {
      DecodeSubFieldConsumes(f, m, p, count, s);
      DecodeSubFieldExtends(f, m, p, count, s, t);
    } else {
      DecodeSlotExtends(f, CursorSlot(m, f, p, count), wireType, s, t);
    }
  }

  lemma DecodeRecordExtends(x: Struct, st: State, tag: nat, wireType: nat, s: seq<byte>, t: seq<byte>)
    requires StateFor(x, st) && DecodeRecord(x, st, tag, wireType, s).Ok?
    ensures DecodeRecord(x, st, tag, wireType, s + t) == Append(DecodeRecord(x, st, tag, wireType, s), t)
  {
    hide DecodeCells, SkipField, Placed, PlacedField, DecodeVarint32;
    var i := IndexOf(x.fields, tag);
    if i < |x.fields| {
      PlacedEntry(x, i, |st.mem|);
      DecodeCellsExtends(x.fields[i], st.mem, Addr(x, i), Enter(x.fields, st, i).fixedSize, wireType, s, t);
    } else if x.fields == [] && tag == 0 {
      DecodeVarint32Extends(s, t);
    } else {
      SkipFieldExtends(wireType, s, t);
    }
  }

  lemma LoopOfNothing(x: Struct, st: State)
    requires StateFor(x, st)
    ensures DecodeLoop(x, st, []) == Ended(st)
  {
  }

  /** Decoding a and then b is decoding a followed by b, from any state, unless a ends early. */
  lemma {:induction false} LoopConcat(x: Struct, st: State, a: seq<byte>, b: seq<byte>)
    requires StateFor(x, st) && DecodeLoop(x, st, a).Ended?
    ensures DecodeLoop(x, st, a + b) == DecodeLoop(x, DecodeLoop(x, st, a).st, b)
    decreases |a|
  {
    hide DecodeRecord, DecodeVarint32, Placed;
    if a == [] {
      assert a + b == b;
    } else {
      DecodeVarint32Extends(a, b);
      var key, rest := DecodeVarint32(a).value, DecodeVarint32(a).rest;
      DecodeRecordExtends(x, st, key / 8, key % 8, rest, b);
      var r := DecodeRecord(x, st, key / 8, key % 8, rest);
      LoopConcat(x, r.value, r.rest, b);
    }
  }

  /** The wire types decode_static_field expects for a field: its own, or packed. */
  predicate WireTypeAgrees(f: Field, wireType: nat) {
    wireType == WireType(f.ltype) || (wireType == STRING && f.htype.Repeated? && f.ltype.Packable())
  }

  lemma DecodeValueConsumes(f: Field, d: seq<byte>, s: seq<byte>)
    requires ItemFor(f, d) && !f.ltype.Submessage? && DecodeValue(f, d, s).Ok?
    ensures SkipField(WireType(f.ltype), s) == Got((), DecodeValue(f, d, s).rest)
  {
    if f.ltype.Bool? {
      hide DecodeVarint32;
      DecodeVarint32Consumes(s);
    } else {
      hide DecodeVarint32, VarintLen, Narrow, LittleEndian, FromLittleEndian, Write, Base128;
    }
  }

  lemma DecodeSlotConsumes(f: Field, slot: Slot, wireType: nat, s: seq<byte>)
    requires SlotFor(f, slot) && !f.ltype.Submessage? && WireTypeAgrees(f, wireType)
    requires DecodeSlot(f, slot, wireType, s).Ok?
    ensures SkipField(wireType, s) == Got((), DecodeSlot(f, slot, wireType, s).rest)
  {
    if f.htype.Repeated? && wireType == STRING && f.ltype.Packable() {
      hide Substream, PackedLoop;
    } else {
      hide DecodeValue, DecodePacked, SkipField;
      DecodeValueConsumes(f, Target(f, slot), s);
    }
  }

  /** A successfully decoded record ends where skipping it would. */
  lemma DecodeCellsConsumes(f: Field, m: Memory, p: nat, count: nat, wireType: nat, s: seq<byte>)
    requires PlacedField(f, p, |m|) && WireTypeAgrees(f, wireType) && DecodeCells(f, m, p, count, wireType, s).Ok?
    ensures SkipField(wireType, s) == Got((), DecodeCells(f, m, p, count, wireType, s).rest)
  {
    hide DecodeSlot, DecodeSubField, PutSlotAt, FieldReaches, WellFormedField, Substream, CursorSlot;
    if f.ltype.Submessage? {
      DecodeSubFieldConsumes(f, m, p, count, s);
    } else {
      DecodeSlotConsumes(f, CursorSlot(m, f, p, count), wireType, s);
    }
  }

  // ---- Complete payloads ----

  lemma DecodeScalarComplete(f: Field, d: seq<byte>, s: seq<byte>, t: seq<byte>)
    requires ItemFor(f, d) && f.ltype.Packable() && SkipField(WireType(f.ltype), s).Got?
    ensures DecodeScalar(f, d, s + t) == Append(DecodeScalar(f, d, s), t)
  {
    hide DecodeVarint32, Narrow, LittleEndian, FromLittleEndian, Base128, VarintLen;
    if DecodeScalar(f, d, s).Ok? {
      DecodeScalarExtends(f, d, s, t);
    } else if f.ltype.Bool? {
      DecodeVarint32Complete(s, t);
    } else {
      VarintLenExtends(s, t);
      TakeExtends(s, t, VarintLen(s));
    }
  }

  lemma DecodeValueComplete(f: Field, d: seq<byte>, s: seq<byte>, t: seq<byte>)
    requires ItemFor(f, d) && !f.ltype.Submessage? && SkipField(WireType(f.ltype), s).Got?
    ensures DecodeValue(f, d, s + t) == Append(DecodeValue(f, d, s), t)
  {
    if f.ltype.Packable() {
      DecodeScalarComplete(f, d, s, t);
    } else if DecodeValue(f, d, s).Ok? {
      DecodeValueExtends(f, d, s, t);
    } else {
      hide DecodeVarint32, LittleEndian, Write;
      DecodeVarint32Extends(s, t);
    }
  }

  lemma DecodeSlotComplete(f: Field, slot: Slot, wireType: nat, s: seq<byte>, t: seq<byte>)
    requires SlotFor(f, slot) && !f.ltype.Submessage? && WireTypeAgrees(f, wireType) && SkipField(wireType, s).Got?
    ensures DecodeSlot(f, slot, wireType, s + t) == Append(DecodeSlot(f, slot, wireType, s), t)
  {
    if f.htype.Repeated? && wireType == STRING && f.ltype.Packable() {
      hide Substream, PackedLoop;
      SubstreamExtends(s, t);
    } else if f.htype.Repeated? && slot.size >= f.arraySize {
    } else {
      hide DecodeValue, DecodePacked, SkipField;
      DecodeValueComplete(f, Target(f, slot), s, t);
    }
  }

  /** On a complete payload the outcome, success or failure, does not depend on what follows. */
  lemma DecodeCellsComplete(f: Field, m: Memory, p: nat, count: nat, wireType: nat, s: seq<byte>, t: seq<byte>)
    requires PlacedField(f, p, |m|) && WireTypeAgrees(f, wireType) && SkipField(wireType, s).Got?
    ensures DecodeCells(f, m, p, count, wireType, s + t) == Append(DecodeCells(f, m, p, count, wireType, s), t)
  {
    hide DecodeSlot, DecodeSubField, PutSlotAt, FieldReaches, WellFormedField, Substream, CursorSlot;
    if f.ltype.Submessage? {
      DecodeSubFieldExtends(f, m, p, count, s, t);
    } else {
      DecodeSlotComplete(f, CursorSlot(m, f, p, count), wireType, s, t);
    }
  }
}
