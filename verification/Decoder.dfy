/** pb_decode.c as it runs: the record loop, the field iterator and the value decoders work in place
    on struct memory and share one input stream. Each is shown to do what module Decoding says. */
module Decoder {
  import opened Bits
  import opened Wire
  import opened Descriptor
  import opened StructMemory
  import opened FieldIterator
  import opened Encoding
  import opened Decoding
  import opened InputStream
  import opened SeenBits
  import opened ValueDecoder
  import Records
  import RequiredFields

  // ---- Default values ----

  /** pb_field_set_to_default; q is the iterator's pSize. */
  method SetFieldToDefault(f: Field, dest: array<byte>, p: nat, q: int)
    requires PlacedField(f, p, dest.Length) && q == p + f.sizeOffset
    modifies dest
    ensures dest[..] == DefaultField(f, old(dest[..]), p)
    decreases f, 0
  {
    hide SetDefaults, Write, WellFormed, Reaches, SubAt, LittleEndian;
    PlacedCells(f, p, dest.Length);
    var initData := true;
    if f.htype.Optional? && q != p {
      ZeroBytes(1);
      Store(dest, q, Zeros(1));
    } else if f.htype.Repeated? || f.htype.Oneof? {
      ZeroBytes(SIZE_BYTES);
      Store(dest, q, Zeros(SIZE_BYTES));
      initData := false;
    }
    if initData {
      if f.ltype.Submessage? {
        EntryZero(f, p, dest.Length);
        SetToDefaults(f.ptr.fields, dest, p, f.dataSize);
      } else if f.ptr.Default? {
        Store(dest, p, f.ptr.bytes);
      } else {
        Store(dest, p, Zeros(f.dataSize));
      }
    }
  }

  lemma EntryZero(f: Field, p: nat, len: nat)
    requires PlacedField(f, p, len) && f.ltype.Submessage? && !f.htype.Repeated?
    ensures f.ptr.Sub? && SubAt(f, p, 0) == Struct(f.ptr.fields, p, f.dataSize) && Placed(SubAt(f, p, 0), len)
  {
    PlacedSub(f, p, len, 0);
    hide Placed;
  }

  /** pb_message_set_to_defaults. */
  method SetToDefaults(fields: seq<Field>, dest: array<byte>, base: nat, ghost size: nat)
    requires Placed(Struct(fields, base, size), dest.Length)
    modifies dest
    ensures dest[..] == SetDefaults(Struct(fields, base, size), old(dest[..]))
    decreases fields, 0
  {
    hide Placed, PlacedField, DefaultsFrom, DefaultField;
    ghost var x, m := Struct(fields, base, size), dest[..];
    PlacedTags(x, dest.Length);
    var iter := new FieldIter();
    var more := iter.Begin(fields, base);
    while more
      invariant iter.Valid() && iter.start == fields && iter.destStruct == base && fresh(iter)
      invariant more ==> iter.pos < |fields|
      invariant SetDefaults(x, m) == DefaultsFrom(x, dest[..], if more then iter.pos else |fields|)
      decreases if more then |fields| - iter.pos else 0
    {
      var i := iter.pos;
      PlacedEntry(x, i, dest.Length);
      DefaultsStep(x, dest[..], i);
      SetFieldToDefault(fields[i], dest, iter.pData, iter.pSize);
      more := iter.Next();
    }
    DefaultsEnd(x, dest[..]);
  }

  lemma PlacedTags(x: Struct, len: nat)
    requires Placed(x, len)
    ensures (forall k :: 0 <= k < |x.fields| ==> x.fields[k].tag != 0) && DistinctTags(x.fields)
    ensures x.fields == [] ==> x.base + 1 <= len
  {
    TagsNonzero(x.fields, x.size);
  }

  lemma DefaultsStep(x: Struct, m: Memory, i: nat)
    requires Placed(x, |m|) && i < |x.fields| && PlacedField(x.fields[i], Addr(x, i), |m|)
    ensures DefaultsFrom(x, m, i) == DefaultsFrom(x, DefaultField(x.fields[i], m, Addr(x, i)), i + 1)
  {
    hide Placed, PlacedField, DefaultField;
  }

  lemma DefaultsEnd(x: Struct, m: Memory)
    requires Placed(x, |m|)
    ensures DefaultsFrom(x, m, |x.fields|) == m
  {
  }

  // ---- Values ----

  /** The value decoder of the field's type, run on entry k of a field at p. */
  ghost function ValueAt(f: Field, m: Memory, p: nat, k: nat, s: seq<byte>): (r: Result<Memory>)
    requires PlacedField(f, p, |m|) && k < Entries(f)
    ensures |r.value| == |m|
  {
    if f.ltype.Submessage? then DecodeSubmessage(f, m, p, k, s)
    else
      EntryInData(f, p, k);
      var a := EntryAddr(f, p, k);
      match DecodeValue(f, Read(m, a, f.dataSize), s)
      case Fail(d) => Fail(Write(m, a, d))
      case Ok(d, rest) => Ok(Write(m, a, d), rest)
  }

  /** The answer, the memory and the input left are those of r. */
  ghost predicate Does(r: Result<Memory>, ok: bool, m: Memory, unread: seq<byte>) {
    (ok <==> r.Ok?) && m == r.value && (ok ==> unread == r.rest)
  }

  /** PB_DECODERS[ltype], called with the address of entry k. */
  method CallDecoder(stream: IStream, f: Field, dest: array<byte>, a: nat, ghost p: nat, ghost k: nat)
    returns (ok: bool)
    requires stream.Valid() && stream.buf != dest && PlacedField(f, p, dest.Length)
    requires k < Entries(f) && a == EntryAddr(f, p, k)
    modifies stream, dest
    ensures stream.Valid() && stream.End() <= old(stream.End()) && (ok ==> stream.End() == old(stream.End()))
    ensures Does(ValueAt(f, old(dest[..]), p, k, old(stream.Unread())), ok, dest[..], stream.Unread())
    decreases f, 2
  {
    hide DecodeScalar, DecodeBytes, DecodeString, DecodeFixedLengthBytes, DecodeSubmessage, WellFormed, Write,
      Read, FieldReaches, CellsFor, DataLen;
    EntryInData(f, p, k);
    PlacedCells(f, p, dest.Length);
    DataInside(f, p, dest.Length);
    if f.ltype.Packable() {
      ok := DecScalar(stream, f, dest, a);
      return;
    }
    match f.ltype
    case Bytes => ok := DecBytes(stream, f, dest, a);
    case String => ok := DecString(stream, f, dest, a);
    case Submessage => ok := DecSubmessage(stream, f, dest, a, p, k);
    case FixedLengthBytes => ok := DecFixedLengthBytes(stream, f, dest, a);
  }

  lemma DataInside(f: Field, p: nat, len: nat)
    requires CellsFor(f, p, len)
    ensures p + DataLen(f) <= len
  {
  }

  /** pb_dec_submessage. */
  method DecSubmessage(stream: IStream, f: Field, dest: array<byte>, a: nat, ghost p: nat, ghost k: nat)
    returns (ok: bool)
    requires stream.Valid() && stream.buf != dest && PlacedField(f, p, dest.Length) && f.ltype.Submessage?
    requires k < Entries(f) && a == EntryAddr(f, p, k)
    modifies stream, dest
    ensures stream.Valid() && stream.End() <= old(stream.End()) && (ok ==> stream.End() == old(stream.End()))
    ensures Does(DecodeSubmessage(f, old(dest[..]), p, k, old(stream.Unread())), ok, dest[..], stream.Unread())
    decreases f, 1
  {
    hide WellFormed, Substream, SetDefaults, DecodeNoinit, Reaches;
    PlacedSub(f, p, dest.Length, k);
    var substream;
    ok, substream := stream.MakeStringSubstream();
    if !ok {
      return;
    }
    if f.htype.Repeated? {
      ok := DecodeMessage(substream, f.ptr.fields, dest, a, f.dataSize);
    } else {
      ok := DecodeMessageNoinit(substream, f.ptr.fields, dest, a, f.dataSize);
    }
    var closed := stream.CloseStringSubstream(substream);
  }

  // ---- Counts ----

  /** *pSize of a repeated field. */
  method LoadCount(f: Field, dest: array<byte>, p: nat, q: int, count: nat) returns (n: nat)
    requires f.htype.Repeated? && CellsFor(f, p, dest.Length) && q == p + f.sizeOffset
    ensures n == CursorSlot(dest[..], f, p, count).size
  {
    hide FromLittleEndian, DataLen;
    if q == p {
      return count;
    }
    n := FromLittleEndian(dest[q..q + SIZE_BYTES]);
    assert dest[q..q + SIZE_BYTES] == Read(dest[..], q, SIZE_BYTES);
  }

  /** *pSize = n for a repeated field. */
  method StoreCount(f: Field, dest: array<byte>, p: nat, q: int, count: nat, n: nat) returns (count': nat)
    requires f.htype.Repeated? && CellsFor(f, p, dest.Length) && q == p + f.sizeOffset && n < TWO32
    modifies dest
    ensures dest[..] == PutSizeAt(old(dest[..]), f, p, n)
    ensures count' == if FixedCount(f) then n else count
  {
    hide LittleEndian, DataLen, Write;
    if q == p {
      return n;
    }
    Store(dest, q, LittleEndian(n, SIZE_BYTES));
    count' := count;
  }

  /** A count loaded and stored, seen from the field's cells. */
  lemma HoldsLoad(m0: Memory, f: Field, p: nat, slot: Slot, m: Memory, count: nat)
    requires Holds(m0, f, p, slot, m, count) && f.htype.Repeated?
    ensures CellsFor(f, p, |m|) && CursorSlot(m, f, p, count).size == slot.size
  {
    hide PutSlotAt, FromLittleEndian, DataLen, Read;
    if !FixedCount(f) {
      HoldsSizeRead(m0, f, p, slot, m, count);
    }
  }

  lemma HoldsStore(m0: Memory, f: Field, p: nat, slot: Slot, m: Memory, count: nat, n: nat)
    requires Holds(m0, f, p, slot, m, count) && f.htype.Repeated? && n < TWO32
    ensures CellsFor(f, p, |m|)
    ensures Holds(m0, f, p, slot.(size := n), PutSizeAt(m, f, p, n), if FixedCount(f) then n else count)
  {
    hide PutSlotAt, LittleEndian, DataLen, Write;
    if FixedCount(f) {
      HoldsLocal(m0, f, p, slot, m, count, n);
    } else {
      SizeFitsFacts(f, n);
      HoldsSize(m0, f, p, slot, m, count, n);
    }
  }

  // ---- Packed arrays ----

  /** The loop over a packed array. */
  method DecodePackedItems(stream: IStream, f: Field, dest: array<byte>, p: nat, q: int, count: nat,
                           ghost m0: Memory, ghost slot: Slot) returns (ok: bool, count': nat)
    requires stream.Valid() && stream.buf != dest && WellFormedField(f) && f.htype.Repeated? && f.ltype.Packable()
    requires Holds(m0, f, p, slot, dest[..], count) && |slot.data| == DataLen(f) && q == p + f.sizeOffset
    modifies stream, dest
    ensures stream.Valid() && stream.End() == old(stream.End())
    ensures ok <==> PackedLoop(f, slot, old(stream.Unread())).Ok?
    ensures Holds(m0, f, p, PackedLoop(f, slot, old(stream.Unread())).value, dest[..], count')
    ensures ok ==> stream.Unread() == PackedLoop(f, slot, old(stream.Unread())).rest
    ensures !FixedCount(f) ==> count' == count
  {
    hide Holds, WellFormedField, DecodeScalar, PackedLoop, Write, Read, CursorSlot, PutSizeAt;
    ghost var cur := slot;
    count' := count;
    HoldsLoad(m0, f, p, cur, dest[..], count');
    var size := LoadCount(f, dest, p, q, count');
    while stream.bytesLeft > 0 && size < f.arraySize
      invariant stream.Valid() && stream.End() == old(stream.End())
      invariant Holds(m0, f, p, cur, dest[..], count') && size == cur.size && |cur.data| == DataLen(f)
      invariant PackedLoop(f, slot, old(stream.Unread())) == PackedLoop(f, cur, stream.Unread())
      invariant !FixedCount(f) ==> count' == count
      decreases stream.bytesLeft
    {
      ghost var m, s := dest[..], stream.Unread();
      ItemInside(f, size);
      HoldsRead(m0, f, p, cur, m, count', f.dataSize * size, f.dataSize);
      ok := DecScalar(stream, f, dest, p + f.dataSize * size);
      ghost var d := ItemAt(f, cur.data, size);
      PackedStep(f, cur, s);
      HoldsData(m0, f, p, cur, m, count', f.dataSize * size, DecodeScalar(f, d, s).value);
      cur := cur.(data := PutItem(f, cur.data, size, DecodeScalar(f, d, s).value));
      if !ok {
        return;
      }
      FieldSizes(f);
      HoldsStore(m0, f, p, cur, dest[..], count', size + 1);
      count' := StoreCount(f, dest, p, q, count', size + 1);
      cur := cur.(size := size + 1);
      HoldsLoad(m0, f, p, cur, dest[..], count');
      size := LoadCount(f, dest, p, q, count');
    }
    PackedStop(f, cur, stream.Unread());
    ok := true;
  }

  lemma PackedStop(f: Field, slot: Slot, s: seq<byte>)
    requires SlotFor(f, slot) && f.htype.Repeated? && f.ltype.Packable() && (s == [] || slot.size >= f.arraySize)
    ensures PackedLoop(f, slot, s) == Ok(slot, s)
  {
  }

  lemma PackedStep(f: Field, slot: Slot, s: seq<byte>)
    requires SlotFor(f, slot) && f.htype.Repeated? && f.ltype.Packable() && s != [] && slot.size < f.arraySize
    ensures var r := DecodeScalar(f, ItemAt(f, slot.data, slot.size), s);
            var data := PutItem(f, slot.data, slot.size, r.value);
            && (r.Fail? ==> PackedLoop(f, slot, s) == Fail(slot.(data := data)))
            && (r.Ok? ==> PackedLoop(f, slot, s) == PackedLoop(f, Slot(slot.size + 1, data), r.rest))
  {
    hide DecodeScalar, WellFormedField;
  }

  /** What decode_static_field does: the answer, memory with the local count of a fixed-count array,
      and the input after the record. */
  ghost predicate DoesCells(r: Result<Cells>, ok: bool, m: Memory, count: nat, unread: seq<byte>) {
    (ok <==> r.Ok?) && m == r.value.mem && count == r.value.count && (ok ==> unread == r.rest)
  }

  /** The packed case of decode_static_field. */
  method DecodePackedField(stream: IStream, f: Field, dest: array<byte>, p: nat, q: int, count: nat)
    returns (ok: bool, count': nat)
    requires stream.Valid() && stream.buf != dest && f.htype.Repeated? && f.ltype.Packable()
    requires PlacedField(f, p, dest.Length) && q == p + f.sizeOffset
    modifies stream, dest
    ensures stream.Valid() && stream.End() <= old(stream.End()) && (ok ==> stream.End() == old(stream.End()))
    ensures DoesCells(DecodeCells(f, old(dest[..]), p, count, STRING, old(stream.Unread())),
                      ok, dest[..], count', stream.Unread())
  {
    hide Holds, PlacedField, WellFormedField, PackedLoop, Substream, CursorSlot, Stored, CellsFor, DecodeCells;
    PlacedCells(f, p, dest.Length);
    ghost var m, s := dest[..], stream.Unread();
    ghost var slot := CursorSlot(m, f, p, count);
    HoldsStart(m, f, p, count);
    HoldsStored(m, f, p, slot, m, count, count);
    PackedIsCells(f, m, p, count, s);
    count' := count;
    var substream;
    ok, substream := stream.MakeStringSubstream();
    if !ok {
      return;
    }
    var status;
    status, count' := DecodePackedItems(substream, f, dest, p, q, count, m, slot);
    HoldsStored(m, f, p, PackedLoop(f, slot, Substream(s).value).value, dest[..], count', count);
    if substream.bytesLeft != 0 {
      ok := false;
      return;
    }
    var closed := stream.CloseStringSubstream(substream);
    ok := status;
  }

  lemma PackedIsCells(f: Field, m: Memory, p: nat, count: nat, s: seq<byte>)
    requires PlacedField(f, p, |m|) && CellsFor(f, p, |m|) && f.htype.Repeated? && f.ltype.Packable()
    ensures var slot, r := CursorSlot(m, f, p, count), DecodeCells(f, m, p, count, STRING, s);
            if Substream(s).Bad? then r == Fail(Stored(f, m, p, count, slot))
            else
              var run := PackedLoop(f, slot, Substream(s).value);
              var c := Stored(f, m, p, count, run.value);
              r == if run.Ok? && run.rest == [] then Ok(c, Substream(s).rest) else Fail(c)
  {
    hide PackedLoop, Substream, PlacedField, CursorSlot, Stored, CellsFor;
  }

  lemma HoldsStored(m0: Memory, f: Field, p: nat, slot: Slot, m: Memory, count: nat, before: nat)
    requires Holds(m0, f, p, slot, m, count) && (!FixedCount(f) ==> count == before)
    ensures Stored(f, m0, p, before, slot) == Cells(m, count)
  {
    hide PutSlotAt;
  }

  // ---- Other fields, step by step ----

  /** decode_static_field in the order of the code: first the has_ flag, the count or the which_ value,
      then the value. */
  ghost function InOrder(f: Field, m: Memory, p: nat, count: nat, s: seq<byte>): Result<Cells>
    requires PlacedField(f, p, |m|)
  {
    var n := CursorSlot(m, f, p, count).size;
    match f.htype
    case Required => WithCount(ValueAt(f, m, p, 0, s), count)
    case Optional => WithCount(ValueAt(f, if f.sizeOffset != 0 then PutSizeAt(m, f, p, 1) else m, p, 0, s), count)
    case Oneof =>
      var m1 := if f.ltype.Submessage? then ResetMember(f, m, p) else m;
      WithCount(ValueAt(f, PutSizeAt(m1, f, p, f.tag), p, 0, s), count)
    case Repeated =>
      var next := (n + 1) % TWO32;
      var m1, count1 := PutSizeAt(m, f, p, next), if FixedCount(f) then next else count;
      if n >= f.arraySize then Fail(Cells(m1, count1)) else WithCount(ValueAt(f, m1, p, n, s), count1)
  }

  /** The specification puts a whole slot back; the code stores its parts one by one. */
  lemma CellsInOrder(f: Field, m: Memory, p: nat, count: nat, wireType: nat, s: seq<byte>)
    requires PlacedField(f, p, |m|) && !(f.htype.Repeated? && wireType == STRING && f.ltype.Packable())
    ensures DecodeCells(f, m, p, count, wireType, s) == InOrder(f, m, p, count, s)
  {
    hide DecodeSubmessage, DecodeValue, PlacedField, CursorSlot, PutSizeAt, PutSlotAt, WellFormedField, ResetMember,
      Write, Read;
    PlacedCells(f, p, |m|);
    if !f.ltype.Submessage? {
      var slot := CursorSlot(m, f, p, count);
      CursorData(m, f, p, count);
      if f.htype.Repeated? {
        RepeatedInOrder(f, m, p, count, s);
      } else {
        SingleInOrder(f, m, p, count, s);
      }
    }
  }

  lemma CursorData(m: Memory, f: Field, p: nat, count: nat)
    requires CellsAt(f, p, |m|)
    ensures CursorSlot(m, f, p, count).data == Read(m, p, DataLen(f))
    ensures FixedCount(f) ==> CursorSlot(m, f, p, count).size == count
  {
  }

  /** A slot whose data changed in part is stored by storing the size and that part. */
  lemma PutPart(m: Memory, f: Field, p: nat, n: nat, off: nat, b: seq<byte>)
    requires CellsFor(f, p, |m|) && off + |b| <= DataLen(f)
    ensures PutSlotAt(m, f, p, Slot(n, Write(Read(m, p, DataLen(f)), off, b)))
        == Write(PutSizeAt(m, f, p, n), p + off, b)
    ensures Read(PutSizeAt(m, f, p, n), p + off, |b|) == Read(Read(m, p, DataLen(f)), off, |b|)
  {
    var d := Read(m, p, DataLen(f));
    SlotAtPutSize(m, f, p, n);
    assert PutSlotAt(m, f, p, Slot(n, d)) == PutSizeAt(m, f, p, n) by {
      WriteRead(PutSizeAt(m, f, p, n), p, DataLen(f));
    }
    hide Write, DataLen, FromLittleEndian, LittleEndian;
    PutSlotAtData(m, f, p, Slot(n, d), off, b);
    ReadPutSlotAt(m, f, p, Slot(n, d), off, |b|);
  }

  lemma SingleInOrder(f: Field, m: Memory, p: nat, count: nat, s: seq<byte>)
    requires PlacedField(f, p, |m|) && CellsFor(f, p, |m|) && !f.ltype.Submessage? && !f.htype.Repeated?
    ensures DecodeCells(f, m, p, count, 0, s) == InOrder(f, m, p, count, s)
  {
    hide DecodeValue, PlacedField, PutSlotAt, WellFormedField, Write, Read, FromLittleEndian, LittleEndian, CellsFor;
    PlacedCells(f, p, |m|);
    var n := if f.htype.Oneof? then f.tag else 1;
    var d := SlotAt(m, f, p).data;
    var r := DecodeValue(f, d, s);
    PutPart(m, f, p, n, 0, r.value);
    WriteWhole(d, r.value);
    if SizeLen(f) == 0 {
      NoSizeCell(m, f, p, Slot(n, r.value), SlotAt(m, f, p).size);
    }
  }

  lemma RepeatedInOrder(f: Field, m: Memory, p: nat, count: nat, s: seq<byte>)
    requires PlacedField(f, p, |m|) && CellsFor(f, p, |m|) && !f.ltype.Submessage? && f.htype.Repeated?
    ensures DecodeCells(f, m, p, count, VARINT, s) == InOrder(f, m, p, count, s)
  {
    hide DecodeValue, PlacedField, PutSlotAt, WellFormedField, Write, Read, CellsFor, PutSizeAt, CursorSlot;
    PlacedCells(f, p, |m|);
    var slot := CursorSlot(m, f, p, count);
    CursorData(m, f, p, count);
    var n := slot.size;
    if n >= f.arraySize {
      PutPart(m, f, p, (n + 1) % TWO32, 0, []);
      WriteNone(slot.data, 0);
      WriteNone(PutSizeAt(m, f, p, (n + 1) % TWO32), p);
    } else {
      ItemInside(f, n);
      FieldSizes(f);
      ModSmall(n + 1, TWO32);
      var r := DecodeValue(f, ItemAt(f, slot.data, n), s);
      PutPart(m, f, p, n + 1, f.dataSize * n, r.value);
    }
  }

  lemma WriteNone(m: Memory, p: nat)
    requires p <= |m|
    ensures Write(m, p, []) == m
  {
  }

  // ---- Fields ----

  /** decode_static_field; p and q are the iterator's pData and pSize, `count` the local variable
      that pSize points to for a fixed-count array. */
  method DecodeStaticField(stream: IStream, wireType: nat, f: Field, dest: array<byte>, p: nat, q: int, count: nat)
    returns (ok: bool, count': nat)
    requires stream.Valid() && stream.buf != dest && PlacedField(f, p, dest.Length) && q == p + f.sizeOffset
    modifies stream, dest
    ensures stream.Valid() && stream.End() <= old(stream.End()) && (ok ==> stream.End() == old(stream.End()))
    ensures DoesCells(DecodeCells(f, old(dest[..]), p, count, wireType, old(stream.Unread())),
                      ok, dest[..], count', stream.Unread())
    decreases f, 4
  {
    hide PlacedField, DecodeCells, ValueAt, CursorSlot, PutSizeAt, CellsFor, InOrder;
    count' := count;
    if f.htype.Repeated? && wireType == STRING && f.ltype.Packable() {
      ok, count' := DecodePackedField(stream, f, dest, p, q, count);
      return;
    }
    CellsInOrder(f, dest[..], p, count, wireType, stream.Unread());
    PlacedCells(f, p, dest.Length);
    match f.htype
    case Required => ok := DecodeRequired(stream, f, dest, p, count);
    case Optional => ok := DecodeOptional(stream, f, dest, p, q, count);
    case Repeated => ok, count' := DecodeEntry(stream, f, dest, p, q, count);
    case Oneof => ok := DecodeMember(stream, f, dest, p, q, count);
  }

  method DecodeRequired(stream: IStream, f: Field, dest: array<byte>, p: nat, ghost count: nat) returns (ok: bool)
    requires stream.Valid() && stream.buf != dest && PlacedField(f, p, dest.Length) && f.htype.Required?
    modifies stream, dest
    ensures stream.Valid() && stream.End() <= old(stream.End()) && (ok ==> stream.End() == old(stream.End()))
    ensures DoesCells(InOrder(f, old(dest[..]), p, count, old(stream.Unread())), ok, dest[..], count, stream.Unread())
    decreases f, 3
  {
    hide PlacedField, ValueAt, CursorSlot;
    ok := CallDecoder(stream, f, dest, p, p, 0);
  }

  /** An optional field: the has_ flag is set before the value is read. */
  method DecodeOptional(stream: IStream, f: Field, dest: array<byte>, p: nat, q: int, ghost count: nat)
    returns (ok: bool)
    requires stream.Valid() && stream.buf != dest && PlacedField(f, p, dest.Length) && f.htype.Optional?
    requires q == p + f.sizeOffset
    modifies stream, dest
    ensures stream.Valid() && stream.End() <= old(stream.End()) && (ok ==> stream.End() == old(stream.End()))
    ensures DoesCells(InOrder(f, old(dest[..]), p, count, old(stream.Unread())), ok, dest[..], count, stream.Unread())
    decreases f, 3
  {
    hide WellFormedField, FieldReaches, ValueAt, CursorSlot, Write, LittleEndian, DataLen;
    if q != p {
      OneFlag();
      Store(dest, q, [1]);
    }
    ok := CallDecoder(stream, f, dest, p, p, 0);
  }

  lemma OneFlag()
    ensures LittleEndian(1, 1) == [1]
  {
    assert LittleEndian(0, 0) == [];
  }

  /** One entry of a repeated field. */
  method DecodeEntry(stream: IStream, f: Field, dest: array<byte>, p: nat, q: int, count: nat)
    returns (ok: bool, count': nat)
    requires stream.Valid() && stream.buf != dest && PlacedField(f, p, dest.Length) && f.htype.Repeated?
    requires q == p + f.sizeOffset
    modifies stream, dest
    ensures stream.Valid() && stream.End() <= old(stream.End()) && (ok ==> stream.End() == old(stream.End()))
    ensures DoesCells(InOrder(f, old(dest[..]), p, count, old(stream.Unread())), ok, dest[..], count', stream.Unread())
    decreases f, 3
  {
    hide PlacedField, CellsFor, CellsAt, WellFormedField, ValueAt, CursorSlot, PutSizeAt, DataLen;
    PlacedCells(f, p, dest.Length);
    var size := LoadCount(f, dest, p, q, count);
    count' := StoreCount(f, dest, p, q, count, (size + 1) % TWO32);
    if size >= f.arraySize {
      return false, count';
    }
    ok := CallDecoder(stream, f, dest, p + f.dataSize * size, p, size);
  }

  /** A oneof member: a submessage is cleared when the union held another member. */
  method DecodeMember(stream: IStream, f: Field, dest: array<byte>, p: nat, q: int, ghost count: nat) returns (ok: bool)
    requires stream.Valid() && stream.buf != dest && PlacedField(f, p, dest.Length) && f.htype.Oneof?
    requires q == p + f.sizeOffset
    modifies stream, dest
    ensures stream.Valid() && stream.End() <= old(stream.End()) && (ok ==> stream.End() == old(stream.End()))
    ensures DoesCells(InOrder(f, old(dest[..]), p, count, old(stream.Unread())), ok, dest[..], count, stream.Unread())
    decreases f, 3
  {
    hide PlacedField, CellsFor, ValueAt, CursorSlot, ResetMember, Write, LittleEndian, SlotAt, FromLittleEndian, Placed;
    ghost var m := dest[..];
    MemberCells(f, p, dest.Length);
    WhichOf(f, m, p);
    assert dest[q..q + SIZE_BYTES] == Read(m, q, SIZE_BYTES) by { ReadSlice(dest, q, SIZE_BYTES); }
    if f.ltype.Submessage? {
      EntryZero(f, p, dest.Length);
      ResetIs(f, m, p);
      if FromLittleEndian(dest[q..q + SIZE_BYTES]) != f.tag {
        Store(dest, p, Zeros(f.dataSize));
        SetToDefaults(f.ptr.fields, dest, p, f.dataSize);
      }
    }
    Store(dest, q, LittleEndian(f.tag, SIZE_BYTES));
    ok := CallDecoder(stream, f, dest, p, p, 0);
  }

  lemma MemberCells(f: Field, p: nat, len: nat)
    requires PlacedField(f, p, len) && f.htype.Oneof?
    ensures CellsFor(f, p, len) && CellsAt(f, p, len) && p + f.dataSize <= len && SizeLen(f) == SIZE_BYTES
    ensures 0 <= p + f.sizeOffset && p + f.sizeOffset + SIZE_BYTES <= len && f.tag < TWO32
  {
  }

  lemma WhichOf(f: Field, m: Memory, p: nat)
    requires CellsAt(f, p, |m|) && SizeLen(f) == SIZE_BYTES
    ensures SlotAt(m, f, p).size == FromLittleEndian(Read(m, p + f.sizeOffset, SIZE_BYTES))
  {
  }

  lemma ResetIs(f: Field, m: Memory, p: nat)
    requires PlacedField(f, p, |m|) && f.htype.Oneof? && f.ltype.Submessage? && CellsAt(f, p, |m|)
    requires p + f.dataSize <= |m| && f.ptr.Sub? && Placed(SubAt(f, p, 0), |m|)
    ensures ResetMember(f, m, p) == if SlotAt(m, f, p).size == f.tag then m
                                    else SetDefaults(SubAt(f, p, 0), Write(m, p, Zeros(f.dataSize)))
  {
    hide Placed, PlacedField, SlotAt, SetDefaults, Write;
  }

  // ---- Messages ----

  /** What one record does: the answer, memory and the local variables, and the input left. */
  ghost predicate DoesState(r: Result<State>, ok: bool, st: State, unread: seq<byte>) {
    (ok <==> r.Ok?) && st == r.value && (ok ==> unread == r.rest)
  }

  /** The part of the record loop after the iterator found an entry. */
  method DecodeKnownField(stream: IStream, wireType: nat, iter: FieldIter, seen: FieldsSeen, dest: array<byte>,
                          fixedField: Option<nat>, fixedSize: nat, ghost x: Struct)
    returns (ok: bool, fixedField': Option<nat>, fixedSize': nat)
    requires stream.Valid() && stream.buf != dest && seen.Valid() && iter.Valid() && iter.start != []
    requires x.fields == iter.start && x.base == iter.destStruct
    requires StateFor(x, State(dest[..], seen.seen, fixedField, fixedSize))
    modifies stream, dest, seen
    ensures stream.Valid() && stream.End() <= old(stream.End()) && (ok ==> stream.End() == old(stream.End()))
    ensures seen.Valid() && iter.Valid()
    ensures DoesState(DecodeField(x, State(old(dest[..]), old(seen.seen), fixedField, fixedSize), iter.pos, wireType,
                                  old(stream.Unread())),
                      ok, State(dest[..], seen.seen, fixedField', fixedSize'), stream.Unread())
    decreases x.fields, 1
  {
    hide Placed, PlacedField, DecodeCells, RequiredBefore, PData, PSize;
    ghost var st := State(dest[..], seen.seen, fixedField, fixedSize);
    var i, f := iter.pos, iter.start[iter.pos];
    fixedField', fixedSize' := fixedField, fixedSize;
    PlacedEntry(x, i, dest.Length);
    if f.htype.Repeated? && iter.pSize == iter.pData {
      if fixedField != Some(i) {
        if fixedField.Some? && fixedSize != iter.start[fixedField.value].arraySize {
          return false, fixedField', fixedSize';
        }
        fixedField' := Some(i);
        fixedSize' := 0;
      }
    }
    if f.htype.Required? && iter.requiredFieldIndex < MAX_REQUIRED_FIELDS {
      seen.Set(iter.requiredFieldIndex);
    }
    assert Enter(x.fields, st, i) == State(dest[..], seen.seen, fixedField', fixedSize');
    ok, fixedSize' := DecodeStaticField(stream, wireType, f, dest, iter.pData, iter.pSize, fixedSize');
  }

  /** The record loop's last branch on an empty table: tag 0 finds the terminating entry, which is
      decoded as a required bool at the start of the struct. */
  method DecodeTerminatorBool(stream: IStream, seen: FieldsSeen, dest: array<byte>, base: nat,
                              fixedField: Option<nat>, fixedSize: nat, ghost x: Struct) returns (ok: bool)
    requires stream.Valid() && stream.buf != dest && seen.Valid() && base == x.base && base + 1 <= dest.Length
    modifies stream, dest, seen
    ensures stream.Valid() && stream.End() == old(stream.End()) && seen.Valid()
    ensures DoesState(DecodeTerminator(x, State(old(dest[..]), old(seen.seen), fixedField, fixedSize),
                                       old(stream.Unread())),
                      ok, State(dest[..], seen.seen, fixedField, fixedSize), stream.Unread())
  {
    hide DecodeVarint32, Write;
    seen.Set(0);
    var value, eof;
    ok, value, eof := stream.DecodeVarint32Eof();
    if !ok {
      return;
    }
    Store(dest, base, [if value != 0 then 1 else 0]);
  }

  /** The number of required entries, found by moving the iterator on to the end of the table. */
  method CountRequired(iter: FieldIter) returns (count: nat)
    requires iter.Valid()
    modifies iter
    ensures count == RequiredBefore(iter.start, |iter.start|) && iter.start == old(iter.start)
  {
    var lastType: HType, more := Required, true;
    count := 0;
    while more
      invariant iter.Valid() && iter.start == old(iter.start)
      invariant !more ==> iter.pos == 0
      invariant !more && iter.start != [] ==> count == RequiredBefore(iter.start, |iter.start| - 1)
      invariant !more && iter.start != [] ==> lastType == iter.start[|iter.start| - 1].htype
      invariant !more && iter.start == [] ==> count == 0
      decreases more, |iter.start| - iter.pos
    {
      count := iter.requiredFieldIndex;
      lastType := Entry(iter.start, iter.pos).htype;
      more := iter.Next();
    }
    if lastType.Required? && Entry(iter.start, iter.pos).tag != 0 {
      count := count + 1;
    }
  }

  /** The record loop's body after the key was read. Without an extension entry the search for one
      comes back to where it started and the field is skipped. */
  method DecodeOneRecord(stream: IStream, wireType: nat, tag: nat, iter: FieldIter, seen: FieldsSeen, dest: array<byte>,
                         fixedField: Option<nat>, fixedSize: nat, ghost x: Struct)
    returns (ok: bool, fixedField': Option<nat>, fixedSize': nat)
    requires stream.Valid() && stream.buf != dest && seen.Valid() && iter.Valid()
    requires x.fields == iter.start && x.base == iter.destStruct
    requires StateFor(x, State(dest[..], seen.seen, fixedField, fixedSize))
    modifies stream, dest, seen, iter
    ensures stream.Valid() && stream.End() <= old(stream.End()) && (ok ==> stream.End() == old(stream.End()))
    ensures seen.Valid() && iter.Valid() && iter.start == old(iter.start) && iter.destStruct == old(iter.destStruct)
    ensures DoesState(DecodeRecord(x, State(old(dest[..]), old(seen.seen), fixedField, fixedSize), tag, wireType,
                                   old(stream.Unread())),
                      ok, State(dest[..], seen.seen, fixedField', fixedSize'), stream.Unread())
    decreases x.fields, 2
  {
    hide DecodeField, DecodeTerminator, SkipField, Matches, Placed;
    fixedField', fixedSize' := fixedField, fixedSize;
    PlacedTags(x, dest.Length);
    var found, _ := iter.Find(tag);
    if !found {
      NotFound(iter.start, tag);
      ok := stream.SkipFieldBytes(wireType);
      return;
    }
    if iter.start == [] {
      ok := DecodeTerminatorBool(stream, seen, dest, iter.destStruct, fixedField, fixedSize, x);
      return;
    }
    FoundIsIndexOf(iter.start, iter.pos, tag);
    ok, fixedField', fixedSize' := DecodeKnownField(stream, wireType, iter, seen, dest, fixedField, fixedSize, x);
  }

  lemma NotFound(fields: seq<Field>, tag: nat)
    requires fields == [] ==> tag != 0
    requires fields != [] ==> !exists k :: 0 <= k < |fields| && Matches(fields[k], tag)
    ensures IndexOf(fields, tag) == |fields|
  {
  }

  // ---- The record loop ----

  /** No mark beyond the required fields of the table. */
  predicate Marked(fields: seq<Field>, seen: set<nat>) {
    fields != [] ==> forall r :: r in seen ==> r < RequiredBefore(fields, |fields|) && r < MAX_REQUIRED_FIELDS
  }

  lemma RecordKeepsMarked(x: Struct, st: State, tag: nat, wireType: nat, s: seq<byte>)
    requires StateFor(x, st) && Marked(x.fields, st.seen)
    ensures Marked(x.fields, DecodeRecord(x, st, tag, wireType, s).value.seen)
  {
    var i := IndexOf(x.fields, tag);
    if i < |x.fields| && x.fields[i].htype.Required? {
      RequiredFields.RequiredBeforeMono(x.fields, i, |x.fields|);
    }
    hide DecodeCells, Placed, PlacedField, RequiredBefore, SkipField;
  }

  lemma LoopAtRecord(x: Struct, st: State, s: seq<byte>, tag: nat, wireType: nat, rest: seq<byte>)
    requires StateFor(x, st) && s != [] && wireType < 8 && tag * 8 + wireType != 0
    requires DecodeVarint32(s) == Got(tag * 8 + wireType, rest)
    ensures DecodeLoop(x, st, s) == Records.Continue(x, DecodeRecord(x, st, tag, wireType, rest))
  {
    hide DecodeRecord, Placed, DecodeVarint32;
    assert (tag * 8 + wireType) / 8 == tag && (tag * 8 + wireType) % 8 == wireType;
  }

  lemma LoopAtEnd(x: Struct, st: State, s: seq<byte>)
    requires StateFor(x, st)
    ensures s == [] ==> DecodeLoop(x, st, s) == Ended(st)
    ensures s != [] && DecodeVarint32(s).Bad? ==> DecodeLoop(x, st, s) == Broken(st)
    ensures s != [] && DecodeVarint32(s).Got? && DecodeVarint32(s).value == 0
        ==> DecodeLoop(x, st, s) == Stopped(st, DecodeVarint32(s).rest)
  {
    hide DecodeRecord, Placed, DecodeVarint32;
  }

  /** The while loop of pb_decode_noinit. */
  method DecodeRecords(stream: IStream, iter: FieldIter, seen: FieldsSeen, dest: array<byte>, ghost x: Struct)
    returns (ok: bool, fixedField: Option<nat>, fixedSize: nat)
    requires stream.Valid() && stream.buf != dest && seen.Valid() && iter.Valid() && seen.seen == {}
    requires x.fields == iter.start && x.base == iter.destStruct && Placed(x, dest.Length)
    modifies stream, dest, seen, iter
    ensures stream.Valid() && stream.End() <= old(stream.End()) && (ok ==> stream.End() == old(stream.End()))
    ensures seen.Valid() && iter.Valid() && iter.start == old(iter.start) && iter.destStruct == old(iter.destStruct)
    ensures Marked(iter.start, seen.seen)
    ensures var run := DecodeLoop(x, Start(old(dest[..])), old(stream.Unread()));
            && (ok <==> !run.Broken?)
            && run.st == State(dest[..], seen.seen, fixedField, fixedSize)
            && (ok ==> stream.Unread() == if run.Stopped? then run.rest else [])
    decreases x.fields, 3
  {
    hide DecodeVarint32, DecodeRecord, DecodeLoop, Placed;
    ghost var s0, st := stream.Unread(), Start(dest[..]);
    ghost var first := st;
    fixedField, fixedSize := None, 0;
    while stream.bytesLeft > 0
      invariant stream.Valid() && stream.End() == old(stream.End())
      invariant iter.Valid() && iter.start == x.fields && iter.destStruct == x.base
      invariant seen.Valid() && Marked(x.fields, seen.seen) && StateFor(x, st)
      invariant st == State(dest[..], seen.seen, fixedField, fixedSize)
      invariant DecodeLoop(x, first, s0) == DecodeLoop(x, st, stream.Unread())
      decreases stream.bytesLeft
    {
      ghost var s := stream.Unread();
      LoopAtEnd(x, st, s);
      var wireType, tag, eof;
      ok, wireType, tag, eof := stream.DecodeTag();
      if !ok {
        ok := eof;
        return;
      }
      ghost var rest := stream.Unread();
      LoopAtRecord(x, st, s, tag, wireType, rest);
      RecordKeepsMarked(x, st, tag, wireType, rest);
      ok, fixedField, fixedSize := DecodeOneRecord(stream, wireType, tag, iter, seen, dest, fixedField, fixedSize, x);
      st := DecodeRecord(x, st, tag, wireType, rest).value;
      if !ok {
        return;
      }
    }
    LoopAtEnd(x, st, stream.Unread());
    ok := true;
  }

  /** The checks after the record loop. */
  method CheckEnd(iter: FieldIter, seen: FieldsSeen, fixedField: Option<nat>, fixedSize: nat, ghost run: Run)
    returns (ok: bool)
    requires iter.Valid() && seen.Valid() && Marked(iter.start, seen.seen)
    requires seen.seen == run.st.seen && fixedField == run.st.fixedField && fixedSize == run.st.fixedSize
    requires fixedField.Some? ==> fixedField.value < |iter.start|
    requires !run.Broken?
    modifies iter
    ensures iter.start == old(iter.start)
    ensures ok <==> Finish(iter.start, run).Ok?
  {
    hide Word;
    if fixedField.Some? && fixedSize != iter.start[fixedField.value].arraySize {
      return false;
    }
    var count := CountRequired(iter);
    if count > MAX_REQUIRED_FIELDS {
      count := MAX_REQUIRED_FIELDS;
    }
    ok := seen.CheckAll(count);
  }

  lemma Finished(fields: seq<Field>, run: Run)
    requires run.st.fixedField.Some? ==> run.st.fixedField.value < |fields|
    ensures Finish(fields, run).value == run.st.mem
    ensures run.Broken? ==> Finish(fields, run).Fail?
    ensures Finish(fields, run).Ok? ==> Finish(fields, run).rest == if run.Stopped? then run.rest else []
  {
  }

  /** pb_decode_noinit. */
  method DecodeMessageNoinit(stream: IStream, fields: seq<Field>, dest: array<byte>, base: nat, ghost size: nat)
    returns (ok: bool)
    requires stream.Valid() && stream.buf != dest && Placed(Struct(fields, base, size), dest.Length)
    modifies stream, dest
    ensures stream.Valid() && stream.End() <= old(stream.End()) && (ok ==> stream.End() == old(stream.End()))
    ensures Does(DecodeNoinit(Struct(fields, base, size), old(dest[..]), old(stream.Unread())),
                 ok, dest[..], stream.Unread())
    decreases fields, 4
  {
    hide Placed, DecodeLoop, Marked, Finish;
    ghost var x, m0, s0 := Struct(fields, base, size), dest[..], stream.Unread();
    PlacedTags(x, dest.Length);
    var seen := new FieldsSeen();
    var iter := new FieldIter();
    var nonEmpty := iter.Begin(fields, base);
    var fixedField, fixedSize;
    ok, fixedField, fixedSize := DecodeRecords(stream, iter, seen, dest, x);
    Finished(fields, DecodeLoop(x, Start(m0), s0));
    if !ok {
      return;
    }
    ok := CheckEnd(iter, seen, fixedField, fixedSize, DecodeLoop(x, Start(m0), s0));
  }

  /** pb_decode. */
  method DecodeMessage(stream: IStream, fields: seq<Field>, dest: array<byte>, base: nat, ghost size: nat)
    returns (ok: bool)
    requires stream.Valid() && stream.buf != dest && Placed(Struct(fields, base, size), dest.Length)
    modifies stream, dest
    ensures stream.Valid() && stream.End() <= old(stream.End()) && (ok ==> stream.End() == old(stream.End()))
    ensures Does(Decode(Struct(fields, base, size), old(dest[..]), old(stream.Unread())), ok, dest[..], stream.Unread())
    decreases fields, 5
  {
    hide Placed, DecodeNoinit, SetDefaults;
    SetToDefaults(fields, dest, base, size);
    ok := DecodeMessageNoinit(stream, fields, dest, base, size);
  }
}
