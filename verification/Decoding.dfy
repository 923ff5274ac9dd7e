/** What pb_decode.c makes of its input, as functions from memory and bytes to memory and unread bytes.
    Structs are found by address, so that a store past the end of one is seen by its neighbours. A
    failure keeps the memory as the code leaves it. */
module Decoding {
  import opened Bits
  import opened Integers
  import opened Wire
  import opened Descriptor
  import opened StructMemory
  import opened Encoding

  const MAX_REQUIRED_FIELDS: nat := 64

  datatype Result<+T> = Ok(value: T, rest: seq<byte>) | Fail(value: T)

  // ---- Default values ----

  function DefaultBytes(f: Field): (d: seq<byte>)
    requires WellFormedField(f) && !f.ltype.Submessage?
    ensures |d| == f.dataSize
  {
    if f.ptr.Default? then f.ptr.bytes else Zeros(f.dataSize)
  }

  /** pb_field_set_to_default on a field at p. A fixed-count array has no count cell: the zero count
      is stored over the start of the array, and past its end if the array is short. */
  function DefaultField(f: Field, m: Memory, p: nat): (r: Memory)
    requires PlacedField(f, p, |m|)
    ensures |r| == |m|
    decreases f, 0
  {
    if FixedCount(f) then Write(m, p, Zeros(SIZE_BYTES))
    else if f.htype.Repeated? || f.htype.Oneof? then PutSizeAt(m, f, p, 0)
    else if f.ltype.Submessage? then
      PlacedSub(f, p, |m|, 0);
      SetDefaults(SubAt(f, p, 0), PutSizeAt(m, f, p, 0))
    else Write(PutSizeAt(m, f, p, 0), p, DefaultBytes(f))
  }

  function DefaultsFrom(x: Struct, m: Memory, i: nat): (r: Memory)
    requires i <= |x.fields| && Placed(x, |m|)
    ensures |r| == |m|
    decreases x.fields, |x.fields| - i
  {
    if i == |x.fields| then m
    else
      PlacedEntry(x, i, |m|);
      DefaultsFrom(x, DefaultField(x.fields[i], m, Addr(x, i)), i + 1)
  }

  /** pb_message_set_to_defaults. */
  function SetDefaults(x: Struct, m: Memory): (r: Memory)
    requires Placed(x, |m|)
    ensures |r| == |m|
    decreases x.fields, |x.fields| + 1
  {
    DefaultsFrom(x, m, 0)
  }

  // ---- Single values ----

  function DecodeScalar(f: Field, d: seq<byte>, s: seq<byte>): (r: Result<seq<byte>>)
    requires ItemFor(f, d) && f.ltype.Packable()
    ensures |r.value| == |d|
    ensures r.Ok? ==> |r.rest| < |s|
  {
    if f.ltype.Bool? then
      match DecodeVarint32(s)
      case Bad => Fail(d)
      case Got(v, rest) => Ok([if v != 0 then 1 else 0], rest)
    else if f.ltype.Fixed32? || f.ltype.Fixed64? then
      if |s| < f.dataSize then Fail(d)
      else Ok(LittleEndian(FromLittleEndian(s[..f.dataSize]), f.dataSize), s[f.dataSize..])
    else
      match DecodeVarint(s)
      case Bad => Fail(d)
      case Got(u, rest) =>
        var n := Narrow(f, u);
        var d' := LittleEndian(n.stored, f.dataSize);
        if n.fits then Ok(d', rest) else Fail(d')
  }

  function Narrow(f: Field, u: nat): Narrowed
    requires WellFormedField(f) && (f.ltype.Varint? || f.ltype.Uvarint? || f.ltype.Svarint?) && u < TWO64
  {
    match f.ltype
    case Varint => NarrowVarint(u, f.dataSize)
    case Uvarint => NarrowUvarint(u, f.dataSize)
    case Svarint => NarrowSvarint(u, f.dataSize)
  }

  /** pb_dec_bytes: the size cell is written before the contents are read. */
  function DecodeBytes(f: Field, d: seq<byte>, s: seq<byte>): (r: Result<seq<byte>>)
    requires ItemFor(f, d) && f.ltype.Bytes?
    ensures |r.value| == |d|
    ensures r.Ok? ==> |r.rest| <= |s|
  {
    match DecodeVarint32(s)
    case Bad => Fail(d)
    case Got(n, rest) =>
      if n > PB_SIZE_MAX || n + SIZE_BYTES > f.dataSize then Fail(d)
      else
        var d1 := Write(d, 0, LittleEndian(n, SIZE_BYTES));
        if |rest| < n then Fail(d1) else Ok(Write(d1, SIZE_BYTES, rest[..n]), rest[n..])
  }

  /** pb_dec_string: the terminator is written even if the contents could not be read. */
  function DecodeString(f: Field, d: seq<byte>, s: seq<byte>): (r: Result<seq<byte>>)
    requires ItemFor(f, d) && f.ltype.String?
    ensures |r.value| == |d|
    ensures r.Ok? ==> |r.rest| <= |s|
  {
    match DecodeVarint32(s)
    case Bad => Fail(d)
    case Got(n, rest) =>
      var allocSize := (n + 1) % TWO32;
      if allocSize < n || allocSize > f.dataSize then Fail(d)
      else if |rest| < n then Fail(Write(d, n, [0]))
      else Ok(Write(Write(d, 0, rest[..n]), n, [0]), rest[n..])
  }

  function DecodeFixedLengthBytes(f: Field, d: seq<byte>, s: seq<byte>): (r: Result<seq<byte>>)
    requires ItemFor(f, d) && f.ltype.FixedLengthBytes?
    ensures |r.value| == |d|
    ensures r.Ok? ==> |r.rest| <= |s|
  {
    match DecodeVarint32(s)
    case Bad => Fail(d)
    case Got(n, rest) =>
      if n > PB_SIZE_MAX then Fail(d)
      else if n == 0 then Ok(Zeros(f.dataSize), rest)
      else if n != f.dataSize || |rest| < n then Fail(d)
      else Ok(rest[..n], rest[n..])
  }

  /** The decoder of the value's type, PB_DECODERS[ltype], below submessages. */
  function DecodeValue(f: Field, d: seq<byte>, s: seq<byte>): (r: Result<seq<byte>>)
    requires ItemFor(f, d) && !f.ltype.Submessage?
    ensures |r.value| == |d|
    ensures r.Ok? ==> |r.rest| <= |s|
  {
    if f.ltype.Packable() then DecodeScalar(f, d, s)
    else
      match f.ltype
      case Bytes => DecodeBytes(f, d, s)
      case String => DecodeString(f, d, s)
      case FixedLengthBytes => DecodeFixedLengthBytes(f, d, s)
  }

  // ---- One record of one field ----

  /** The packed loop: reads values until the input or the array is used up. */
  function PackedLoop(f: Field, slot: Slot, s: seq<byte>): (r: Result<Slot>)
    requires SlotFor(f, slot) && f.htype.Repeated? && f.ltype.Packable()
    ensures |r.value.data| == |slot.data|
    decreases |s|
  {
    if s == [] || slot.size >= f.arraySize then Ok(slot, s)
    else
      match DecodeScalar(f, ItemAt(f, slot.data, slot.size), s)
      case Fail(d) => Fail(Slot(slot.size, PutItem(f, slot.data, slot.size, d)))
      case Ok(d, rest) => PackedLoop(f, Slot(slot.size + 1, PutItem(f, slot.data, slot.size, d)), rest)
  }

  function DecodePacked(f: Field, slot: Slot, s: seq<byte>): (r: Result<Slot>)
    requires SlotFor(f, slot) && f.htype.Repeated? && f.ltype.Packable()
    ensures |r.value.data| == |slot.data|
    ensures r.Ok? ==> |r.rest| <= |s|
  {
    match Substream(s)
    case Bad => Fail(slot)
    case Got(sub, rest) =>
      match PackedLoop(f, slot, sub)
      case Fail(slot') => Fail(slot')
      case Ok(slot', left) => if left != [] then Fail(slot') else Ok(slot', rest)
  }

  /** The bytes a value decoder starts from: the entry past the count of an array. */
  function Target(f: Field, slot: Slot): (d: seq<byte>)
    requires SlotFor(f, slot) && (f.htype.Repeated? ==> slot.size < f.arraySize)
    ensures |d| == f.dataSize
  {
    if f.htype.Repeated? then ItemAt(f, slot.data, slot.size) else slot.data
  }

  /** The cells once the value decoder left d at its target. */
  function Settle(f: Field, slot: Slot, d: seq<byte>): (slot': Slot)
    requires SlotFor(f, slot) && |d| == f.dataSize && (f.htype.Repeated? ==> slot.size < f.arraySize)
    ensures |slot'.data| == |slot.data|
  {
    match f.htype
    case Required => Slot(slot.size, d)
    case Optional => Slot(if f.sizeOffset != 0 then 1 else slot.size, d)
    case Repeated => Slot(slot.size + 1, PutItem(f, slot.data, slot.size, d))
    case Oneof => Slot(f.tag, d)
  }

  /** decode_static_field on a field that is not a submessage: it works on the field's own cells. */
  function DecodeSlot(f: Field, slot: Slot, wireType: nat, s: seq<byte>): (r: Result<Slot>)
    requires SlotFor(f, slot) && !f.ltype.Submessage?
    ensures |r.value.data| == |slot.data|
    ensures r.Ok? ==> |r.rest| <= |s|
  {
    if f.htype.Repeated? && wireType == STRING && f.ltype.Packable() then DecodePacked(f, slot, s)
    else if f.htype.Repeated? && slot.size >= f.arraySize then
      Fail(slot.(size := (slot.size + 1) % TWO32))
    else
      match DecodeValue(f, Target(f, slot), s)
      case Fail(d) => Fail(Settle(f, slot, d))
      case Ok(d, rest) => Ok(Settle(f, slot, d), rest)
  }

  /** pb_dec_submessage on entry k of a field at p: array entries are initialised first. */
  function DecodeSubmessage(f: Field, m: Memory, p: nat, k: nat, s: seq<byte>): (r: Result<Memory>)
    requires PlacedField(f, p, |m|) && f.ltype.Submessage? && k < Entries(f)
    ensures |r.value| == |m|
    ensures r.Ok? ==> |r.rest| <= |s|
    decreases f, 1
  {
    PlacedSub(f, p, |m|, k);
    match Substream(s)
    case Bad => Fail(m)
    case Got(sub, rest) =>
      var m0 := if f.htype.Repeated? then SetDefaults(SubAt(f, p, k), m) else m;
      match DecodeNoinit(SubAt(f, p, k), m0, sub)
      case Fail(m') => Fail(m')
      case Ok(m', _) => Ok(m', rest)
  }

  /** Memory and the count that decode_static_field keeps outside it for a fixed-count array. */
  datatype Cells = Cells(mem: Memory, count: nat)

  /** The which_ cell of a oneof submessage is about to name it: if it named another member, the
      union is cleared and the submessage initialised. */
  function ResetMember(f: Field, m: Memory, p: nat): (r: Memory)
    requires PlacedField(f, p, |m|) && f.ltype.Submessage? && f.htype.Oneof?
    ensures |r| == |m|
    decreases f, 1
  {
    if SlotAt(m, f, p).size == f.tag then m
    else
      PlacedSub(f, p, |m|, 0);
      SetDefaults(SubAt(f, p, 0), Write(m, p, Zeros(f.dataSize)))
  }

  /** decode_static_field on a submessage field, in the order of the code: first the has_ flag, the
      count or the which_ value, then the value. */
  function DecodeSubField(f: Field, m: Memory, p: nat, count: nat, s: seq<byte>): (r: Result<Cells>)
    requires PlacedField(f, p, |m|) && f.ltype.Submessage?
    ensures |r.value.mem| == |m|
    ensures r.Ok? ==> |r.rest| <= |s|
    decreases f, 2
  {
    var n := CursorSlot(m, f, p, count).size;
    match f.htype
    case Required => WithCount(DecodeSubmessage(f, m, p, 0, s), count)
    case Optional =>
      WithCount(DecodeSubmessage(f, if f.sizeOffset != 0 then PutSizeAt(m, f, p, 1) else m, p, 0, s), count)
    case Oneof => WithCount(DecodeSubmessage(f, PutSizeAt(ResetMember(f, m, p), f, p, f.tag), p, 0, s), count)
    case Repeated =>
      var next := (n + 1) % TWO32;
      var m1, count1 := PutSizeAt(m, f, p, next), if FixedCount(f) then next else count;
      if n >= f.arraySize then Fail(Cells(m1, count1)) else WithCount(DecodeSubmessage(f, m1, p, n, s), count1)
  }

  function WithCount(r: Result<Memory>, count: nat): Result<Cells> {
    match r
    case Fail(m) => Fail(Cells(m, count))
    case Ok(m, rest) => Ok(Cells(m, count), rest)
  }

  /** A slot put back into memory. */
  function Stored(f: Field, m: Memory, p: nat, count: nat, slot: Slot): (c: Cells)
    requires CellsAt(f, p, |m|) && |slot.data| == DataLen(f)
    ensures |c.mem| == |m|
  {
    Cells(PutSlotAt(m, f, p, slot), if FixedCount(f) then slot.size else count)
  }

  /** decode_static_field. */
  function DecodeCells(f: Field, m: Memory, p: nat, count: nat, wireType: nat, s: seq<byte>): (r: Result<Cells>)
    requires PlacedField(f, p, |m|)
    ensures |r.value.mem| == |m|
    ensures r.Ok? ==> |r.rest| <= |s|
    decreases f, 3
  {
    if f.ltype.Submessage? then DecodeSubField(f, m, p, count, s)
    else
      match DecodeSlot(f, CursorSlot(m, f, p, count), wireType, s)
      case Fail(slot) => Fail(Stored(f, m, p, count, slot))
      case Ok(slot, rest) => Ok(Stored(f, m, p, count, slot), rest)
  }

  // ---- Records of a message ----

  /** Memory and the local variables of pb_decode_noinit: the required fields seen so far, and the
      fixed-count field being received with the number of its entries. */
  datatype State = State(mem: Memory, seen: set<nat>, fixedField: Option<nat>, fixedSize: nat)

  ghost predicate StateFor(x: Struct, st: State) {
    && Placed(x, |st.mem|)
    && (st.fixedField.Some? ==> st.fixedField.value < |x.fields|)
  }

  /** The fixed-count field being received, if any, has all its entries. */
  predicate FixedComplete(fields: seq<Field>, st: State)
    requires st.fixedField.Some? ==> st.fixedField.value < |fields|
  {
    st.fixedField.Some? ==> st.fixedSize == fields[st.fixedField.value].arraySize
  }

  /** The bookkeeping done once entry i was found. */
  function Enter(fields: seq<Field>, st: State, i: nat): State
    requires i < |fields|
  {
    var st1 := if FixedCount(fields[i]) && st.fixedField != Some(i)
      then st.(fixedField := Some(i), fixedSize := 0) else st;
    st1.(seen := st1.seen + Mark(fields, i))
  }

  /** The bit of fields_seen that entry i sets: the index of a tracked required field. */
  function Mark(fields: seq<Field>, i: nat): set<nat>
    requires i < |fields|
  {
    if fields[i].htype.Required? && RequiredBefore(fields, i) < MAX_REQUIRED_FIELDS
    then {RequiredBefore(fields, i)} else {}
  }

  /** A record of a known field. */
  function DecodeField(x: Struct, st: State, i: nat, wireType: nat, s: seq<byte>): (r: Result<State>)
    requires StateFor(x, st) && i < |x.fields|
    ensures StateFor(x, r.value) && |r.value.mem| == |st.mem|
    ensures r.Ok? ==> |r.rest| <= |s|
    decreases x.fields, |s|, 0
  {
    if FixedCount(x.fields[i]) && st.fixedField != Some(i) && !FixedComplete(x.fields, st) then Fail(st)
    else
      var st1 := Enter(x.fields, st, i);
      PlacedEntry(x, i, |st.mem|);
      match DecodeCells(x.fields[i], st.mem, Addr(x, i), st1.fixedSize, wireType, s)
      case Fail(c) => Fail(st1.(mem := c.mem, fixedSize := c.count))
      case Ok(c, rest) => Ok(st1.(mem := c.mem, fixedSize := c.count), rest)
  }

  /** On an empty table, tag 0 finds the terminator and is decoded as a required bool at offset 0. */
  function DecodeTerminator(x: Struct, st: State, s: seq<byte>): (r: Result<State>)
    requires x.base + 1 <= |st.mem|
    ensures |r.value.mem| == |st.mem| && r.value == st.(mem := r.value.mem, seen := st.seen + {0})
    ensures r.Ok? ==> |r.rest| <= |s|
  {
    var st1 := st.(seen := st.seen + {0});
    match DecodeVarint32(s)
    case Bad => Fail(st1)
    case Got(v, rest) => Ok(st1.(mem := Write(st.mem, x.base, [if v != 0 then 1 else 0])), rest)
  }

  /** The body of the record loop after the key was read. */
  function DecodeRecord(x: Struct, st: State, tag: nat, wireType: nat, s: seq<byte>): (r: Result<State>)
    requires StateFor(x, st)
    ensures StateFor(x, r.value) && |r.value.mem| == |st.mem|
    ensures r.Ok? ==> |r.rest| <= |s|
    decreases x.fields, |s|, 1
  {
    var i := IndexOf(x.fields, tag);
    if i < |x.fields| then DecodeField(x, st, i, wireType, s)
    else if x.fields == [] && tag == 0 then DecodeTerminator(x, st, s)
    else
      match SkipField(wireType, s)
      case Bad => Fail(st)
      case Got(_, rest) => Ok(st, rest)
  }

  /** How the record loop ended: at the end of the input, at a zero key, or in an error. */
  datatype Run = Ended(st: State) | Stopped(st: State, rest: seq<byte>) | Broken(st: State)

  function DecodeLoop(x: Struct, st: State, s: seq<byte>): (r: Run)
    requires StateFor(x, st)
    ensures StateFor(x, r.st) && |r.st.mem| == |st.mem|
    decreases x.fields, |s|, 2
  {
    if s == [] then Ended(st)
    else
      match DecodeVarint32(s)
      case Bad => Broken(st)
      case Got(key, rest) =>
        if key == 0 then Stopped(st, rest)
        else
          match DecodeRecord(x, st, key / 8, key % 8, rest)
          case Fail(st') => Broken(st')
          case Ok(st', rest') => DecodeLoop(x, st', rest')
  }

  /** All of the first MAX_REQUIRED_FIELDS required fields were seen. */
  predicate AllRequiredSeen(fields: seq<Field>, seen: set<nat>) {
    forall r :: 0 <= r < RequiredBefore(fields, |fields|) && r < MAX_REQUIRED_FIELDS ==> r in seen
  }

  function Start(m: Memory): State {
    State(m, {}, None, 0)
  }

  /** The checks after the record loop. */
  function Finish(fields: seq<Field>, run: Run): (r: Result<Memory>)
    requires run.st.fixedField.Some? ==> run.st.fixedField.value < |fields|
    ensures r.value == run.st.mem
  {
    if run.Broken? || !FixedComplete(fields, run.st) || !AllRequiredSeen(fields, run.st.seen)
    then Fail(run.st.mem)
    else Ok(run.st.mem, if run.Stopped? then run.rest else [])
  }

  /** pb_decode_noinit. */
  function DecodeNoinit(x: Struct, m: Memory, s: seq<byte>): (r: Result<Memory>)
    requires Placed(x, |m|)
    ensures |r.value| == |m|
    decreases x.fields, |s|, 3
  {
    Finish(x.fields, DecodeLoop(x, Start(m), s))
  }

  /** pb_decode. */
  function Decode(x: Struct, m: Memory, s: seq<byte>): (r: Result<Memory>)
    requires Placed(x, |m|)
    ensures |r.value| == |m|
  {
    DecodeNoinit(x, SetDefaults(x, m), s)
  }
}
