/** Laws of the record stream: unknown fields are transparent, and concatenating encodings merges
    messages. */
module Records {
  import opened Bits
  import opened Wire
  import opened Descriptor
  import opened StructMemory
  import opened Decoding
  import opened Locality

  function KeyOf(rec: seq<byte>): nat
    requires DecodeVarint32(rec).Got?
  {
    DecodeVarint32(rec).value
  }

  function PayloadOf(rec: seq<byte>): seq<byte>
    requires DecodeVarint32(rec).Got?
  {
    DecodeVarint32(rec).rest
  }

  /** A key and exactly the payload its wire type announces. */
  predicate CompleteRecord(rec: seq<byte>) {
    && DecodeVarint32(rec).Got?
    && KeyOf(rec) != 0
    && SkipField(KeyOf(rec) % 8, PayloadOf(rec)) == Got((), [])
  }

  function FieldOfRecord(fields: seq<Field>, rec: seq<byte>): (i: nat)
    requires CompleteRecord(rec)
    ensures i <= |fields|
  {
    IndexOf(fields, KeyOf(rec) / 8)
  }

  /** A record of a known field, with a wire type that its descriptor expects. */
  predicate AgreeingRecord(fields: seq<Field>, rec: seq<byte>) {
    && CompleteRecord(rec)
    && FieldOfRecord(fields, rec) < |fields|
    && WireTypeAgrees(fields[FieldOfRecord(fields, rec)], KeyOf(rec) % 8)
  }

  /** A record with a tag the table does not know. On an empty table tag 0 does not count: see
      TransparentExactly. */
  predicate UnknownRecord(fields: seq<Field>, rec: seq<byte>) {
    CompleteRecord(rec) && FieldOfRecord(fields, rec) == |fields| && (fields == [] ==> KeyOf(rec) / 8 != 0)
  }

  /** The record loop after one record. */
  function Continue(x: Struct, r: Result<State>): Run
    requires StateFor(x, r.value)
  {
    if r.Fail? then Broken(r.value) else DecodeLoop(x, r.value, r.rest)
  }

  lemma LoopHead(x: Struct, st: State, rec: seq<byte>, tail: seq<byte>)
    requires StateFor(x, st) && CompleteRecord(rec)
    ensures DecodeLoop(x, st, rec + tail)
         == Continue(x, DecodeRecord(x, st, KeyOf(rec) / 8, KeyOf(rec) % 8, PayloadOf(rec) + tail))
  {
    hide DecodeRecord, DecodeVarint32, Placed, SkipField;
    DecodeVarint32Extends(rec, tail);
  }

  /** One record of a known field, read from the front of the input. */
  lemma LoopOneRecord(x: Struct, st: State, rec: seq<byte>, tail: seq<byte>)
    requires StateFor(x, st) && AgreeingRecord(x.fields, rec)
    ensures var r := DecodeField(x, st, FieldOfRecord(x.fields, rec), KeyOf(rec) % 8, PayloadOf(rec));
            if r.Ok? then r.rest == [] && DecodeLoop(x, st, rec + tail) == DecodeLoop(x, r.value, tail)
            else DecodeLoop(x, st, rec + tail) == Broken(r.value)
  {
    hide DecodeCells, DecodeLoop, DecodeVarint32, SkipField, Placed, PlacedField, Enter, IndexOf;
    var i, wt, s := FieldOfRecord(x.fields, rec), KeyOf(rec) % 8, PayloadOf(rec);
    var f, p, count := x.fields[i], Addr(x, i), Enter(x.fields, st, i).fixedSize;
    PlacedEntry(x, i, |st.mem|);
    LoopHead(x, st, rec, tail);
    DecodeCellsComplete(f, st.mem, p, count, wt, s, tail);
    if DecodeCells(f, st.mem, p, count, wt, s).Ok? {
      DecodeCellsConsumes(f, st.mem, p, count, wt, s);
    }
    assert [] + tail == tail;
  }

  // ---- Unknown fields ----

  /** Inserting a record of an unknown field at any record boundary changes nothing. */
  lemma UnknownFieldTransparent(x: Struct, st: State, before: seq<byte>, rec: seq<byte>, tail: seq<byte>)
    requires StateFor(x, st) && UnknownRecord(x.fields, rec)
    requires DecodeLoop(x, st, before).Ended?
    ensures DecodeLoop(x, st, before + rec + tail) == DecodeLoop(x, st, before + tail)
  {
    var st' := DecodeLoop(x, st, before).st;
    hide DecodeLoop, SkipField, Placed, DecodeVarint32;
    assert before + rec + tail == before + (rec + tail);
    LoopConcat(x, st, before, rec + tail);
    LoopConcat(x, st, before, tail);
    LoopHead(x, st', rec, tail);
    SkipFieldExtends(KeyOf(rec) % 8, PayloadOf(rec), tail);
    assert [] + tail == tail;
  }

  lemma UnknownFieldSkipped(x: Struct, m: Memory, before: seq<byte>, rec: seq<byte>, tail: seq<byte>)
    requires Placed(x, |m|) && UnknownRecord(x.fields, rec)
    requires DecodeLoop(x, Start(SetDefaults(x, m)), before).Ended?
    ensures Decode(x, m, before + rec + tail) == Decode(x, m, before + tail)
  {
    hide DecodeLoop, Placed, SetDefaults, UnknownRecord;
    UnknownFieldTransparent(x, Start(SetDefaults(x, m)), before, rec, tail);
  }

  // ---- The exception: tag 0 on an empty table ----

  /** On an empty table nothing but a bool is ever stored at the start of the struct. */
  lemma {:induction false} EmptyLoopStoresBool(x: Struct, st: State, s: seq<byte>)
    requires StateFor(x, st) && x.fields == [] && st.mem[x.base] <= 1
    ensures DecodeLoop(x, st, s).st.mem[x.base] <= 1
    decreases |s|
  {
    hide DecodeVarint32, SkipField, Placed;
    BaseInside(x, |st.mem|);
    if s != [] && DecodeVarint32(s).Got? && DecodeVarint32(s).value != 0 {
      var key, rest := DecodeVarint32(s).value, DecodeVarint32(s).rest;
      var r := DecodeRecord(x, st, key / 8, key % 8, rest);
      if r.Ok? {
        EmptyLoopStoresBool(x, r.value, r.rest);
      }
    }
  }

  lemma BaseInside(x: Struct, len: nat)
    requires Placed(x, len) && x.fields == []
    ensures x.base < len
  {
  }

  /** A complete record of tag 0, of whatever wire type, is not skipped on an empty table: the
      terminating entry matches it, and a struct that started with a byte above 1 is changed. */
  lemma TagZeroVisible(x: Struct, m: Memory, rec: seq<byte>)
    requires Placed(x, |m|) && x.fields == [] && m[x.base] > 1
    requires CompleteRecord(rec) && KeyOf(rec) / 8 == 0
    ensures Decode(x, m, rec) != Decode(x, m, [])
  {
    hide DecodeVarint32, SkipField, Placed, DecodeLoop;
    BaseInside(x, |m|);
    assert SetDefaults(x, m) == m;
    LoopOfNothing(x, Start(m));
    LoopHead(x, Start(m), rec, []);
    assert rec + [] == rec && PayloadOf(rec) + [] == PayloadOf(rec);
    var r := DecodeRecord(x, Start(m), 0, KeyOf(rec) % 8, PayloadOf(rec));
    if r.Ok? {
      EmptyLoopStoresBool(x, r.value, r.rest);
    }
  }

  /** The record of an unknown tag is transparent wherever it is inserted into the empty message,
      whatever memory holds, if and only if the table has an entry or the tag is not 0. */
  lemma TransparentExactly(x: Struct, rec: seq<byte>, len: nat)
    requires Placed(x, len) && CompleteRecord(rec) && FieldOfRecord(x.fields, rec) == |x.fields|
    ensures (forall m: Memory :: |m| == len ==> Decode(x, m, rec) == Decode(x, m, []))
       <==> x.fields != [] || KeyOf(rec) / 8 != 0
  {
    hide DecodeNoinit, SetDefaults, Placed, DecodeVarint32, SkipField;
    if x.fields != [] || KeyOf(rec) / 8 != 0 {
      forall m: Memory | |m| == len
        ensures Decode(x, m, rec) == Decode(x, m, [])
      {
        LoopOfNothing(x, Start(SetDefaults(x, m)));
        UnknownFieldSkipped(x, m, [], rec, []);
        var none: seq<byte> := [];
        assert none + rec + none == rec && none + none == none;
      }
    } else {
      var m: Memory := seq(len, k => 2);
      BaseInside(x, len);
      TagZeroVisible(x, m, rec);
    }
  }

  // ---- Merging ----

  predicate NoRequiredOrFixed(fields: seq<Field>) {
    forall i :: 0 <= i < |fields| ==> !fields[i].htype.Required? && !FixedCount(fields[i])
  }

  /** Without required fields and fixed-count arrays the record loop keeps no local state that
      matters. */
  lemma {:induction false} LoopLocalsUnused(x: Struct, st: State, seen: set<nat>, s: seq<byte>)
    requires StateFor(x, st) && NoRequiredOrFixed(x.fields) && st.fixedField == None && st.fixedSize == 0
    ensures DecodeLoop(x, st, s).st.fixedField == None && DecodeLoop(x, st, s).st.fixedSize == 0
    ensures SameRun(DecodeLoop(x, st, s), DecodeLoop(x, st.(seen := seen), s))
    decreases |s|
  {
    hide DecodeRecord, DecodeVarint32, Placed;
    if s != [] && DecodeVarint32(s).Got? && DecodeVarint32(s).value != 0 {
      var key, rest := DecodeVarint32(s).value, DecodeVarint32(s).rest;
      RecordLocalsUnused(x, st, seen, key / 8, key % 8, rest);
      var r := DecodeRecord(x, st, key / 8, key % 8, rest);
      var r' := DecodeRecord(x, st.(seen := seen), key / 8, key % 8, rest);
      if r.Ok? {
        LoopLocalsUnused(x, r.value, r'.value.seen, r.rest);
      }
    }
  }

  predicate SameRun(r: Run, r': Run) {
    && (r.Ended? <==> r'.Ended?) && (r.Broken? <==> r'.Broken?)
    && r.st.mem == r'.st.mem && r.st.fixedField == r'.st.fixedField && r.st.fixedSize == r'.st.fixedSize
    && (r.Stopped? ==> r'.Stopped? && r.rest == r'.rest)
  }

  lemma RecordLocalsUnused(x: Struct, st: State, seen: set<nat>, tag: nat, wireType: nat, s: seq<byte>)
    requires StateFor(x, st) && NoRequiredOrFixed(x.fields) && st.fixedField == None && st.fixedSize == 0
    ensures var r := DecodeRecord(x, st, tag, wireType, s);
            var r' := DecodeRecord(x, st.(seen := seen), tag, wireType, s);
            && r.value.fixedField == None && r.value.fixedSize == 0
            && (r.Ok? <==> r'.Ok?)
            && r'.value == r.value.(seen := r'.value.seen)
            && (r.Ok? ==> r.rest == r'.rest)
  {
    hide DecodeSlot, DecodeSubField, SkipField, Placed, PlacedField, PutSlotAt, CursorSlot, DecodeVarint32;
    var i := IndexOf(x.fields, tag);
    if i < |x.fields| {
      PlacedEntry(x, i, |st.mem|);
      CountKept(x.fields[i], st.mem, Addr(x, i), 0, wireType, s);
    }
  }

  /** Fields other than fixed-count arrays do not use the local count. */
  lemma CountKept(f: Field, m: Memory, p: nat, count: nat, wireType: nat, s: seq<byte>)
    requires PlacedField(f, p, |m|) && !FixedCount(f)
    ensures DecodeCells(f, m, p, count, wireType, s).value.count == count
  {
    hide DecodeSlot, DecodeSubmessage, ResetMember, PutSlotAt, PutSizeAt, FieldReaches, WellFormedField, CursorSlot;
  }

  lemma {:induction false} NoRequired(fields: seq<Field>, i: nat)
    requires NoRequiredOrFixed(fields) && i <= |fields|
    ensures RequiredBefore(fields, i) == 0
  {
    if i > 0 {
      NoRequired(fields, i - 1);
    }
  }

  /** Decoding a followed by b in one run is decoding a, then decoding b into the same struct. */
  lemma ConcatenationMerges(x: Struct, m: Memory, a: seq<byte>, b: seq<byte>)
    requires Placed(x, |m|) && NoRequiredOrFixed(x.fields)
    requires DecodeLoop(x, Start(m), a).Ended?
    ensures DecodeNoinit(x, m, a).Ok?
    ensures DecodeNoinit(x, m, a + b) == DecodeNoinit(x, DecodeNoinit(x, m, a).value, b)
  {
    hide DecodeLoop, Placed;
    NoRequired(x.fields, |x.fields|);
    LoopConcat(x, Start(m), a, b);
    LoopLocalsUnused(x, Start(m), {}, a);
    var st := DecodeLoop(x, Start(m), a).st;
    LoopLocalsUnused(x, st, {}, b);
    LoopLocalsUnused(x, Start(st.mem), {}, b);
    assert st.(seen := {}) == Start(st.mem);
  }
}
