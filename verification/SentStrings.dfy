/** The one kind of message that is encoded and not accepted back: a string without a terminator in its
    field. Decoding the encoding succeeds if and only if every string that is sent has one. */
module SentStrings {
  import opened Bits
  import opened Wire
  import opened Varint32
  import opened Descriptor
  import opened StructMemory
  import opened Encoding
  import opened Decoding
  import opened Effects
  import opened Arrivals
  import opened EncodeErrors
  import opened Messages
  import opened ValueRoundTrip
  import opened PartialDecode
  import opened RoundTrip

  // ---- Which messages are valid ----

  ghost predicate TerminatedItem(f: Field, d: seq<byte>)
    requires ItemFor(f, d)
    decreases f, 0
  {
    && (f.ltype.String? ==> StringLen(d) < |d|)
    && (f.ltype.Submessage? ==> Terminated(f.ptr.fields, d))
  }

  ghost predicate TerminatedSlot(f: Field, s: Slot)
    requires SlotFor(f, s)
    decreases f, 1
  {
    if f.htype.Repeated? then
      forall k :: 0 <= k < CountOf(f, s) && k < f.arraySize ==> TerminatedItem(f, ItemAt(f, s.data, k))
    else Present(f, s) ==> TerminatedItem(f, s.data)
  }

  /** Every string that is sent is terminated inside its field. */
  ghost predicate Terminated(fields: seq<Field>, m: Memory)
    requires WellFormed(fields, |m|)
    decreases fields
  {
    forall i :: 0 <= i < |fields| ==> TerminatedSlot(fields[i], GetSlot(fields, i, m))
  }

  ghost predicate SelectingItem(f: Field, d: seq<byte>)
    requires ItemFor(f, d)
    decreases f, 0
  {
    f.ltype.Submessage? ==> Selecting(f.ptr.fields, d)
  }

  ghost predicate SelectingSlot(f: Field, s: Slot)
    requires SlotFor(f, s)
    decreases f, 1
  {
    if f.htype.Repeated? then
      forall k :: 0 <= k < CountOf(f, s) && k < f.arraySize ==> SelectingItem(f, ItemAt(f, s.data, k))
    else Present(f, s) ==> SelectingItem(f, s.data)
  }

  /** Every which_ cell, in the message and in the submessages that are sent, is 0 or names a member. */
  ghost predicate Selecting(fields: seq<Field>, m: Memory)
    requires WellFormed(fields, |m|)
    decreases fields
  {
    && WhichValid(fields, m)
    && forall i :: 0 <= i < |fields| ==> SelectingSlot(fields[i], GetSlot(fields, i, m))
  }

  lemma ValidItemExactly(f: Field, d: seq<byte>)
    requires ItemFor(f, d)
    ensures ValidItem(f, d) <==> EncodableItem(f, d) && SelectingItem(f, d) && TerminatedItem(f, d)
    decreases f, 0
  {
    if f.ltype.Submessage? {
      ValidExactly(f.ptr.fields, d);
    }
    hide WellFormed, ValidMessage, Encodable, Selecting, Terminated, BytesLen, StringLen;
  }

  lemma ValidSlotExactly(f: Field, s: Slot)
    requires SlotFor(f, s)
    ensures ValidSlot(f, s) <==> EncodableSlot(f, s) && SelectingSlot(f, s) && TerminatedSlot(f, s)
    decreases f, 1
  {
    hide ValidItem, EncodableItem, SelectingItem, TerminatedItem, WellFormedField, Present, ItemAt;
    if f.htype.Repeated? {
      forall k | 0 <= k < CountOf(f, s) && k < f.arraySize
        ensures var d := ItemAt(f, s.data, k);
                ValidItem(f, d) <==> EncodableItem(f, d) && SelectingItem(f, d) && TerminatedItem(f, d)
      {
        ValidItemExactly(f, ItemAt(f, s.data, k));
      }
    } else {
      ValidItemExactly(f, s.data);
    }
  }

  /** A struct holds a valid message if and only if it is encodable, its which_ cells name members and
      its strings are terminated. */
  lemma ValidExactly(fields: seq<Field>, m: Memory)
    requires WellFormed(fields, |m|)
    ensures ValidMessage(fields, m) <==> Encodable(fields, m) && Selecting(fields, m) && Terminated(fields, m)
    decreases fields, 2
  {
    hide WellFormed, ValidSlot, EncodableSlot, SelectingSlot, TerminatedSlot, GetSlot, ValidWhich,
      WellFormedField, SlotFor;
    forall i | 0 <= i < |fields|
      ensures var s := GetSlot(fields, i, m);
              && SlotFor(fields[i], s)
              && (ValidSlot(fields[i], s)
                  <==> EncodableSlot(fields[i], s) && SelectingSlot(fields[i], s) && TerminatedSlot(fields[i], s))
    {
      WellFormedSlot(fields, i, m);
      ValidSlotExactly(fields[i], GetSlot(fields, i, m));
    }
  }

  // ---- An unterminated string is not accepted back ----

  /** What is known of a sent value with an unterminated string in it. */
  ghost predicate Unterminated(f: Field, d: seq<byte>) {
    && ItemFor(f, d) && EncodableItem(f, d) && SelectingItem(f, d) && !TerminatedItem(f, d)
    && EncodeItem(f, d).Some? && |EncodeItem(f, d).value| < TWO32
  }

  lemma SubmessageFails(f: Field, a: seq<byte>, m: Memory, p: nat, e: nat)
    requires PlacedField(f, p, |m|) && f.ltype.Submessage? && e < Entries(f)
    requires Unterminated(f, a) && ZeroDefault(f) && TameField(f)
    requires Placed(SubAt(f, p, e), |m|)
    requires !f.htype.Repeated? ==> Fresh(f.ptr.fields, View(SubAt(f, p, e), m))
    ensures DecodeSubmessage(f, m, p, e, EncodeItem(f, a).value).Fail?
    decreases f, 0
  {
    var x := SubAt(f, p, e);
    var b := EncodeFrom(x.fields, a, 0).value;
    TameBelow(f);
    hide EncodeFrom, DecodeNoinit, SetDefaults, Fresh, WellFormed, Encodable, Selecting, Terminated, ZeroDefaults,
      Substream, VarintBytes, Reaches, View, LongArrays, SizesFirst, TameField;
    DelimitedRoundTrip(b, []);
    assert Delimited(b) + [] == Delimited(b);
    if f.htype.Repeated? {
      DefaultsFresh(x, m);
      MessageFails(x, a, SetDefaults(x, m));
    } else {
      MessageFails(x, a, m);
    }
  }

  lemma StringFails(f: Field, a: seq<byte>, d: seq<byte>)
    requires Unterminated(f, a) && !f.ltype.Submessage? && ItemFor(f, d)
    ensures f.ltype.String? && DecodeValue(f, d, EncodeItem(f, a).value).Fail?
  {
    hide DecodeValue, EncodeItem, StringLen;
    StringRoundTripExact(f, a, d);
  }

  /** A record whose decoder refuses its payload breaks the loop. */
  lemma RecordFails(x: Struct, st: State, i: nat, payload: seq<byte>, tail: seq<byte>)
    requires StateFor(x, st) && i < |x.fields| && CanEnter(x, st, i)
    requires PlacedField(x.fields[i], Addr(x, i), |st.mem|) && WireType(x.fields[i].ltype) == STRING
    requires SkipField(STRING, payload) == Got((), [])
    requires DecodeCells(x.fields[i], st.mem, Addr(x, i), Enter(x.fields, st, i).fixedSize, STRING, payload).Fail?
    ensures DecodeLoop(x, st, FieldKey(x.fields[i]) + payload + tail).Broken?
  {
    hide Placed, PlacedField, DecodeCells, DecodeLoop, KeyBytes, SkipField, FixedComplete;
    LoopOfField(x, st, i, STRING, payload, tail);
  }

  /** What is sent for a string or a submessage is skipped as a whole. */
  lemma SentSkips(f: Field, a: seq<byte>)
    requires ItemFor(f, a) && (f.ltype.String? || f.ltype.Submessage?)
    requires EncodeItem(f, a).Some? && |EncodeItem(f, a).value| < TWO32
    ensures WireType(f.ltype) == STRING && SkipField(STRING, EncodeItem(f, a).value) == Got((), [])
  {
    hide EncodeFrom, VarintBytes, StringLen, WellFormed;
    var b := if f.ltype.String? then a[..StringLen(a)] else EncodeFrom(f.ptr.fields, a, 0).value;
    assert EncodeItem(f, a) == Some(Delimited(b));
    DelimitedRoundTrip(b, []);
    assert Delimited(b) + [] == Delimited(b);
    hide DecodeVarint32, Delimited, Substream;
  }

  lemma KindOfUnterminated(f: Field, a: seq<byte>)
    requires Unterminated(f, a)
    ensures ItemFor(f, a) && (f.ltype.String? || f.ltype.Submessage?) && !f.ltype.Packable()
    ensures EncodeItem(f, a).Some? && |EncodeItem(f, a).value| < TWO32
  {
    hide EncodeItem, StringLen, Terminated, WellFormedField;
  }

  // ---- Arrays ----

  /** Entry k of an array is not accepted. */
  lemma OneItemFails(x: Struct, a: seq<byte>, st: State, i: nat, k: nat, tail: seq<byte>)
    requires StateFor(x, st) && i < |x.fields| && CanEnter(x, st, i)
    requires ItemsFor(x.fields[i], a) && k < x.fields[i].arraySize && Loaded(x, st, i).size == k
    requires Unterminated(x.fields[i], ItemAt(x.fields[i], a, k))
    ensures DecodeLoop(x, st, FieldKey(x.fields[i])
                              + EncodeItem(x.fields[i], ItemAt(x.fields[i], a, k)).value + tail).Broken?
    decreases x.fields[i], 3
  {
    var f, p := x.fields[i], Addr(x, i);
    var count := Enter(x.fields, st, i).fixedSize;
    hide Placed, PlacedField, WellFormedField, EncodeItem, ItemAt, DecodeLoop, KeyBytes, ZeroDefault, TameField,
      CanEnter, DecodeCells, Loaded, Enter, Unterminated, Addr, SkipField, CursorSlot;
    PlacedEntry(x, i, |st.mem|);
    LoadedCursor(x, st, i);
    KindOfUnterminated(f, ItemAt(f, a, k));
    SentSkips(f, ItemAt(f, a, k));
    CellsOfItemFail(f, a, st.mem, p, count, k);
    RecordFails(x, st, i, EncodeItem(f, ItemAt(f, a, k)).value, tail);
  }

  lemma CellsOfItemFail(f: Field, a: seq<byte>, m: Memory, p: nat, count: nat, k: nat)
    requires PlacedField(f, p, |m|) && CellsAt(f, p, |m|) && ItemsFor(f, a) && k < f.arraySize
    requires CursorSlot(m, f, p, count).size == k && Unterminated(f, ItemAt(f, a, k))
    ensures DecodeCells(f, m, p, count, STRING, EncodeItem(f, ItemAt(f, a, k)).value).Fail?
    decreases f, 2
  {
    hide PlacedField, CellsAt, WellFormedField, EncodeItem, ItemAt, ZeroDefault, TameField, DecodeSubmessage,
      DecodeValue, CursorSlot, PutSizeAt, Unterminated, Fresh, View;
    ArrayBounds(f, k + 1);
    ModSmall(k + 1, TWO32);
    KindOfUnterminated(f, ItemAt(f, a, k));
    if f.ltype.Submessage? {
      PlacedSub(f, p, |m|, k);
      SubmessageFails(f, ItemAt(f, a, k), PutSizeAt(m, f, p, k + 1), p, k);
    } else {
      PlacedCells(f, p, |m|);
      StringFails(f, ItemAt(f, a, k), Target(f, CursorSlot(m, f, p, count)));
    }
  }

  /** An unpacked array with an entry that is not accepted, from entry k on. */
  lemma {:induction false} ItemsFail(x: Struct, a: seq<byte>, st: State, i: nat, k: nat, count: nat, tail: seq<byte>)
    requires StateFor(x, st) && i < |x.fields| && CanEnter(x, st, i) && ItemsFor(x.fields[i], a)
    requires k < count <= x.fields[i].arraySize
    requires ItemsSent(x.fields[i], a, count)
    requires SomeUnterminated(x.fields[i], a, k, count)
    requires Loaded(x, st, i).size == k && SameItems(x.fields[i], a, Loaded(x, st, i).data, k)
    requires EncodeItems(x.fields[i], a, k, count).Some? && |EncodeItems(x.fields[i], a, k, count).value| < TWO32
    ensures DecodeLoop(x, st, EncodeItems(x.fields[i], a, k, count).value + tail).Broken?
    decreases x.fields[i], 4, count - k
  {
    hide Placed, WellFormedField, EncodeItem, SameItems, ValidItem, ItemAt, DecodeLoop, Arrival, Loaded, KeyBytes,
      ZeroDefault, TameField, EncodeItems, CanEnter, TerminatedItem, EncodableItem, SelectingItem;
    var f, d := x.fields[i], ItemAt(x.fields[i], a, k);
    ItemsHead(f, a, k, count, tail);
    var rest := EncodeItems(f, a, k + 1, count).value;
    if TerminatedItem(f, d) {
      ValidItemExactly(f, d);
      var st1, t1 := OneItem(x, a, st, i, k, rest + tail);
      ArrivalLoaded(x, st, i, st1, t1);
      ItemsFail(x, a, st1, i, k + 1, count, tail);
    } else {
      OneItemFails(x, a, st, i, k, rest + tail);
    }
  }

  ghost predicate SomeUnterminated(f: Field, a: seq<byte>, k: nat, count: nat)
    requires WellFormedField(f) && |a| == f.dataSize * f.arraySize && count <= f.arraySize
  {
    exists j :: k <= j < count && !TerminatedItem(f, ItemAt(f, a, j))
  }

  ghost predicate ItemsSent(f: Field, a: seq<byte>, count: nat)
    requires WellFormedField(f) && |a| == f.dataSize * f.arraySize && count <= f.arraySize
  {
    forall j :: 0 <= j < count ==> EncodableItem(f, ItemAt(f, a, j)) && SelectingItem(f, ItemAt(f, a, j))
  }

  // ---- Fields ----

  /** What is known of entry i's slot in the message when it is next to arrive. */
  ghost predicate SlotSent(f: Field, s: Slot) {
    && SlotFor(f, s) && EncodableSlot(f, s) && SelectingSlot(f, s) && !TerminatedSlot(f, s)
    && EncodeSlot(f, s).Some? && |EncodeSlot(f, s).value| < TWO32
  }

  lemma EntryFails(x: Struct, s: Slot, st: State, i: nat, tail: seq<byte>)
    requires StateFor(x, st) && i < |x.fields| && Awaits(x, st, i) && SlotSent(x.fields[i], s)
    ensures DecodeLoop(x, st, EncodeSlot(x.fields[i], s).value + tail).Broken?
    decreases x.fields[i], 5
  {
    hide Placed, Awaits, SlotSent, DecodeLoop, EncodeSlot;
    if x.fields[i].htype.Repeated? {
      ArrayFails(x, s, st, i, tail);
    } else {
      SingleFails(x, s, st, i, tail);
    }
  }

  lemma ArrayFails(x: Struct, s: Slot, st: State, i: nat, tail: seq<byte>)
    requires StateFor(x, st) && i < |x.fields| && Awaits(x, st, i) && SlotSent(x.fields[i], s)
    requires x.fields[i].htype.Repeated?
    ensures DecodeLoop(x, st, EncodeSlot(x.fields[i], s).value + tail).Broken?
    decreases x.fields[i], 4
  {
    var f, count := x.fields[i], CountOf(x.fields[i], s);
    hide Placed, WellFormedField, DecodeLoop, Loaded, ZeroDefault, TameField, EncodeItems, EncodeSlot, CanEnter,
      SlotSent, ItemsSent, SomeUnterminated, SameItem, ItemAt, CountOf;
    ArraySent(f, s);
    ItemsFail(x, s.data, st, i, 0, count, tail);
  }

  lemma ArraySent(f: Field, s: Slot)
    requires SlotSent(f, s) && f.htype.Repeated?
    ensures SlotFor(f, s) && !f.ltype.Packable() && 0 < CountOf(f, s) <= f.arraySize
    ensures ItemsSent(f, s.data, CountOf(f, s)) && SomeUnterminated(f, s.data, 0, CountOf(f, s))
    ensures EncodeItems(f, s.data, 0, CountOf(f, s)) == EncodeSlot(f, s)
    ensures EncodeSlot(f, s).Some? && |EncodeSlot(f, s).value| < TWO32
  {
    hide WellFormedField, EncodeItems, PackedFrom, ItemAt, EncodableItem, SelectingItem, TerminatedItem,
      VarintBytes, KeyBytes;
    if f.ltype.Packable() {
      ScalarTerminated(f, s);
    }
  }

  lemma ScalarTerminated(f: Field, s: Slot)
    requires SlotFor(f, s) && f.htype.Repeated? && f.ltype.Packable()
    ensures TerminatedSlot(f, s)
  {
    hide WellFormedField, ItemAt;
  }

  lemma SingleFails(x: Struct, s: Slot, st: State, i: nat, tail: seq<byte>)
    requires StateFor(x, st) && i < |x.fields| && Awaits(x, st, i) && SlotSent(x.fields[i], s)
    requires !x.fields[i].htype.Repeated?
    ensures DecodeLoop(x, st, EncodeSlot(x.fields[i], s).value + tail).Broken?
    decreases x.fields[i], 3
  {
    var f, p := x.fields[i], Addr(x, i);
    var count := Enter(x.fields, st, i).fixedSize;
    hide Placed, PlacedField, WellFormedField, EncodeItem, DecodeLoop, KeyBytes, ZeroDefault, TameField, CanEnter,
      DecodeCells, Enter, Unterminated, Addr, SkipField, CursorSlot, FreshItem, SlotSent, EncodeSlot;
    PlacedEntry(x, i, |st.mem|);
    LoadedCursor(x, st, i);
    SlotUnterminated(f, s);
    KindOfUnterminated(f, s.data);
    SentSkips(f, s.data);
    CellsOfSingleFail(f, s.data, st.mem, p, count);
    RecordFails(x, st, i, EncodeItem(f, s.data).value, tail);
  }

  lemma SlotUnterminated(f: Field, s: Slot)
    requires SlotSent(f, s) && !f.htype.Repeated?
    ensures Unterminated(f, s.data) && EncodeSlot(f, s).value == FieldKey(f) + EncodeItem(f, s.data).value
  {
    hide WellFormedField, EncodeItem, KeyBytes, EncodableItem, SelectingItem, TerminatedItem, IsDefault;
  }

  lemma CellsOfSingleFail(f: Field, a: seq<byte>, m: Memory, p: nat, count: nat)
    requires PlacedField(f, p, |m|) && CellsAt(f, p, |m|) && !f.htype.Repeated? && Unterminated(f, a)
    requires ZeroDefault(f) && TameField(f)
    requires f.htype.Oneof? ==> CursorSlot(m, f, p, count).size != f.tag
    requires f.htype.Required? || f.htype.Optional? ==> ItemFor(f, CursorSlot(m, f, p, count).data)
    requires f.htype.Required? || f.htype.Optional? ==> FreshItem(f, CursorSlot(m, f, p, count).data)
    ensures DecodeCells(f, m, p, count, STRING, EncodeItem(f, a).value).Fail?
    decreases f, 2
  {
    hide PlacedField, CellsAt, WellFormedField, EncodeItem, ZeroDefault, TameField, DecodeSubmessage, DecodeValue,
      PutSizeAt, Unterminated, Fresh, View, SlotAt, ResetMember, FieldSpill;
    KindOfUnterminated(f, a);
    PlacedCells(f, p, |m|);
    if f.ltype.Submessage? {
      PreparedReady(f, m, p);
      SubmessageFails(f, a, Prepared(f, m, p), p, 0);
    } else {
      StringFails(f, a, Target(f, CursorSlot(m, f, p, count)));
    }
  }

  // ---- Messages ----

  /** What is known of a message whose encoding is being decoded from entry i on. */
  ghost predicate Sent(fields: seq<Field>, src: Memory, i: nat)
    requires WellFormed(fields, |src|) && i <= |fields|
  {
    && Encodable(fields, src) && Selecting(fields, src)
    && EncodeFrom(fields, src, i).Some? && |EncodeFrom(fields, src, i).value| < TWO32
  }

  lemma {:induction false} FromFails(x: Struct, src: Memory, st: State, i: nat)
    requires StateFor(x, st) && |src| == x.size && i < |x.fields| && Tame(x.fields)
    requires Progress(x, src, st, i) && ZeroDefaults(x.fields) && Sent(x.fields, src, i)
    requires UnterminatedFrom(x.fields, src, i)
    ensures DecodeLoop(x, st, EncodeFrom(x.fields, src, i).value).Broken?
    decreases x.fields, 1, |x.fields| - i
  {
    hide WellFormed, Reaches, GetSlot, Progress, ZeroDefaults, EncodeSlot, DecodeLoop, Present, SlotFor, ValidSlot,
      WhichValid, Tame, UnterminatedFrom, Awaits, SlotSent, Spill, LongArrays, Sent, EncodeFrom, TerminatedSlot,
      ZeroDefault, TameField;
    var f, s := x.fields[i], GetSlot(x.fields, i, src);
    WellFormedSlot(x.fields, i, src);
    SentSplit(x.fields, src, i);
    var rest := EncodeFrom(x.fields, src, i + 1).value;
    if !TerminatedSlot(f, s) {
      ZeroDefaultAt(x.fields, i);
      TameEntry(x.fields, i);
      ProgressAwaits(x, src, st, i);
      EntryFails(x, s, st, i, rest);
    } else {
      ValidSlotExactly(f, s);
      var st1 := st;
      if Present(f, s) {
        st1 := EntryRoundTrip(x, src, st, i, rest);
      } else {
        ProgressSkip(x, src, st, i);
        AbsentEncoding(f, s);
        assert EncodeSlot(f, s).value + rest == rest;
      }
      FromFails(x, src, st1, i + 1);
    }
  }

  ghost predicate UnterminatedFrom(fields: seq<Field>, src: Memory, i: nat)
    requires WellFormed(fields, |src|)
  {
    exists j :: i <= j < |fields| && !TerminatedSlot(fields[j], GetSlot(fields, j, src))
  }

  lemma SentSplit(fields: seq<Field>, src: Memory, i: nat)
    requires WellFormed(fields, |src|) && i < |fields| && Sent(fields, src, i) && UnterminatedFrom(fields, src, i)
    requires SlotFor(fields[i], GetSlot(fields, i, src))
    ensures var f, s := fields[i], GetSlot(fields, i, src);
            && EncodableSlot(f, s) && SelectingSlot(f, s) && WhichValid(fields, src)
            && EncodeSlot(f, s).Some? && |EncodeSlot(f, s).value| < TWO32
            && (TerminatedSlot(f, s) ==> i + 1 < |fields| && UnterminatedFrom(fields, src, i + 1))
            && (!TerminatedSlot(f, s) ==> Present(f, s) && SlotSent(f, s))
    ensures Sent(fields, src, i + 1) && EncodeFrom(fields, src, i + 1).Some?
    ensures EncodeFrom(fields, src, i).value
         == EncodeSlot(fields[i], GetSlot(fields, i, src)).value + EncodeFrom(fields, src, i + 1).value
  {
    hide WellFormed, GetSlot, EncodeSlot, WellFormedField, EncodableSlot, SelectingSlot, WhichValid,
      TerminatedSlot, Present;
    UnterminatedPresent(fields[i], GetSlot(fields, i, src));
  }

  lemma UnterminatedPresent(f: Field, s: Slot)
    requires SlotFor(f, s)
    ensures !TerminatedSlot(f, s) ==> Present(f, s)
  {
    hide WellFormedField, TerminatedItem, IsDefault;
  }

  lemma MessageFails(x: Struct, src: Memory, m: Memory)
    requires Placed(x, |m|) && |src| == x.size && Fresh(x.fields, View(x, m)) && Tame(x.fields)
    requires ZeroDefaults(x.fields) && Sent(x.fields, src, 0) && !Terminated(x.fields, src)
    ensures DecodeNoinit(x, m, EncodeMessage(x.fields, src).value).Fail?
    decreases x.fields, 2
  {
    hide WellFormed, Reaches, ZeroDefaults, DecodeLoop, EncodeFrom, Fresh, Progress, View, Tame, Sent, TerminatedSlot,
      GetSlot;
    ProgressStart(x, src, m);
    FromFails(x, src, Start(m), 0);
  }

  /** With which_ cells that name members, a message whose encoding is shorter than 2^32 bytes is accepted
      back, whatever memory held before, if and only if every string that is sent is terminated; and
      then it is the same message. */
  lemma RoundTripExactly(x: Struct, src: Memory, m: Memory)
    requires Placed(x, |m|) && |src| == x.size && ZeroDefaults(x.fields) && Tame(x.fields)
    requires Selecting(x.fields, src)
    requires EncodeMessage(x.fields, src).Some? && |EncodeMessage(x.fields, src).value| < TWO32
    ensures Decode(x, m, EncodeMessage(x.fields, src).value).Ok? <==> Terminated(x.fields, src)
    ensures Terminated(x.fields, src)
        ==> SameMessage(x.fields, src, View(x, Decode(x, m, EncodeMessage(x.fields, src).value).value))
  {
    hide WellFormed, Reaches, ValidMessage, ZeroDefaults, DecodeNoinit, SetDefaults, EncodeFrom, SameMessage,
      Fresh, View, Spill, Tame, Encodable, Selecting, Terminated;
    EncodesExactly(x.fields, src);
    ValidExactly(x.fields, src);
    if Terminated(x.fields, src) {
      DecodeUndoesEncode(x, src, m);
    } else {
      DefaultsFresh(x, m);
      MessageFails(x, src, SetDefaults(x, m));
    }
  }
}
