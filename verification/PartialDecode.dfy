/** How far a struct has got while the encoding of a message is decoded into it, entry by entry: the
    entries before are as in the message, those after are as the defaults left them. */
module PartialDecode {
  import opened Bits
  import opened Wire
  import opened Descriptor
  import opened StructMemory
  import opened Encoding
  import opened Decoding
  import opened Effects
  import opened Arrivals
  import opened Messages
  import opened RequiredFields

  /** Every which_ cell of the struct is 0 or the tag of a member of its union. */
  ghost predicate WhichValid(fields: seq<Field>, m: Memory)
    requires WellFormed(fields, |m|)
  {
    forall j :: 0 <= j < |fields| ==> ValidWhich(fields, m, j)
  }

  /** What the decoder must find in entry i's cells before its records arrive. */
  ghost predicate Awaits(x: Struct, st: State, i: nat)
    requires StateFor(x, st) && i < |x.fields|
  {
    var f, slot := x.fields[i], Loaded(x, st, i);
    && CanEnter(x, st, i)
    && WellFormedField(f) && ZeroDefault(f) && TameField(f)
    && (f.htype.Repeated? ==> slot.size == 0)
    && (f.htype.Oneof? ==> slot.size != f.tag)
    && (f.htype.Required? || f.htype.Optional? ==> FreshItem(f, slot.data))
  }

  /** The which_ value that has arrived once entries before i are decoded. */
  function Arrived(fields: seq<Field>, which: nat, i: nat): nat {
    if which != 0 && IndexOf(fields, which) < i then which else 0
  }

  /** How far entry j's cells have got once entries before i are decoded. */
  ghost predicate Status(fields: seq<Field>, src: Memory, m: Memory, j: nat, i: nat)
    requires WellFormed(fields, |src|) && |m| == |src| && j < |fields|
  {
    var f, s, t := fields[j], GetSlot(fields, j, src), GetSlot(fields, j, m);
    if f.htype.Oneof? then
      t.size == Arrived(fields, s.size, i) && (j < i && s.size == f.tag ==> SameItem(f, s.data, t.data))
    else if j < i then SameSlot(f, s, t)
    else FreshSlot(f, t)
  }

  ghost predicate AllStatus(fields: seq<Field>, src: Memory, m: Memory, i: nat)
    requires WellFormed(fields, |src|) && |m| == |src|
  {
    forall j :: 0 <= j < |fields| ==> Status(fields, src, m, j, i)
  }

  predicate Marked(fields: seq<Field>, seen: set<nat>, i: nat)
    requires i <= |fields|
  {
    forall j :: 0 <= j < i ==> Mark(fields, j) <= seen
  }

  ghost predicate Progress(x: Struct, src: Memory, st: State, i: nat)
    requires StateFor(x, st) && |src| == x.size && i <= |x.fields|
  {
    && AllStatus(x.fields, src, View(x, st.mem), i)
    && Marked(x.fields, st.seen, i)
    && FixedComplete(x.fields, st)
    && (st.fixedField.Some? ==> st.fixedField.value < i)
  }

  // ---- A field arrives ----

  /** Before a present entry is decoded its cells are as the defaults left them. */
  lemma ProgressAwaits(x: Struct, src: Memory, st: State, i: nat)
    requires StateFor(x, st) && |src| == x.size && i < |x.fields|
    requires Progress(x, src, st, i) && ZeroDefault(x.fields[i]) && TameField(x.fields[i])
    requires SlotFor(x.fields[i], GetSlot(x.fields, i, src)) && Present(x.fields[i], GetSlot(x.fields, i, src))
    ensures Awaits(x, st, i)
  {
    hide WellFormed, Reaches, GetSlot, SlotAt, Fresh, FreshItem, SameItem, IsDefault, ZeroDefault, TameField, View,
      PlacedField, Read, FromLittleEndian, SameSlot, Addr, CellsFor;
    assert AllStatus(x.fields, src, View(x, st.mem), i) && Status(x.fields, src, View(x, st.mem), i, i);
    PlacedEntry(x, i, |st.mem|);
    LoadedSlot(x, st, i);
    TagsDiffer(x.fields, x.size, i, i);
  }

  /** What the decoder loads is what the struct holds, but for the count of a fixed-count array. */
  lemma LoadedSlot(x: Struct, st: State, i: nat)
    requires StateFor(x, st) && i < |x.fields|
    ensures Loaded(x, st, i).data == GetSlot(x.fields, i, View(x, st.mem)).data
    ensures !FixedCount(x.fields[i]) ==> Loaded(x, st, i) == GetSlot(x.fields, i, View(x, st.mem))
    ensures FixedCount(x.fields[i]) && st.fixedField != Some(i) ==> Loaded(x, st, i).size == 0
  {
    hide Placed, PlacedField, GetSlot, View, Read, FromLittleEndian, Addr, CellsFor;
    ViewSlot(x, i, st.mem);
  }

  /** Records of entry i leave the cells of entry j as they should be, or share their which_ cell. */
  lemma ArrivalOnOther(x: Struct, src: Memory, st: State, i: nat, st': State, t: Slot, j: nat)
    requires StateFor(x, st) && StateFor(x, st') && |st'.mem| == |st.mem| && |src| == x.size && Tame(x.fields)
    requires i < |x.fields| && j < |x.fields| && i != j && Arrival(x, st, i, st', t)
    requires Status(x.fields, src, View(x, st.mem), j, i)
    requires ValidWhich(x.fields, src, j)
    requires x.fields[i].htype.Oneof? ==> t.size == x.fields[i].tag == GetSize(x.fields, i, src)
    ensures Status(x.fields, src, View(x, st'.mem), j, i + 1)
  {
    hide WellFormed, Reaches, Status, Arrival, GetSize, ValidWhich, Tame, View;
    if Leader(x.fields, i) != Leader(x.fields, j) {
      ArrivalApart(x, src, st, i, st', t, j);
    } else {
      SharedAreOneof(x.fields, i, j);
      ArrivalInUnion(x, src, st, i, st', t, j);
    }
  }

  lemma ArrivalSpill(x: Struct, st: State, i: nat, st': State, t: Slot)
    requires StateFor(x, st) && StateFor(x, st') && |st'.mem| == |st.mem| && i < |x.fields|
    requires Arrival(x, st, i, st', t)
    ensures FieldSpill(x.fields[i], Addr(x, i), st.mem, st'.mem, LongBelow(x.fields[i]))
  {
    hide Placed, FieldSpill, Mark, CursorSlot, Addr, LongBelow, PlacedField;
  }

  lemma ArrivalApart(x: Struct, src: Memory, st: State, i: nat, st': State, t: Slot, j: nat)
    requires StateFor(x, st) && StateFor(x, st') && |st'.mem| == |st.mem| && |src| == x.size && Tame(x.fields)
    requires i < |x.fields| && j < |x.fields| && Leader(x.fields, i) != Leader(x.fields, j)
    requires Arrival(x, st, i, st', t)
    requires Status(x.fields, src, View(x, st.mem), j, i) && ValidWhich(x.fields, src, j)
    ensures Status(x.fields, src, View(x, st'.mem), j, i + 1)
  {
    hide WellFormed, Reaches, Status, Arrival, GetSize, ValidWhich, View, FieldSpill, LongBelow, SizeFirst, PData,
      LongArrays, SizesFirst, GetSlot;
    ArrivalSpill(x, st, i, st', t);
    TameEntry(x.fields, i);
    if LongArrays(x.fields) || PData(x.fields, j) <= PData(x.fields, i) {
      SlotKept(x, st.mem, st'.mem, i, j, LongBelow(x.fields[i]));
      StatusKept(x.fields, src, View(x, st.mem), View(x, st'.mem), i, j);
    } else {
      StatusLater(x, src, st.mem, st'.mem, i, j, LongBelow(x.fields[i]));
    }
  }

  lemma StatusKept(fields: seq<Field>, src: Memory, v: Memory, v': Memory, i: nat, j: nat)
    requires WellFormed(fields, |src|) && |v| == |src| == |v'| && i < |fields| && j < |fields|
    requires Leader(fields, i) != Leader(fields, j) && GetSlot(fields, j, v') == GetSlot(fields, j, v)
    requires Status(fields, src, v, j, i) && ValidWhich(fields, src, j)
    ensures Status(fields, src, v', j, i + 1)
  {
    hide WellFormed, GetData, SameItem, FreshSlot, SameSlot, GetSize;
    if fields[j].htype.Oneof? && GetSize(fields, j, src) != 0 {
      WhichInUnion(fields, src, j);
    }
  }

  /** An entry that starts later is still fresh: bytes cleared in it leave it fresh. */
  lemma StatusLater(x: Struct, src: Memory, m: Memory, m': Memory, i: nat, j: nat, long: bool)
    requires Placed(x, |m|) && |m'| == |m| && |src| == x.size && i < |x.fields| && j < |x.fields|
    requires Leader(x.fields, i) != Leader(x.fields, j) && PData(x.fields, j) > PData(x.fields, i)
    requires FieldSpill(x.fields[i], Addr(x, i), m, m', long)
    requires Status(x.fields, src, View(x, m), j, i) && ValidWhich(x.fields, src, j)
    ensures Status(x.fields, src, View(x, m'), j, i + 1)
  {
    var f, v, v' := x.fields[j], View(x, m), View(x, m');
    hide WellFormed, Reaches, GetSlot, GetSize, SameItem, FreshSlot, SameSlot, View, FieldSpill, SlotAt, PData, InCells,
      CellsFor, PlacedField, Zeroed, ValidWhich, WellFormedField;
    ViewSlot(x, j, m);
    ViewSlot(x, j, m');
    CellsSpilled(x, m, m', i, j, long);
    hide Addr;
    CellsZeroed(f, Addr(x, j), m, m');
    OrderOfStarts(x.fields, i, j);
    if f.htype.Oneof? {
      WhichLater(x.fields, src, i, j);
    } else {
      FreshSlotZeroed(f, GetSlot(x.fields, j, v), GetSlot(x.fields, j, v'));
    }
  }

  lemma OrderOfStarts(fields: seq<Field>, i: nat, j: nat)
    requires i < |fields| && j < |fields| && PData(fields, j) > PData(fields, i)
    ensures j > i
  {
    if j <= i {
      PDataOrder(fields, j, i);
    }
  }

  /** Nothing has arrived in a union that starts later. */
  lemma WhichLater(fields: seq<Field>, src: Memory, i: nat, j: nat)
    requires WellFormed(fields, |src|) && i < j < |fields| && ValidWhich(fields, src, j)
    requires fields[j].htype.Oneof? && PData(fields, j) > PData(fields, i)
    ensures Arrived(fields, GetSize(fields, j, src), i) == 0
    ensures Arrived(fields, GetSize(fields, j, src), i + 1) == 0
  {
    hide WellFormed, GetSize, PData;
    var w := GetSize(fields, j, src);
    if w != 0 {
      WhichInUnion(fields, src, j);
      var k := IndexOf(fields, w);
      UnionShares(fields, k);
      UnionShares(fields, j);
      OrderOfStarts(fields, i, k);
    }
  }

  lemma ArrivalInUnion(x: Struct, src: Memory, st: State, i: nat, st': State, t: Slot, j: nat)
    requires StateFor(x, st) && StateFor(x, st') && |st'.mem| == |st.mem| && |src| == x.size
    requires i < |x.fields| && j < |x.fields| && i != j && Leader(x.fields, i) == Leader(x.fields, j)
    requires x.fields[i].htype.Oneof? && x.fields[j].htype.Oneof? && Arrival(x, st, i, st', t)
    requires t.size == x.fields[i].tag == GetSize(x.fields, i, src)
    ensures Status(x.fields, src, View(x, st'.mem), j, i + 1)
  {
    hide WellFormed, Reaches, GetData, GetSize, SameItem, View, Arrival, Leader;
    TagsDiffer(x.fields, x.size, i, j);
    ArrivalSlot(x, st, i, st', t);
    UnionSizeShared(x.fields, i, j, View(x, st'.mem));
    UnionSizeShared(x.fields, i, j, src);
  }

  lemma TagsDiffer(fields: seq<Field>, size: nat, i: nat, j: nat)
    requires WellFormed(fields, size) && i < |fields| && j < |fields|
    ensures (i != j ==> fields[i].tag != fields[j].tag) && fields[i].tag > 0 && IndexOf(fields, fields[i].tag) == i
  {
    IndexOfTag(fields, i);
    assert i < j ==> fields[i].tag != fields[j].tag;
    assert j < i ==> fields[j].tag != fields[i].tag;
  }

  /** A nonzero which_ value leads back into its own union. */
  lemma WhichInUnion(fields: seq<Field>, m: Memory, j: nat)
    requires WellFormed(fields, |m|) && j < |fields| && ValidWhich(fields, m, j)
    requires fields[j].htype.Oneof? && GetSize(fields, j, m) != 0
    ensures IndexOf(fields, GetSize(fields, j, m)) < |fields|
    ensures Leader(fields, IndexOf(fields, GetSize(fields, j, m))) == Leader(fields, j)
  {
    var k :| 0 <= k < |fields| && fields[k].tag == GetSize(fields, j, m) && Leader(fields, k) == Leader(fields, j);
    IndexOfTag(fields, k);
  }

  lemma ProgressStep(x: Struct, src: Memory, st: State, i: nat, st': State, t: Slot)
    requires StateFor(x, st) && StateFor(x, st') && |st'.mem| == |st.mem| && |src| == x.size && Tame(x.fields)
    requires i < |x.fields| && Progress(x, src, st, i) && Arrival(x, st, i, st', t)
    requires FixedCount(x.fields[i]) ==> t.size == x.fields[i].arraySize
    requires WhichValid(x.fields, src)
    requires SlotFor(x.fields[i], GetSlot(x.fields, i, src)) && SlotFor(x.fields[i], t)
    requires SameSlot(x.fields[i], GetSlot(x.fields, i, src), t)
    requires x.fields[i].htype.Oneof? ==> GetSize(x.fields, i, src) == x.fields[i].tag == t.size
    ensures Progress(x, src, st', i + 1)
  {
    hide WellFormed, Reaches, AllStatus, Marked, Arrival, SameSlot, Mark, WhichValid, SlotFor, View, Tame, GetSize,
      GetSlot;
    AllStatusStep(x, src, st, i, st', t);
    MarkedStep(x, st, i, st', t);
    ArrivalFixed(x, st, i, st', t);
  }

  lemma MarkedStep(x: Struct, st: State, i: nat, st': State, t: Slot)
    requires StateFor(x, st) && StateFor(x, st') && |st'.mem| == |st.mem| && i < |x.fields|
    requires Marked(x.fields, st.seen, i) && Arrival(x, st, i, st', t)
    ensures Marked(x.fields, st'.seen, i + 1)
  {
    hide Placed, PlacedField, Mark, FieldSpill, CursorSlot, Addr;
  }

  lemma ArrivalFixed(x: Struct, st: State, i: nat, st': State, t: Slot)
    requires StateFor(x, st) && StateFor(x, st') && |st'.mem| == |st.mem| && i < |x.fields|
    requires Arrival(x, st, i, st', t)
    requires FixedComplete(x.fields, st) && (st.fixedField.Some? ==> st.fixedField.value < i)
    requires FixedCount(x.fields[i]) ==> t.size == x.fields[i].arraySize
    ensures FixedComplete(x.fields, st') && (st'.fixedField.Some? ==> st'.fixedField.value < i + 1)
  {
    hide Placed, PlacedField, Mark, FieldSpill, CursorSlot, Addr;
  }

  lemma AllStatusStep(x: Struct, src: Memory, st: State, i: nat, st': State, t: Slot)
    requires StateFor(x, st) && StateFor(x, st') && |st'.mem| == |st.mem| && |src| == x.size && Tame(x.fields)
    requires i < |x.fields| && AllStatus(x.fields, src, View(x, st.mem), i) && Arrival(x, st, i, st', t)
    requires WhichValid(x.fields, src)
    requires SlotFor(x.fields[i], GetSlot(x.fields, i, src)) && SlotFor(x.fields[i], t)
    requires SameSlot(x.fields[i], GetSlot(x.fields, i, src), t)
    requires x.fields[i].htype.Oneof? ==> GetSize(x.fields, i, src) == x.fields[i].tag == t.size
    ensures AllStatus(x.fields, src, View(x, st'.mem), i + 1)
  {
    hide WellFormed, Reaches, Arrival, GetSize, GetSlot, SameSlot, ValidWhich, SlotFor, Status, View, Tame;
    var n := i + 1;
    forall j | 0 <= j < |x.fields|
      ensures Status(x.fields, src, View(x, st'.mem), j, n)
    {
      if j == i {
        StatusOfStepped(x, src, st, i, st', t);
      } else {
        ArrivalOnOther(x, src, st, i, st', t, j);
      }
    }
  }

  lemma StatusOfStepped(x: Struct, src: Memory, st: State, i: nat, st': State, t: Slot)
    requires StateFor(x, st) && StateFor(x, st') && |st'.mem| == |st.mem| && |src| == x.size
    requires i < |x.fields| && Arrival(x, st, i, st', t)
    requires SlotFor(x.fields[i], GetSlot(x.fields, i, src)) && SlotFor(x.fields[i], t)
    requires SameSlot(x.fields[i], GetSlot(x.fields, i, src), t)
    requires x.fields[i].htype.Oneof? ==> GetSize(x.fields, i, src) == x.fields[i].tag
    ensures Status(x.fields, src, View(x, st'.mem), i, i + 1)
  {
    hide WellFormed, Reaches, Arrival, GetData, GetSize, View, SameItem, FreshSlot, WellFormedField;
    TagsDiffer(x.fields, x.size, i, i);
    ArrivalSlot(x, st, i, st', t);
    WellFormedSlot(x.fields, i, View(x, st'.mem));
  }

  // ---- A field the encoder leaves out ----

  /** An entry the encoder leaves out is already what it should be. */
  lemma ProgressSkip(x: Struct, src: Memory, st: State, i: nat)
    requires StateFor(x, st) && |src| == x.size
    requires i < |x.fields| && Progress(x, src, st, i) && WhichValid(x.fields, src)
    requires SlotFor(x.fields[i], GetSlot(x.fields, i, src)) && !Present(x.fields[i], GetSlot(x.fields, i, src))
    ensures Progress(x, src, st, i + 1)
  {
    hide WellFormed, Reaches, AllStatus, Mark, WhichValid, Present, SlotFor, View, GetSlot;
    AbsentUnmarked(x.fields, src, i);
    AllStatusSkip(x.fields, src, View(x, st.mem), i);
  }

  lemma AbsentUnmarked(fields: seq<Field>, src: Memory, i: nat)
    requires WellFormed(fields, |src|) && i < |fields|
    requires SlotFor(fields[i], GetSlot(fields, i, src)) && !Present(fields[i], GetSlot(fields, i, src))
    ensures Mark(fields, i) == {} && !FixedCount(fields[i])
  {
    FixedNonempty(fields[i]);
  }

  lemma FixedNonempty(f: Field)
    requires WellFormedField(f)
    ensures FixedCount(f) ==> f.arraySize > 0
  {
    assert f.arraySize == 0 ==> f.dataSize * f.arraySize == 0;
  }

  lemma AllStatusSkip(fields: seq<Field>, src: Memory, m: Memory, i: nat)
    requires WellFormed(fields, |src|) && |m| == |src| && i < |fields|
    requires WhichValid(fields, src) && AllStatus(fields, src, m, i)
    requires SlotFor(fields[i], GetSlot(fields, i, src)) && !Present(fields[i], GetSlot(fields, i, src))
    ensures AllStatus(fields, src, m, i + 1)
  {
    hide WellFormed, GetSlot, SlotFor, Present, Status, WhichValid;
    var n := i + 1;
    forall j | 0 <= j < |fields|
      ensures Status(fields, src, m, j, n)
    {
      StatusSkip(fields, src, m, i, j);
    }
  }

  lemma StatusSkip(fields: seq<Field>, src: Memory, m: Memory, i: nat, j: nat)
    requires WellFormed(fields, |src|) && |m| == |src| && i < |fields| && j < |fields|
    requires WhichValid(fields, src) && Status(fields, src, m, j, i)
    requires SlotFor(fields[i], GetSlot(fields, i, src)) && !Present(fields[i], GetSlot(fields, i, src))
    ensures Status(fields, src, m, j, i + 1)
  {
    var w := GetSize(fields, j, src);
    if fields[j].htype.Oneof? {
      assert ValidWhich(fields, src, j);
      if w != 0 {
        WhichInUnion(fields, src, j);
        if IndexOf(fields, w) == i && i != j {
          SharedAreOneof(fields, i, j);
          UnionSizeShared(fields, i, j, src);
        }
      }
    } else if j == i {
      SkippedSame(fields[i], GetSlot(fields, i, src), GetSlot(fields, i, m));
    }
    hide WellFormed, GetData, GetSize, SameItem, FreshSlot, SameSlot;
  }

  lemma SkippedSame(f: Field, s: Slot, t: Slot)
    requires SlotFor(f, s) && SlotFor(f, t) && !Present(f, s) && FreshSlot(f, t) && !f.htype.Oneof?
    ensures SameSlot(f, s, t)
  {
    if f.htype.Optional? {
      if f.sizeOffset == 0 {
        DefaultFreshSame(f, s, t);
      }
    }
  }

  // ---- The start and the end ----

  lemma ProgressStart(x: Struct, src: Memory, m: Memory)
    requires Placed(x, |m|) && |src| == x.size && Fresh(x.fields, View(x, m))
    ensures Progress(x, src, Start(m), 0)
  {
    hide Reaches, View;
    forall j | 0 <= j < |x.fields|
      ensures Status(x.fields, src, View(x, m), j, 0)
    {
      assert FreshSlot(x.fields[j], GetSlot(x.fields, j, View(x, m)));
    }
    hide WellFormed, Status, Mark;
  }

  /** The finished message passes the checks after the loop and is the message encoded. */
  lemma ProgressDone(x: Struct, src: Memory, st: State)
    requires StateFor(x, st) && |src| == x.size
    requires Progress(x, src, st, |x.fields|) && WhichValid(x.fields, src)
    ensures FixedComplete(x.fields, st) && AllRequiredSeen(x.fields, st.seen)
    ensures SameMessage(x.fields, src, View(x, st.mem))
  {
    hide WellFormed, Reaches, View, SameSlot, Status, GetSlot, ValidWhich, SlotFor, Marked, AllRequiredSeen;
    MarkedAll(x.fields, st.seen);
    forall j | 0 <= j < |x.fields|
      ensures SlotFor(x.fields[j], GetSlot(x.fields, j, src))
      ensures SlotFor(x.fields[j], GetSlot(x.fields, j, View(x, st.mem)))
      ensures SameSlot(x.fields[j], GetSlot(x.fields, j, src), GetSlot(x.fields, j, View(x, st.mem)))
    {
      WellFormedSlot(x.fields, j, src);
      WellFormedSlot(x.fields, j, View(x, st.mem));
      assert AllStatus(x.fields, src, View(x, st.mem), |x.fields|);
      assert ValidWhich(x.fields, src, j);
      StatusDone(x.fields, src, View(x, st.mem), j);
    }
  }

  lemma MarkedAll(fields: seq<Field>, seen: set<nat>)
    requires Marked(fields, seen, |fields|)
    ensures AllRequiredSeen(fields, seen)
  {
    forall r | 0 <= r < RequiredBefore(fields, |fields|) && r < MAX_REQUIRED_FIELDS
      ensures r in seen
    {
      var j := RequiredIndex(fields, |fields|, r);
      assert Mark(fields, j) <= seen;
    }
  }

  lemma StatusDone(fields: seq<Field>, src: Memory, m: Memory, j: nat)
    requires WellFormed(fields, |src|) && |m| == |src| && j < |fields|
    requires Status(fields, src, m, j, |fields|) && ValidWhich(fields, src, j)
    ensures SameSlot(fields[j], GetSlot(fields, j, src), GetSlot(fields, j, m))
  {
    var w := GetSize(fields, j, src);
    if fields[j].htype.Oneof? && w != 0 {
      WhichInUnion(fields, src, j);
    }
    hide WellFormed, GetData, GetSize, SameItem;
  }
}
