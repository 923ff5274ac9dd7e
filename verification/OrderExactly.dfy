/** When the order of two records of different fields matters: exactly if the fields share a oneof, if
    both are fixed-count arrays, or if a zero count that one spills falls on a byte the other heeds. */
module OrderExactly {
  import opened Bits
  import opened Wire
  import opened Descriptor
  import opened StructMemory
  import opened Encoding
  import opened Decoding
  import opened Locality
  import opened Records
  import opened Effects
  import opened Frame
  import opened Messages
  import opened Heeded
  import opened FieldOrder
  import opened Planted
  import opened Loud
  import opened Accepted
  import opened Clearing

  ghost predicate RecordOf(x: Struct, i: nat, a: seq<byte>) {
    AgreeingRecord(x.fields, a) && FieldOfRecord(x.fields, a) == i
  }

  /** The two orders of a and b, with anything after them: the same run, or two failures. */
  ghost predicate Swaps(x: Struct, st: State, a: seq<byte>, b: seq<byte>, tail: seq<byte>)
    requires StateFor(x, st)
  {
    var r, r' := DecodeLoop(x, st, a + b + tail), DecodeLoop(x, st, b + a + tail);
    r == r' || (r.Broken? && r'.Broken?)
  }

  /** The order of records of entries i and j does not matter, from any state. */
  ghost predicate OrderFree(x: Struct, len: nat, i: nat, j: nat) {
    forall st: State, a: seq<byte>, b: seq<byte>, tail: seq<byte> ::
      StateFor(x, st) && |st.mem| == len && RecordOf(x, i, a) && RecordOf(x, j, b) ==> Swaps(x, st, a, b, tail)
  }

  lemma OrderFreeSym(x: Struct, len: nat, i: nat, j: nat)
    requires OrderFree(x, len, i, j)
    ensures OrderFree(x, len, j, i)
  {
    hide DecodeLoop, AgreeingRecord, FieldOfRecord, Placed;
    forall st: State, a: seq<byte>, b: seq<byte>, tail: seq<byte> |
      StateFor(x, st) && |st.mem| == len && RecordOf(x, j, a) && RecordOf(x, i, b)
      ensures Swaps(x, st, a, b, tail)
    {
      assert Swaps(x, st, b, a, tail);
    }
  }

  /** The record that brings item d to entry i. */
  ghost function RecordFor(x: Struct, i: nat, d: seq<byte>): seq<byte>
    requires i < |x.fields| && ItemFor(x.fields[i], d) && ValidItem(x.fields[i], d)
  {
    FieldKey(x.fields[i]) + Payload(x.fields[i], d)
  }

  lemma RecordShape(x: Struct, i: nat, m: Memory, count: nat, e: nat, d: seq<byte>)
    requires Placed(x, |m|) && i < |x.fields| && Regular(x.fields[i]) && Ready(x.fields[i], Addr(x, i), m, count, e)
    requires ItemFor(x.fields[i], d) && ValidItem(x.fields[i], d)
    ensures RecordOf(x, i, RecordFor(x, i, d))
    ensures KeyOf(RecordFor(x, i, d)) % 8 == WireType(x.fields[i].ltype)
    ensures PayloadOf(RecordFor(x, i, d)) == Payload(x.fields[i], d)
  {
    var f := x.fields[i];
    hide Placed, PlacedField, DecodeCells, SkipField, KeyBytes, Payload, ValidItem, Ready, Regular, Holding,
      AgreeingRecord, FieldOfRecord, KeyOf, PayloadOf, Addr;
    PlacedEntry(x, i, |m|);
    TableOf(x, |m|);
    RecordAccepted(f, Addr(x, i), m, count, e, d);
    DecodeCellsConsumes(f, m, Addr(x, i), count, WireType(f.ltype), Payload(f, d));
    FieldRecord(x.fields, x.size, i, WireType(f.ltype), Payload(f, d));
    SmallWireType(f, WireType(f.ltype));
  }

  /** One order is accepted, and the other is not or ends elsewhere. */
  lemma NotSwapped(x: Struct, st: State, i: nat, a: seq<byte>, j: nat, b: seq<byte>)
    requires StateFor(x, st) && i < |x.fields| && j < |x.fields| && RecordOf(x, i, a) && RecordOf(x, j, b)
    requires var ra := DecodeField(x, st, i, KeyOf(a) % 8, PayloadOf(a));
             var rab := DecodeField(x, ra.value, j, KeyOf(b) % 8, PayloadOf(b));
             var rb := DecodeField(x, st, j, KeyOf(b) % 8, PayloadOf(b));
             var rba := DecodeField(x, rb.value, i, KeyOf(a) % 8, PayloadOf(a));
             ra.Ok? && rab.Ok? && !(rb.Ok? && rba.Ok? && rba.value.mem == rab.value.mem)
    ensures !Swaps(x, st, a, b, []) && !OrderFree(x, |st.mem|, i, j)
  {
    hide DecodeLoop, DecodeField, Placed, WireTypeAgrees, SkipField, DecodeVarint32, IndexOf;
    TwoRecords(x, st, a, b, []);
    TwoRecords(x, st, b, a, []);
    var ra := DecodeField(x, st, i, KeyOf(a) % 8, PayloadOf(a));
    var rb := DecodeField(x, st, j, KeyOf(b) % 8, PayloadOf(b));
    LoopOfNothing(x, DecodeField(x, ra.value, j, KeyOf(b) % 8, PayloadOf(b)).value);
    LoopOfNothing(x, DecodeField(x, rb.value, i, KeyOf(a) % 8, PayloadOf(a)).value);
  }

  // ---- A record from blank cells ----

  /** The record of item d is accepted, and what it leaves. */
  lemma Arrives(x: Struct, st: State, i: nat, e: nat, d: seq<byte>) returns (r: Result<State>)
    requires StateFor(x, st) && i < |x.fields| && Regular(x.fields[i]) && !Waits(x, st, i)
    requires ItemFor(x.fields[i], d) && ValidItem(x.fields[i], d)
    requires Ready(x.fields[i], Addr(x, i), st.mem, Enter(x.fields, st, i).fixedSize, e)
    ensures RecordOf(x, i, RecordFor(x, i, d))
    ensures r == DecodeField(x, st, i, KeyOf(RecordFor(x, i, d)) % 8, PayloadOf(RecordFor(x, i, d)))
    ensures r.Ok? && Holding(x.fields[i], Addr(x, i), r.value.mem, e, d)
    ensures PlacedField(x.fields[i], Addr(x, i), |st.mem|)
    ensures r.value.mem == DecodeCells(x.fields[i], st.mem, Addr(x, i), Enter(x.fields, st, i).fixedSize,
                                       WireType(x.fields[i].ltype), Payload(x.fields[i], d)).value.mem
    ensures if FixedCount(x.fields[i]) then r.value.fixedField == Some(i) && r.value.fixedSize == e + 1
            else r.value.fixedField == st.fixedField && r.value.fixedSize == st.fixedSize
  {
    var f := x.fields[i];
    var count := Enter(x.fields, st, i).fixedSize;
    hide Placed, PlacedField, DecodeCells, DecodeField, Payload, ValidItem, Ready, Regular, Holding, RecordOf,
      RecordFor, KeyOf, PayloadOf, Addr, FixedComplete, Mark;
    RecordShape(x, i, st.mem, count, e, d);
    FieldShape(x, st, i, WireType(f.ltype), Payload(f, d));
    RecordAccepted(f, Addr(x, i), st.mem, count, e, d);
    r := DecodeField(x, st, i, WireType(f.ltype), Payload(f, d));
  }

  lemma BlankAnyCount(f: Field, p: nat, m: Memory, count: nat, count': nat, e: nat)
    requires Blank(f, p, m, count, e) && (FixedCount(f) ==> count' == e)
    ensures Blank(f, p, m, count', e)
  {
    hide PlacedField, SlotAt;
    PlacedCells(f, p, |m|);
  }

  /** Cells that are as they were or lower stay blank, if a count above zero is untouched. */
  lemma BlankAfter(f: Field, p: nat, m: Memory, m': Memory, count: nat, e: nat)
    requires Blank(f, p, m, count, e) && |m'| == |m|
    requires forall k :: 0 <= k < |m| && InCells(f, p, k) ==> Lowered(m[k], m'[k])
    requires Counted(f) && e > 0 ==> forall k :: 0 <= k < |m| && InSizeCell(f, p, k) ==> m'[k] == m[k]
    ensures Blank(f, p, m', count, e)
  {
    hide FieldReaches, WellFormedField, DataLen, SizeLen, FromLittleEndian, Read, CellsFor;
    PlacedCells(f, p, |m|);
    DataAfter(f, p, m, m');
    SizeAfter(f, p, m, m', count, e);
  }

  lemma DataAfter(f: Field, p: nat, m: Memory, m': Memory)
    requires CellsAt(f, p, |m|) && |m'| == |m| && Read(m, p, DataLen(f)) == Zeros(DataLen(f))
    requires forall k :: 0 <= k < |m| && InCells(f, p, k) ==> Lowered(m[k], m'[k])
    ensures Read(m', p, DataLen(f)) == Zeros(DataLen(f))
  {
    hide DataLen, SizeLen;
    var a, b := Read(m', p, DataLen(f)), Read(m, p, DataLen(f));
    forall k | 0 <= k < DataLen(f)
      ensures a[k] == 0
    {
      assert b[k] == m[p + k] && a[k] == m'[p + k] && InCells(f, p, p + k);
    }
  }

  lemma SizeAfter(f: Field, p: nat, m: Memory, m': Memory, count: nat, e: nat)
    requires CellsAt(f, p, |m|) && |m'| == |m|
    requires CursorSlot(m, f, p, count).size == if f.htype.Repeated? then e else 0
    requires forall k :: 0 <= k < |m| && InCells(f, p, k) ==> Lowered(m[k], m'[k])
    requires Counted(f) && e > 0 ==> forall k :: 0 <= k < |m| && InSizeCell(f, p, k) ==> m'[k] == m[k]
    ensures CursorSlot(m', f, p, count).size == CursorSlot(m, f, p, count).size
  {
    hide DataLen, FromLittleEndian;
    if !FixedCount(f) && SizeLen(f) > 0 {
      var q := p + f.sizeOffset;
      var a, b := Read(m, q, SizeLen(f)), Read(m', q, SizeLen(f));
      forall k | 0 <= k < SizeLen(f)
        ensures a[k] == m[q + k] && b[k] == m'[q + k] && InSizeCell(f, p, q + k)
      {
      }
      if Counted(f) && e > 0 {
        assert a == b;
      } else {
        ZeroedNumber(a, b);
      }
    }
  }

  // ---- The same oneof ----

  lemma UnionDiffers(x: Struct, len: nat, i: nat, j: nat)
    requires Placed(x, len) && i < |x.fields| && j < |x.fields| && i != j
    requires Regular(x.fields[i]) && Regular(x.fields[j])
    requires Leader(x.fields, i) == Leader(x.fields, j)
    ensures !OrderFree(x, len, i, j)
  {
    var f, g, m := x.fields[i], x.fields[j], Zeros(len);
    RegularFacts(f);
    RegularFacts(g);
    hide WellFormed, Reaches, Regular, ValidItem, Ready, Holding, DecodeField, DecodeCells, RecordOf, RecordFor,
      KeyOf, PayloadOf, OrderFree, Swaps, Addr, Leader, SlotAt, PlacedField, WellFormedField, Payload,
      OrdinaryField, ZeroDefault, TameField, CellsAt;
    SharedAreOneof(x.fields, i, j);
    PlacedEntry(x, i, len);
    PlacedEntry(x, j, len);
    PlacedCells(f, Addr(x, i), len);
    PlacedCells(g, Addr(x, j), len);
    TagsOf(x.fields, x.size, i, j);
    var st := Start(m);
    ZeroItemValid(f);
    ZeroItemValid(g);
    MemberReady(f, Addr(x, i), m, 0);
    MemberReady(g, Addr(x, j), m, 0);
    ZeroWhich(f, Addr(x, i), m);
    ZeroWhich(g, Addr(x, j), m);
    var ra := Arrives(x, st, i, 0, Zeros(f.dataSize));
    var rb := Arrives(x, st, j, 0, Zeros(g.dataSize));
    HoldingTag(f, Addr(x, i), ra.value.mem, Zeros(f.dataSize));
    HoldingTag(g, Addr(x, j), rb.value.mem, Zeros(g.dataSize));
    SharedTag(x, i, j, ra.value.mem);
    SharedTag(x, j, i, rb.value.mem);
    MemberReady(g, Addr(x, j), ra.value.mem, ra.value.fixedSize);
    MemberReady(f, Addr(x, i), rb.value.mem, rb.value.fixedSize);
    var rab := Arrives(x, ra.value, j, 0, Zeros(g.dataSize));
    var rba := Arrives(x, rb.value, i, 0, Zeros(f.dataSize));
    HoldingTag(g, Addr(x, j), rab.value.mem, Zeros(g.dataSize));
    HoldingTag(f, Addr(x, i), rba.value.mem, Zeros(f.dataSize));
    SharedTag(x, i, j, rba.value.mem);
    NotSwapped(x, st, i, RecordFor(x, i, Zeros(f.dataSize)), j, RecordFor(x, j, Zeros(g.dataSize)));
  }

  lemma MemberReady(f: Field, p: nat, m: Memory, count: nat)
    requires PlacedField(f, p, |m|) && f.htype.Oneof?
    ensures CellsAt(f, p, |m|) && (SlotAt(m, f, p).size != f.tag ==> Ready(f, p, m, count, 0))
  {
    hide WellFormedField, FieldReaches, SlotAt;
  }

  lemma ZeroWhich(f: Field, p: nat, m: Memory)
    requires PlacedField(f, p, |m|) && f.htype.Oneof? && m == Zeros(|m|)
    ensures CellsAt(f, p, |m|) && SlotAt(m, f, p).size == 0 && f.tag != 0
  {
    hide FieldReaches, DataLen, FromLittleEndian, WellFormed;
    assert Read(m, p + f.sizeOffset, SizeLen(f)) == Zeros(SizeLen(f));
    ZerosValue(SizeLen(f));
  }

  lemma HoldingTag(f: Field, p: nat, m: Memory, d: seq<byte>)
    requires Holding(f, p, m, 0, d) && f.htype.Oneof?
    ensures CellsAt(f, p, |m|) && SlotAt(m, f, p).size == f.tag
  {
    hide SameItem, SlotAt, WellFormedField;
  }

  lemma SharedTag(x: Struct, i: nat, j: nat, m: Memory)
    requires Placed(x, |m|) && i < |x.fields| && j < |x.fields|
    requires Leader(x.fields, i) == Leader(x.fields, j) && x.fields[i].htype.Oneof? && x.fields[j].htype.Oneof?
    ensures CellsAt(x.fields[i], Addr(x, i), |m|) && CellsAt(x.fields[j], Addr(x, j), |m|)
    ensures SlotAt(m, x.fields[i], Addr(x, i)).size == SlotAt(m, x.fields[j], Addr(x, j)).size
  {
    hide WellFormed, Reaches, SlotAt, View, GetSize, GetData, PlacedField, Addr, Leader, CellsFor, WellFormedField;
    ViewSlot(x, i, m);
    ViewSlot(x, j, m);
    PlacedCells(x.fields[i], Addr(x, i), |m|);
    PlacedCells(x.fields[j], Addr(x, j), |m|);
    UnionSizeShared(x.fields, i, j, View(x, m));
  }

  // ---- Two fixed-count arrays ----

  /** With all but one entry of the first array received, its last entry must come before the other array. */
  lemma FixedDiffers(x: Struct, len: nat, i: nat, j: nat)
    requires Placed(x, len) && i < |x.fields| && j < |x.fields| && i != j
    requires Regular(x.fields[i]) && Regular(x.fields[j])
    requires FixedCount(x.fields[i]) && FixedCount(x.fields[j])
    ensures !OrderFree(x, len, i, j)
  {
    var f, g, m := x.fields[i], x.fields[j], Zeros(len);
    RegularFacts(f);
    RegularFacts(g);
    hide Placed, Regular, ValidItem, Ready, Holding, DecodeField, DecodeCells, RecordOf, RecordFor, KeyOf,
      PayloadOf, OrderFree, Swaps, Addr, PlacedField, WellFormedField, Payload, ZeroDefault, TameField;
    PlacedEntry(x, i, len);
    PlacedEntry(x, j, len);
    FixedRoom(f);
    FixedRoom(g);
    ZeroItemValid(f);
    ZeroItemValid(g);
    var st := State(m, {}, Some(i), f.arraySize - 1);
    FixedReady(f, Addr(x, i), m, f.arraySize - 1);
    var ra := Arrives(x, st, i, f.arraySize - 1, Zeros(f.dataSize));
    FixedReady(g, Addr(x, j), ra.value.mem, 0);
    var rab := Arrives(x, ra.value, j, 0, Zeros(g.dataSize));
    FixedReady(g, Addr(x, j), m, 0);
    RecordShape(x, j, m, 0, 0, Zeros(g.dataSize));
    FieldShape(x, st, j, KeyOf(RecordFor(x, j, Zeros(g.dataSize))) % 8, PayloadOf(RecordFor(x, j, Zeros(g.dataSize))));
    NotSwapped(x, st, i, RecordFor(x, i, Zeros(f.dataSize)), j, RecordFor(x, j, Zeros(g.dataSize)));
  }

  lemma FixedRoom(f: Field)
    requires WellFormedField(f) && FixedCount(f)
    ensures f.arraySize > 0
  {
    assert f.arraySize == 0 ==> f.dataSize * f.arraySize == 0;
  }

  lemma FixedReady(f: Field, p: nat, m: Memory, e: nat)
    requires PlacedField(f, p, |m|) && FixedCount(f) && e < f.arraySize
    ensures Ready(f, p, m, e, e)
  {
    hide FieldReaches, WellFormedField;
  }

  // ---- A spill ----

  /** A cell of another entry that reaches behind a field's data begins there. */
  lemma CellBegins(x: Struct, i: nat, j: nat, k: nat)
    requires WellFormed(x.fields, x.size) && i < |x.fields| && j < |x.fields|
    requires Leader(x.fields, i) != Leader(x.fields, j) && DataLen(x.fields[i]) > 0
    requires InCells(x.fields[j], Addr(x, j), k) && Addr(x, i) + DataLen(x.fields[i]) <= k
    ensures Addr(x, i) + DataLen(x.fields[i])
         <= if InSizeCell(x.fields[j], Addr(x, j), k) then Addr(x, j) + x.fields[j].sizeOffset else Addr(x, j)
  {
    EntryCells(x.fields, i, x.size);
    EntryCells(x.fields, j, x.size);
    assert CellsApart(x.fields, i, j) && CellsApart(x.fields, j, i);
    hide WellFormed, PData, DataLen, SizeLen;
  }

  /** A byte that j heeds and i spills, chosen in the count of j if that is spilled on. */
  lemma BestByte(x: Struct, i: nat, j: nat, k: nat) returns (k0: nat)
    requires i < |x.fields| && j < |x.fields|
    requires Spills(x.fields[i], Addr(x, i), k) && Heeds(x.fields[j], Addr(x, j), k)
    ensures Spills(x.fields[i], Addr(x, i), k0) && Heeds(x.fields[j], Addr(x, j), k0)
    ensures Counted(x.fields[j]) && !InSizeCell(x.fields[j], Addr(x, j), k0)
        ==> forall b: nat :: InSizeCell(x.fields[j], Addr(x, j), b) ==> !Spills(x.fields[i], Addr(x, i), b)
  {
    hide Heeds, Spills, Addr;
    k0 := k;
    if b: nat :| Counted(x.fields[j]) && InSizeCell(x.fields[j], Addr(x, j), b) && Spills(x.fields[i], Addr(x, i), b) {
      k0 := b;
      CountHeeded(x.fields[j], Addr(x, j), b);
    }
  }

  lemma CountHeeded(f: Field, p: nat, k: nat)
    requires Counted(f) && InSizeCell(f, p, k)
    ensures Heeds(f, p, k)
  {
    hide RecordsHeed;
  }

  /** The bytes of g's cells after a record of f: as they were or cleared. */
  lemma OthersLower(f: Field, p: nat, m: Memory, count: nat, wireType: nat, s: seq<byte>, g: Field, q: nat)
    requires PlacedField(f, p, |m|) && WellFormedField(f) && forall b :: InCells(g, q, b) ==> !InCells(f, p, b)
    ensures forall b :: 0 <= b < |m| && InCells(g, q, b)
              ==> Lowered(m[b], DecodeCells(f, m, p, count, wireType, s).value.mem[b])
    ensures forall b :: 0 <= b < |m| && InCells(g, q, b) && !Spills(f, p, b)
              ==> DecodeCells(f, m, p, count, wireType, s).value.mem[b] == m[b]
  {
    hide PlacedField, DecodeCells, FieldWrites, Heeds, InCells, WellFormedField;
    forall b | 0 <= b < |m| && InCells(g, q, b)
      ensures Lowered(m[b], DecodeCells(f, m, p, count, wireType, s).value.mem[b])
      ensures !Spills(f, p, b) ==> DecodeCells(f, m, p, count, wireType, s).value.mem[b] == m[b]
    {
      if Heeds(f, p, b) {
        HeededInside(f, p, b);
      } else {
        CellsLower(f, m, p, count, wireType, s, b);
      }
      if !Spills(f, p, b) {
        CellsFrame(f, m, p, count, wireType, s, b);
      }
    }
  }

  /** Blank cells stay blank when a record of another field arrives, if it does not spill on their count. */
  lemma OtherBlank(f: Field, p: nat, m: Memory, count: nat, wireType: nat, s: seq<byte>, g: Field, q: nat, e: nat)
    requires PlacedField(f, p, |m|) && WellFormedField(f) && Blank(g, q, m, e, e) && Undisturbed(f, p, g, q, e)
    ensures Blank(g, q, DecodeCells(f, m, p, count, wireType, s).value.mem, e, e)
  {
    hide PlacedField, DecodeCells, FieldWrites, InCells, InSizeCell, WellFormedField, Blank;
    OthersLower(f, p, m, count, wireType, s, g, q);
    SizeSub(g, q);
    BlankAfter(g, q, m, DecodeCells(f, m, p, count, wireType, s).value.mem, e, e);
  }

  /** What g spills does not reach the size cell of a field before it. */
  lemma SizeSpared(f: Field, p: nat, g: Field, q: nat, b: nat)
    requires SizeFirst(f) && InSizeCell(f, p, b) && WellFormedField(g) && p <= q
    ensures !Spills(g, q, b)
  {
    hide FieldWrites, WellFormedField, DataLen;
    if Spills(g, q, b) {
      SpillBehind(g, q, b);
    }
  }

  /** Blank cells for both fields. */
  lemma TwoBlanks(f: Field, p: nat, e: nat, g: Field, q: nat, e': nat, len: nat) returns (m: Memory)
    requires PlacedField(f, p, len) && PlacedField(g, q, len) && e < Entries(f) && e' < Entries(g)
    requires forall b :: InCells(g, q, b) ==> !InCells(f, p, b)
    ensures |m| == len && Blank(f, p, m, e, e) && Blank(g, q, m, e', e')
  {
    hide PlacedField, Blank;
    var m1 := BlankMemory(f, p, Zeros(len), e);
    m := BlankMemory(g, q, m1, e');
    BlankSame(f, p, m1, m, e, e);
  }

  lemma BlankSame(f: Field, p: nat, m: Memory, m': Memory, count: nat, e: nat)
    requires Blank(f, p, m, count, e) && |m'| == |m| && forall b :: 0 <= b < |m| && InCells(f, p, b) ==> m'[b] == m[b]
    ensures Blank(f, p, m', count, e)
  {
    hide FieldReaches, WellFormedField, SlotAt, InCells, DataLen, Read;
    PlacedCells(f, p, |m|);
    SlotOfBytes(f, m, m', p);
    if FixedCount(f) {
      SlotData(f, m, p);
      SlotData(f, m', p);
    }
  }

  lemma SlotData(f: Field, m: Memory, p: nat)
    requires CellsAt(f, p, |m|)
    ensures SlotAt(m, f, p).data == Read(m, p, DataLen(f))
  {
  }

  /** The locals of a run that has received `e` entries of a fixed-count entry i, or e' of entry j. */
  function LocalsFor(x: Struct, m: Memory, i: nat, e: nat, j: nat, e': nat): (st: State)
    requires i < |x.fields| && j < |x.fields|
  {
    if FixedCount(x.fields[i]) then State(m, {}, Some(i), e)
    else if FixedCount(x.fields[j]) then State(m, {}, Some(j), e')
    else State(m, {}, None, 0)
  }

  /** A record of i that spills on a byte, and a record of j that sets it: what comes last wins. */
  lemma SpillDiffers(x: Struct, len: nat, i: nat, j: nat, k: nat)
    requires Placed(x, len) && i < |x.fields| && j < |x.fields| && i != j
    requires Regular(x.fields[i]) && Regular(x.fields[j])
    requires Leader(x.fields, i) != Leader(x.fields, j) && !(FixedCount(x.fields[i]) && FixedCount(x.fields[j]))
    requires Spills(x.fields[i], Addr(x, i), k) && Heeds(x.fields[j], Addr(x, j), k)
    ensures !OrderFree(x, len, i, j)
  {
    var f, p, g, q := x.fields[i], Addr(x, i), x.fields[j], Addr(x, j);
    RegularFacts(f);
    RegularFacts(g);
    hide WellFormed, Reaches, Regular, Heeds, FieldWrites, PlacedField, Spills, InCells, Rings, Clears, OrderFree, Addr,
      Leader, WellFormedField, ZeroDefault, TameField, ValidItem, CellsFor, OrdinaryField, SizeFirst, DataLen;
    PlacedEntry(x, i, len);
    PlacedEntry(x, j, len);
    var k0 := BestByte(x, i, j, k);
    HeededInside(g, q, k0);
    SpillBehind(f, p, k0);
    CellBegins(x, i, j, k0);
    CellsOf(g, q, len);
    var e', d', k' := FieldRings(g, q, p + DataLen(f), k0);
    RingsFacts(g, q, e', d', k');
    forall b | InCells(g, q, b)
      ensures !InCells(f, p, b)
    {
      CellsDisjoint(x, i, j, b);
    }
    SpillDown(f, p, k0, k');
    ByteOfCells(g, q, len, k');
    var e, d := SpillFound(f, p, len, k');
    ClearsFacts(f, p, len, e, d, k');
    SpillAndRing(x, len, i, e, d, j, e', d', k0, k');
  }

  lemma CellsOf(f: Field, p: nat, len: nat)
    requires PlacedField(f, p, len)
    ensures Apart(p, DataLen(f), p + f.sizeOffset, SizeLen(f))
  {
  }

  lemma ByteOfCells(f: Field, p: nat, len: nat, k: nat)
    requires PlacedField(f, p, len) && InCells(f, p, k)
    ensures k < len
  {
  }

  lemma RingsFacts(f: Field, p: nat, e: nat, d: seq<byte>, k: nat)
    requires Rings(f, p, e, d, k)
    ensures ItemFor(f, d) && e < Entries(f) && ValidItem(f, d) && InCells(f, p, k)
  {
  }

  /** Entry j begins no earlier than entry i. */
  lemma StartsLater(x: Struct, i: nat, j: nat, k: nat)
    requires WellFormed(x.fields, x.size) && i < |x.fields| && j < |x.fields|
    requires Leader(x.fields, i) != Leader(x.fields, j) && SizeFirst(x.fields[j])
    requires WellFormedField(x.fields[i]) && Spills(x.fields[i], Addr(x, i), k) && InCells(x.fields[j], Addr(x, j), k)
    ensures Addr(x, i) <= Addr(x, j)
  {
    SpillBehind(x.fields[i], Addr(x, i), k);
    CellBegins(x, i, j, k);
    hide WellFormed, PData, FieldWrites, DataLen, WellFormedField, Leader;
  }

  /** No byte of g's cells is one of f's, and if g has received entries already its count is spared. */
  ghost predicate Undisturbed(f: Field, p: nat, g: Field, q: nat, e: nat) {
    && (forall b :: InCells(g, q, b) ==> !InCells(f, p, b))
    && (Counted(g) && e > 0 ==> forall b: nat :: InSizeCell(g, q, b) ==> !Spills(f, p, b))
  }

  lemma SpillAndRing(x: Struct, len: nat, i: nat, e: nat, d: seq<byte>, j: nat, e': nat, d': seq<byte>, k0: nat, k: nat)
    requires Placed(x, len) && i < |x.fields| && j < |x.fields| && i != j
    requires Regular(x.fields[i]) && Regular(x.fields[j])
    requires Leader(x.fields, i) != Leader(x.fields, j) && !(FixedCount(x.fields[i]) && FixedCount(x.fields[j]))
    requires Spills(x.fields[i], Addr(x, i), k0) && InCells(x.fields[j], Addr(x, j), k0)
    requires Counted(x.fields[j]) && e' > 0
        ==> forall b: nat :: InSizeCell(x.fields[j], Addr(x, j), b) ==> !Spills(x.fields[i], Addr(x, i), b)
    requires Clears(x.fields[i], Addr(x, i), len, e, d, k) && Rings(x.fields[j], Addr(x, j), e', d', k)
    ensures !OrderFree(x, len, i, j)
  {
    var f, p, g, q := x.fields[i], Addr(x, i), x.fields[j], Addr(x, j);
    RegularFacts(f);
    RegularFacts(g);
    hide WellFormed, Reaches, Regular, FieldWrites, PlacedField, Spills, InCells, Rings, Clears, OrderFree, Addr,
      Leader, WellFormedField, ZeroDefault, TameField, ValidItem, OrdinaryField, SizeFirst, Blank, InSizeCell;
    PlacedEntry(x, i, len);
    PlacedEntry(x, j, len);
    ClearsFacts(f, p, len, e, d, k);
    RingsFacts(g, q, e', d', k);
    OrdinarySize(f);
    OrdinarySize(g);
    forall b | InCells(g, q, b)
      ensures !InCells(f, p, b)
    {
      CellsDisjoint(x, i, j, b);
    }
    forall b | InCells(f, p, b)
      ensures !InCells(g, q, b)
    {
      CellsDisjoint(x, j, i, b);
    }
    StartsLater(x, i, j, k0);
    forall b: nat | InSizeCell(f, p, b)
      ensures !Spills(g, q, b)
    {
      SizeSpared(f, p, g, q, b);
    }
    var m := TwoBlanks(f, p, e, g, q, e', len);
    BlanksDiffer(x, m, i, e, d, j, e', d', k);
  }

  lemma BlanksDiffer(x: Struct, m: Memory, i: nat, e: nat, d: seq<byte>, j: nat, e': nat, d': seq<byte>, k: nat)
    requires Placed(x, |m|) && i < |x.fields| && j < |x.fields| && i != j
    requires Regular(x.fields[i]) && Regular(x.fields[j])
    requires !(FixedCount(x.fields[i]) && FixedCount(x.fields[j]))
    requires Undisturbed(x.fields[i], Addr(x, i), x.fields[j], Addr(x, j), e')
    requires Undisturbed(x.fields[j], Addr(x, j), x.fields[i], Addr(x, i), e)
    requires Blank(x.fields[i], Addr(x, i), m, e, e) && Blank(x.fields[j], Addr(x, j), m, e', e')
    requires Clears(x.fields[i], Addr(x, i), |m|, e, d, k) && Rings(x.fields[j], Addr(x, j), e', d', k)
    ensures !OrderFree(x, |m|, i, j)
  {
    var f, p, g, q := x.fields[i], Addr(x, i), x.fields[j], Addr(x, j);
    RegularFacts(f);
    RegularFacts(g);
    hide WellFormed, Reaches, Regular, PlacedField, Rings, Clears, OrderFree, Addr, Undisturbed,
      WellFormedField, ZeroDefault, TameField, ValidItem, OrdinaryField, Blank, Holding,
      DecodeField, DecodeCells, RecordFor, RecordOf, KeyOf, PayloadOf, Payload, Swaps, FixedCount, Mark;
    PlacedEntry(x, i, |m|);
    PlacedEntry(x, j, |m|);
    ClearsFacts(f, p, |m|, e, d, k);
    RingsFacts(g, q, e', d', k);
    var st := LocalsFor(x, m, i, e, j, e');
    var ra := BlankArrival(x, st, i, e, d);
    var rb := BlankArrival(x, st, j, e', d');
    OtherBlank(f, p, m, Enter(x.fields, st, i).fixedSize, WireType(f.ltype), Payload(f, d), g, q, e');
    OtherBlank(g, q, m, Enter(x.fields, st, j).fixedSize, WireType(g.ltype), Payload(g, d'), f, p, e);
    var rab := BlankArrival(x, ra.value, j, e', d');
    var rba := BlankArrival(x, rb.value, i, e, d);
    RingsOut(g, q, rab.value.mem, e', d', k);
    ClearsBlank(x, rb.value, i, e, d, k);
    NotSwapped(x, st, i, RecordFor(x, i, d), j, RecordFor(x, j, d'));
  }

  lemma ClearsBlank(x: Struct, st: State, i: nat, e: nat, d: seq<byte>, k: nat)
    requires i < |x.fields| && Clears(x.fields[i], Addr(x, i), |st.mem|, e, d, k)
    requires Blank(x.fields[i], Addr(x, i), st.mem, e, e)
    requires FixedCount(x.fields[i]) ==> st.fixedField == Some(i) && st.fixedSize == e
    ensures PlacedField(x.fields[i], Addr(x, i), |st.mem|) && k < |st.mem|
    ensures x.fields[i].ltype.Submessage? && ItemFor(x.fields[i], d) && ValidItem(x.fields[i], d)
    ensures DecodeCells(x.fields[i], st.mem, Addr(x, i), Enter(x.fields, st, i).fixedSize, STRING,
                        Payload(x.fields[i], d)).value.mem[k] == 0
  {
    hide PlacedField, DecodeCells, Ready, Blank, Clears, Addr, Mark, Payload, ValidItem, WellFormedField;
    var f, p, count := x.fields[i], Addr(x, i), Enter(x.fields, st, i).fixedSize;
    BlankAnyCount(f, p, st.mem, e, count, e);
    BlankReady(f, p, st.mem, count, e);
    ClearsFacts(f, p, |st.mem|, e, d, k);
    ClearsAt(f, p, st.mem, count, e, d, k);
  }

  lemma OrdinarySize(f: Field)
    requires OrdinaryField(f)
    ensures SizeFirst(f)
  {
  }

  lemma SizeSub(f: Field, p: nat)
    ensures forall b :: InSizeCell(f, p, b) ==> InCells(f, p, b)
  {
  }

  /** A record arrives in blank cells; the local count, if it uses it, is that of its array. */
  lemma BlankArrival(x: Struct, st: State, i: nat, e: nat, d: seq<byte>) returns (r: Result<State>)
    requires StateFor(x, st) && i < |x.fields| && Regular(x.fields[i])
    requires ItemFor(x.fields[i], d) && ValidItem(x.fields[i], d) && Blank(x.fields[i], Addr(x, i), st.mem, e, e)
    requires FixedCount(x.fields[i]) ==> st.fixedField == Some(i) && st.fixedSize == e
    ensures RecordOf(x, i, RecordFor(x, i, d))
    ensures r == DecodeField(x, st, i, KeyOf(RecordFor(x, i, d)) % 8, PayloadOf(RecordFor(x, i, d)))
    ensures r.Ok? && Holding(x.fields[i], Addr(x, i), r.value.mem, e, d)
    ensures PlacedField(x.fields[i], Addr(x, i), |st.mem|)
    ensures r.value.mem == DecodeCells(x.fields[i], st.mem, Addr(x, i), Enter(x.fields, st, i).fixedSize,
                                       WireType(x.fields[i].ltype), Payload(x.fields[i], d)).value.mem
    ensures !FixedCount(x.fields[i]) ==> r.value.fixedField == st.fixedField && r.value.fixedSize == st.fixedSize
  {
    hide Placed, PlacedField, DecodeCells, DecodeField, Payload, ValidItem, Ready, Regular, Holding, RecordOf,
      RecordFor, KeyOf, PayloadOf, Addr, Blank, Mark;
    var count := Enter(x.fields, st, i).fixedSize;
    BlankAnyCount(x.fields[i], Addr(x, i), st.mem, e, count, e);
    BlankReady(x.fields[i], Addr(x, i), st.mem, count, e);
    r := Arrives(x, st, i, e, d);
  }

  // ---- Exactly ----

  /** The order of records of two different entries does not matter, from any state and whatever follows, if
      and only if the entries are not members of one oneof, are not both fixed-count arrays, and neither
      spills on a byte that the other heeds. */
  lemma OrderFreeExactly(x: Struct, len: nat, i: nat, j: nat)
    requires Placed(x, len) && i < |x.fields| && j < |x.fields| && i != j
    requires Regular(x.fields[i]) && Regular(x.fields[j])
    ensures OrderFree(x, len, i, j) <==> Independent(x, i, j)
  {
    hide Placed, Regular, OrderFree, Leader, Addr, Spills, Heeds, FixedCount;
    if Independent(x, i, j) {
      IndependentFree(x, len, i, j);
    } else if Leader(x.fields, i) == Leader(x.fields, j) {
      UnionDiffers(x, len, i, j);
    } else if FixedCount(x.fields[i]) && FixedCount(x.fields[j]) {
      FixedDiffers(x, len, i, j);
    } else if !Spares(x, i, j) {
      var k: nat :| Spills(x.fields[i], Addr(x, i), k) && Heeds(x.fields[j], Addr(x, j), k);
      SpillDiffers(x, len, i, j, k);
    } else {
      var k: nat :| Spills(x.fields[j], Addr(x, j), k) && Heeds(x.fields[i], Addr(x, i), k);
      SpillDiffers(x, len, j, i, k);
      if OrderFree(x, len, i, j) {
        OrderFreeSym(x, len, i, j);
      }
    }
  }

  lemma IndependentFree(x: Struct, len: nat, i: nat, j: nat)
    requires i < |x.fields| && j < |x.fields| && Independent(x, i, j)
    ensures OrderFree(x, len, i, j)
  {
    hide DecodeLoop, AgreeingRecord, FieldOfRecord, Placed, Independent;
    forall st: State, a: seq<byte>, b: seq<byte>, tail: seq<byte> |
      StateFor(x, st) && |st.mem| == len && RecordOf(x, i, a) && RecordOf(x, j, b)
      ensures Swaps(x, st, a, b, tail)
    {
      SwapRecords(x, st, a, b, tail);
    }
  }
}
