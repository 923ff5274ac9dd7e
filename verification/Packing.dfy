/** Packed and unpacked forms agree: however a list of scalars is split into packed chunks and
    single records, a counted array ends up with the same entries and the same count. */
module Packing {
  import opened Bits
  import opened Wire
  import opened Varint32
  import opened Descriptor
  import opened StructMemory
  import opened Encoding
  import opened Decoding
  import opened Locality
  import opened Records
  import opened Effects

  /** One array entry on the wire, and the bytes it decodes to. */
  datatype Element = Element(bytes: seq<byte>, value: seq<byte>)

  datatype Chunk = Single(e: Element) | Packed(es: seq<Element>)

  ghost predicate Spells(f: Field, e: Element)
    requires WellFormedField(f) && f.ltype.Packable()
  {
    && |e.value| == f.dataSize
    && forall d: seq<byte> :: ItemFor(f, d) ==> DecodeScalar(f, d, e.bytes) == Ok(e.value, [])
  }

  function Join(es: seq<Element>): seq<byte> {
    if es == [] then [] else es[0].bytes + Join(es[1..])
  }

  function Elements(cs: seq<Chunk>): seq<Element> {
    if cs == [] then [] else ElementsOf(cs[0]) + Elements(cs[1..])
  }

  function ElementsOf(c: Chunk): seq<Element> {
    match c
    case Single(e) => [e]
    case Packed(es) => es
  }

  function ChunkWire(f: Field, c: Chunk): nat {
    if c.Single? then WireType(f.ltype) else STRING
  }

  function ChunkPayload(c: Chunk): seq<byte> {
    match c
    case Single(e) => e.bytes
    case Packed(es) => Delimited(Join(es))
  }

  function ChunkBytes(f: Field, c: Chunk): seq<byte> {
    KeyBytes(f.tag, ChunkWire(f, c)) + ChunkPayload(c)
  }

  function StreamOf(f: Field, cs: seq<Chunk>): seq<byte> {
    if cs == [] then [] else ChunkBytes(f, cs[0]) + StreamOf(f, cs[1..])
  }

  ghost predicate AllSpell(f: Field, es: seq<Element>)
    requires WellFormedField(f) && f.ltype.Packable()
  {
    forall k :: 0 <= k < |es| ==> Spells(f, es[k])
  }

  ghost predicate GoodChunk(f: Field, c: Chunk)
    requires WellFormedField(f) && f.ltype.Packable()
  {
    AllSpell(f, ElementsOf(c)) && (c.Packed? ==> |Join(c.es)| < TWO32)
  }

  /** The array after appending the elements. */
  function Fill(f: Field, slot: Slot, es: seq<Element>): (r: Slot)
    requires SlotFor(f, slot) && f.htype.Repeated? && f.ltype.Packable() && AllSpell(f, es)
    requires slot.size + |es| <= f.arraySize
    ensures |r.data| == |slot.data| && r.size == slot.size + |es|
    decreases |es|
  {
    if es == [] then slot
    else
      assert Spells(f, es[0]);
      Fill(f, Slot(slot.size + 1, PutItem(f, slot.data, slot.size, es[0].value)), es[1..])
  }

  lemma {:induction false} FillConcat(f: Field, slot: Slot, es: seq<Element>, es': seq<Element>)
    requires SlotFor(f, slot) && f.htype.Repeated? && f.ltype.Packable()
    requires AllSpell(f, es) && AllSpell(f, es') && slot.size + |es| + |es'| <= f.arraySize
    ensures AllSpell(f, es + es')
    ensures Fill(f, slot, es + es') == Fill(f, Fill(f, slot, es), es')
    decreases |es|
  {
    hide DecodeScalar, WellFormedField;
    if es == [] {
      assert es + es' == es';
    } else {
      assert Spells(f, es[0]);
      assert (es + es')[1..] == es[1..] + es' && (es + es')[0] == es[0];
      FillConcat(f, Slot(slot.size + 1, PutItem(f, slot.data, slot.size, es[0].value)), es[1..], es');
    }
  }

  lemma ElementStep(f: Field, d: seq<byte>, e: Element, t: seq<byte>)
    requires ItemFor(f, d) && f.ltype.Packable() && Spells(f, e)
    ensures e.bytes != [] && DecodeScalar(f, d, e.bytes + t) == Ok(e.value, t)
  {
    DecodeScalarExtends(f, d, e.bytes, t);
    assert [] + t == t;
  }

  /** The packed loop takes as many entries as fit and leaves the rest unread. */
  lemma {:induction false} PackedLoopReads(f: Field, slot: Slot, es: seq<Element>)
    requires SlotFor(f, slot) && f.htype.Repeated? && f.ltype.Packable() && AllSpell(f, es)
    requires slot.size <= f.arraySize
    ensures slot.size + |es| <= f.arraySize ==> PackedLoop(f, slot, Join(es)) == Ok(Fill(f, slot, es), [])
    ensures slot.size + |es| > f.arraySize
        ==> PackedLoop(f, slot, Join(es)).Ok? && PackedLoop(f, slot, Join(es)).rest != []
    decreases |es|
  {
    hide DecodeScalar, WellFormedField, Spells;
    if es != [] {
      assert Spells(f, es[0]);
      if slot.size < f.arraySize {
        ElementStep(f, ItemAt(f, slot.data, slot.size), es[0], Join(es[1..]));
        SpellsSize(f, es[0]);
        PackedLoopReads(f, Slot(slot.size + 1, PutItem(f, slot.data, slot.size, es[0].value)), es[1..]);
      } else {
        ElementStep(f, Zeros(f.dataSize), es[0], Join(es[1..]));
      }
    }
  }

  lemma SpellsSize(f: Field, e: Element)
    requires WellFormedField(f) && f.ltype.Packable() && Spells(f, e)
    ensures |e.value| == f.dataSize
  {
  }

  /** What one chunk does to the array. */
  lemma ChunkDecodes(f: Field, slot: Slot, c: Chunk)
    requires SlotFor(f, slot) && f.htype.Repeated? && f.ltype.Packable() && GoodChunk(f, c)
    requires slot.size <= f.arraySize
    ensures WireTypeAgrees(f, ChunkWire(f, c))
    ensures var wt, payload := ChunkWire(f, c), ChunkPayload(c);
            && SkipField(wt, payload) == Got((), [])
            && (if slot.size + |ElementsOf(c)| <= f.arraySize
                then DecodeSlot(f, slot, wt, payload) == Ok(Fill(f, slot, ElementsOf(c)), [])
                else DecodeSlot(f, slot, wt, payload).Fail?)
  {
    match c
    case Single(e) =>
      assert Spells(f, ElementsOf(c)[0]);
      ElementStep(f, Zeros(f.dataSize), e, []);
      assert e.bytes + [] == e.bytes;
      DecodeValueConsumes(f, Zeros(f.dataSize), e.bytes);
      if slot.size < f.arraySize {
        ElementStep(f, ItemAt(f, slot.data, slot.size), e, []);
        assert ElementsOf(c)[1..] == [];
      }
    case Packed(es) =>
      DelimitedRoundTrip(Join(es), []);
      assert Delimited(Join(es)) + [] == Delimited(Join(es));
      PackedLoopReads(f, slot, es);
      hide Fill, Join, PackedLoop, WellFormedField;
  }

  lemma GoodChunkSpells(f: Field, c: Chunk)
    requires WellFormedField(f) && f.ltype.Packable() && GoodChunk(f, c)
    ensures AllSpell(f, ElementsOf(c))
  {
  }

  lemma AllSpellConcat(f: Field, es: seq<Element>, es': seq<Element>)
    requires WellFormedField(f) && f.ltype.Packable() && AllSpell(f, es) && AllSpell(f, es')
    ensures AllSpell(f, es + es')
  {
    hide Spells;
  }

  lemma {:induction false} ChunksSpell(f: Field, cs: seq<Chunk>)
    requires WellFormedField(f) && f.ltype.Packable()
    requires forall k :: 0 <= k < |cs| ==> GoodChunk(f, cs[k])
    ensures AllSpell(f, Elements(cs))
  {
    hide Spells, WellFormedField;
    if cs != [] {
      assert GoodChunk(f, cs[0]);
      ChunksSpell(f, cs[1..]);
      AllSpellConcat(f, ElementsOf(cs[0]), Elements(cs[1..]));
    }
  }

  /** The array an entry's next record finds, with room left or full. */
  ghost predicate ArrayReady(x: Struct, st: State, i: nat) {
    && StateFor(x, st) && i < |x.fields| && x.fields[i].htype.Repeated? && x.fields[i].ltype.Packable()
    && SlotFor(x.fields[i], Loaded(x, st, i))
    && CanEnter(x, st, i) && Loaded(x, st, i).size <= x.fields[i].arraySize
  }

  lemma ChunkStep(x: Struct, st: State, i: nat, c: Chunk, tail: seq<byte>) returns (st': State)
    requires ArrayReady(x, st, i) && GoodChunk(x.fields[i], c)
    ensures AllSpell(x.fields[i], ElementsOf(c)) && StateFor(x, st') && |st'.mem| == |st.mem|
    ensures if Loaded(x, st, i).size + |ElementsOf(c)| <= x.fields[i].arraySize
            then Effect(x, st, i, st', Fill(x.fields[i], Loaded(x, st, i), ElementsOf(c)))
                 && DecodeLoop(x, st, ChunkBytes(x.fields[i], c) + tail) == DecodeLoop(x, st', tail)
            else DecodeLoop(x, st, ChunkBytes(x.fields[i], c) + tail).Broken?
  {
    hide DecodeSlot, WellFormed, WellFormedField, GoodChunk, Fill, DecodeLoop, SkipField, Spells, Loaded, Effect,
      KeyBytes, AgreeingRecord, CanEnter, ChunkWire, ChunkPayload, ElementsOf, AllSpell,
      WireTypeAgrees;
    var f, slot := x.fields[i], Loaded(x, st, i);
    var wt, payload := ChunkWire(f, c), ChunkPayload(c);
    GoodChunkSpells(f, c);
    ChunkDecodes(f, slot, c);
    LoopOfField(x, st, i, wt, payload, tail);
    if slot.size + |ElementsOf(c)| <= f.arraySize {
      ArrayBounds(f, slot.size + |ElementsOf(c)|);
      FieldEffect(x, st, i, wt, payload);
      st' := DecodeField(x, st, i, wt, payload).value;
    } else {
      st' := st;
      FieldFails(x, st, i, wt, payload);
    }
  }

  lemma FieldFails(x: Struct, st: State, i: nat, wireType: nat, payload: seq<byte>)
    requires StateFor(x, st) && i < |x.fields| && SlotFor(x.fields[i], Loaded(x, st, i))
    requires !x.fields[i].ltype.Submessage? && DecodeSlot(x.fields[i], Loaded(x, st, i), wireType, payload).Fail?
    ensures DecodeField(x, st, i, wireType, payload).Fail?
  {
    hide Placed, DecodeSlot, PutSlotAt, CursorSlot, Mark, FieldReaches, WellFormedField;
    PlacedEntry(x, i, |st.mem|);
  }

  /** Chunk after chunk, the elements are appended to the array if they fit, and decoding fails if
      they do not. */
  lemma {:induction false} ChunksAppend(x: Struct, st: State, i: nat, cs: seq<Chunk>) returns (st': State)
    requires ArrayReady(x, st, i)
    requires cs != [] && forall k :: 0 <= k < |cs| ==> GoodChunk(x.fields[i], cs[k])
    ensures AllSpell(x.fields[i], Elements(cs)) && StateFor(x, st')
    ensures if Loaded(x, st, i).size + |Elements(cs)| <= x.fields[i].arraySize
            then Effect(x, st, i, st', Fill(x.fields[i], Loaded(x, st, i), Elements(cs)))
                 && |st'.mem| == |st.mem| && DecodeLoop(x, st, StreamOf(x.fields[i], cs)) == Ended(st')
            else DecodeLoop(x, st, StreamOf(x.fields[i], cs)).Broken?
    decreases |cs|
  {
    hide Placed, WellFormedField, GoodChunk, Fill, DecodeLoop, Spells, Loaded, Effect, ChunkBytes, CanEnter,
      SizeFits, FixedCount, AllSpell;
    var f, slot := x.fields[i], Loaded(x, st, i);
    var es, es' := ElementsOf(cs[0]), Elements(cs[1..]);
    ChunksSpell(f, cs[1..]);
    var st1 := ChunkStep(x, st, i, cs[0], StreamOf(f, cs[1..]));
    AllSpellConcat(f, es, es');
    if slot.size + |es| > f.arraySize {
      st' := st1;
    } else if cs[1..] == [] {
      LoopOfNothing(x, st1);
      assert es + [] == es;
      st' := st1;
    } else {
      var slot1 := Fill(f, slot, es);
      ArrayBounds(f, slot1.size);
      LoadedAfter(x, st, i, st1, slot1);
      EffectEnter(x, st, i, st1, slot1);
      st' := ChunksAppend(x, st1, i, cs[1..]);
      if slot.size + |es| + |es'| <= f.arraySize {
        FillConcat(f, slot, es, es');
        EffectTrans(x, st, i, st1, slot1, st', Fill(f, slot1, es'));
      }
    }
  }

  predicate SameValues(es: seq<Element>, es': seq<Element>) {
    |es| == |es'| && forall k :: 0 <= k < |es| ==> es[k].value == es'[k].value
  }

  lemma {:induction false} FillSameValues(f: Field, slot: Slot, es: seq<Element>, es': seq<Element>)
    requires SlotFor(f, slot) && f.htype.Repeated? && f.ltype.Packable() && AllSpell(f, es) && AllSpell(f, es')
    requires SameValues(es, es') && slot.size + |es| <= f.arraySize
    ensures Fill(f, slot, es) == Fill(f, slot, es')
    decreases |es|
  {
    hide Spells, WellFormedField;
    if es != [] {
      SpellsSize(f, es[0]);
      FillSameValues(f, Slot(slot.size + 1, PutItem(f, slot.data, slot.size, es[0].value)), es[1..], es'[1..]);
    }
  }

  /** Two ways of splitting the same list of values into packed chunks, possibly empty, and single
      records leave the same array, the same count and the same state, or both fail. A fixed-count
      array must be split into some chunks both times or into none both times: see EmptyChunkBegins. */
  lemma SplittingIrrelevant(x: Struct, st: State, i: nat, cs: seq<Chunk>, cs': seq<Chunk>)
    requires ArrayReady(x, st, i) && (FixedCount(x.fields[i]) ==> (cs == [] <==> cs' == []))
    requires forall k :: 0 <= k < |cs| ==> GoodChunk(x.fields[i], cs[k])
    requires forall k :: 0 <= k < |cs'| ==> GoodChunk(x.fields[i], cs'[k])
    requires SameValues(Elements(cs), Elements(cs'))
    ensures var r, r' := DecodeLoop(x, st, StreamOf(x.fields[i], cs)), DecodeLoop(x, st, StreamOf(x.fields[i], cs'));
            if Loaded(x, st, i).size + |Elements(cs)| <= x.fields[i].arraySize then r.Ended? && r == r'
            else r.Broken? && r'.Broken?
  {
    hide Placed, WellFormedField, GoodChunk, Fill, DecodeLoop, Spells, Loaded, ChunkBytes, CanEnter, AllSpell, Effect;
    if cs != [] && cs' != [] {
      var st1 := ChunksAppend(x, st, i, cs);
      var st2 := ChunksAppend(x, st, i, cs');
      if Loaded(x, st, i).size + |Elements(cs)| <= x.fields[i].arraySize {
        FillSameValues(x.fields[i], Loaded(x, st, i), Elements(cs), Elements(cs'));
        EffectUnique(x, st, i, st1, st2, Fill(x.fields[i], Loaded(x, st, i), Elements(cs)));
      }
    } else {
      LoopOfNothing(x, st);
      if cs != [] {
        NoElements(x, st, i, cs);
      } else if cs' != [] {
        NoElements(x, st, i, cs');
      }
    }
  }

  lemma EffectUnique(x: Struct, st: State, i: nat, st1: State, st2: State, t: Slot)
    requires StateFor(x, st) && StateFor(x, st1) && StateFor(x, st2) && i < |x.fields|
    requires Effect(x, st, i, st1, t) && Effect(x, st, i, st2, t)
    ensures st1 == st2
  {
    hide Placed, PutSlotAt, CellsFor, Mark;
  }

  /** Chunks without elements leave a counted array's state as it was. */
  lemma NoElements(x: Struct, st: State, i: nat, cs: seq<Chunk>)
    requires ArrayReady(x, st, i) && !FixedCount(x.fields[i]) && cs != [] && Elements(cs) == []
    requires forall k :: 0 <= k < |cs| ==> GoodChunk(x.fields[i], cs[k])
    ensures DecodeLoop(x, st, StreamOf(x.fields[i], cs)) == Ended(st)
  {
    hide Placed, WellFormedField, GoodChunk, DecodeLoop, Spells, Elements, StreamOf, CanEnter, Loaded, Effect;
    var st1 := ChunksAppend(x, st, i, cs);
    UnchangedEffect(x, st, i, st1);
  }

  lemma UnchangedEffect(x: Struct, st: State, i: nat, st1: State)
    requires StateFor(x, st) && StateFor(x, st1) && i < |x.fields| && !FixedCount(x.fields[i])
    requires x.fields[i].htype.Repeated? && Effect(x, st, i, st1, Loaded(x, st, i))
    ensures st1 == st
  {
    hide Placed, PlacedField, PutSlotAt, FromLittleEndian;
    PlacedEntry(x, i, |st.mem|);
    PlacedCells(x.fields[i], Addr(x, i), |st.mem|);
    PutSlotAtSelf(st.mem, x.fields[i], Addr(x, i));
  }

  /** A packed chunk without elements begins a fixed-count array, which no chunk at all does not. */
  lemma EmptyChunkBegins(x: Struct, st: State, i: nat)
    requires ArrayReady(x, st, i) && FixedCount(x.fields[i]) && st.fixedField != Some(i)
    ensures DecodeLoop(x, st, StreamOf(x.fields[i], [])) == Ended(st)
    ensures exists st' :: DecodeLoop(x, st, StreamOf(x.fields[i], [Packed([])])) == Ended(st')
                          && st'.fixedField == Some(i) && st'.fixedSize == 0 && st' != st
  {
    hide Placed, WellFormedField, DecodeLoop, CanEnter, Holds, DecodeScalar, ChunkBytes;
    LoopOfNothing(x, st);
    var cs := [Packed([])];
    assert GoodChunk(x.fields[i], cs[0]);
    assert cs[1..] == [] && Elements(cs) == [];
    var st' := ChunksAppend(x, st, i, cs);
    hide Fill, Loaded;
    assert st'.fixedField == Some(i);
  }
}
