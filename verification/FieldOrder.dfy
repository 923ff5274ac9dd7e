/** Field order: two records of different fields commute unless one is stored over a byte that the other
    heeds. */
module FieldOrder {
  import opened Bits
  import opened Wire
  import opened Descriptor
  import opened StructMemory
  import opened Decoding
  import opened Locality
  import opened Records
  import opened Frame
  import opened Heeded
  import opened Lockstep

  /** Nothing that spills from entry i matters to entry j. */
  ghost predicate Spares(x: Struct, i: nat, j: nat)
    requires i < |x.fields| && j < |x.fields|
  {
    forall k: nat :: Spills(x.fields[i], Addr(x, i), k) ==> !Heeds(x.fields[j], Addr(x, j), k)
  }

  /** Not members of one oneof, not both fixed-count arrays, and neither disturbs the other. */
  ghost predicate Independent(x: Struct, i: nat, j: nat)
    requires i < |x.fields| && j < |x.fields|
  {
    && Leader(x.fields, i) != Leader(x.fields, j) && !(FixedCount(x.fields[i]) && FixedCount(x.fields[j]))
    && Spares(x, i, j) && Spares(x, j, i)
  }

  // ---- Two fields ----

  /** A record of a field at p writes nothing that a field at q heeds. */
  ghost predicate Clear(f: Field, p: nat, g: Field, q: nat) {
    forall k: nat :: FieldWrites(f, p, k) ==> !Heeds(g, q, k)
  }

  lemma SparesClear(x: Struct, i: nat, j: nat)
    requires WellFormed(x.fields, x.size) && i < |x.fields| && j < |x.fields|
    requires Leader(x.fields, i) != Leader(x.fields, j) && Spares(x, i, j)
    ensures Clear(x.fields[i], Addr(x, i), x.fields[j], Addr(x, j))
  {
    FieldOf(x.fields, x.size, j);
    hide WellFormed, FieldWrites, Heeds, WellFormedField, InCells, Addr, Leader;
    forall k: nat | FieldWrites(x.fields[i], Addr(x, i), k)
      ensures !Heeds(x.fields[j], Addr(x, j), k)
    {
      if !InCells(x.fields[i], Addr(x, i), k) {
        assert Spills(x.fields[i], Addr(x, i), k);
      } else if Heeds(x.fields[j], Addr(x, j), k) {
        HeededInside(x.fields[j], Addr(x, j), k);
        CellsDisjoint(x, i, j, k);
      }
    }
  }

  /** What a record leaves where another field looks is what stood there. */
  lemma ClearAgrees(f: Field, m: Memory, p: nat, g: Field, q: nat, count: nat, wireType: nat, s: seq<byte>)
    requires PlacedField(f, p, |m|) && Clear(f, p, g, q)
    ensures AgreeOn(g, q, m, DecodeCells(f, m, p, count, wireType, s).value.mem)
  {
    hide PlacedField, DecodeCells, FieldWrites, Heeds;
    forall k | 0 <= k < |m| && Heeds(g, q, k)
      ensures DecodeCells(f, m, p, count, wireType, s).value.mem[k] == m[k]
    {
      CellsFrame(f, m, p, count, wireType, s, k);
    }
  }

  /** Two records that write nothing the other's field heeds. */
  lemma CellsCommute(f: Field, p: nat, ci: nat, wi: nat, s: seq<byte>, g: Field, q: nat, cj: nat, wj: nat, t: seq<byte>,
                     m: Memory)
    requires PlacedField(f, p, |m|) && PlacedField(g, q, |m|) && Clear(f, p, g, q) && Clear(g, q, f, p)
    ensures var rf, rg := DecodeCells(f, m, p, ci, wi, s), DecodeCells(g, m, q, cj, wj, t);
            var rfg := DecodeCells(g, rf.value.mem, q, cj, wj, t);
            var rgf := DecodeCells(f, rg.value.mem, p, ci, wi, s);
            && (rfg.Ok? <==> rg.Ok?) && (rgf.Ok? <==> rf.Ok?) && rfg.value.mem == rgf.value.mem
            && rfg.value.count == rg.value.count && rgf.value.count == rf.value.count
  {
    hide PlacedField, DecodeCells, FieldWrites, Heeds, AgreeOn, Lock;
    var mf, mg := DecodeCells(f, m, p, ci, wi, s).value.mem, DecodeCells(g, m, q, cj, wj, t).value.mem;
    ClearAgrees(f, m, p, g, q, ci, wi, s);
    ClearAgrees(g, m, q, f, p, cj, wj, t);
    CellsLock(g, m, q, mf, cj, wj, t);
    CellsLock(f, m, p, mg, ci, wi, s);
    var mfg, mgf := DecodeCells(g, mf, q, cj, wj, t).value.mem, DecodeCells(f, mg, p, ci, wi, s).value.mem;
    forall k | 0 <= k < |m|
      ensures mfg[k] == mgf[k]
    {
      ByteCommutes(f, p, ci, wi, s, g, q, cj, wj, t, m, k);
    }
  }

  /** Byte k is heeded by neither field, or by one and left alone by the other. */
  lemma ByteCommutes(f: Field, p: nat, ci: nat, wi: nat, s: seq<byte>, g: Field, q: nat, cj: nat, wj: nat, t: seq<byte>,
                     m: Memory, k: nat)
    requires PlacedField(f, p, |m|) && PlacedField(g, q, |m|) && Clear(f, p, g, q) && Clear(g, q, f, p) && k < |m|
    requires var mf, mg := DecodeCells(f, m, p, ci, wi, s).value.mem, DecodeCells(g, m, q, cj, wj, t).value.mem;
             && Lock(m, mf, mg, DecodeCells(g, mf, q, cj, wj, t).value.mem)
             && Lock(m, mg, mf, DecodeCells(f, mg, p, ci, wi, s).value.mem)
    ensures var mf, mg := DecodeCells(f, m, p, ci, wi, s).value.mem, DecodeCells(g, m, q, cj, wj, t).value.mem;
            DecodeCells(g, mf, q, cj, wj, t).value.mem[k] == DecodeCells(f, mg, p, ci, wi, s).value.mem[k]
  {
    hide PlacedField, DecodeCells, FieldWrites, Heeds;
    var mf, mg := DecodeCells(f, m, p, ci, wi, s).value.mem, DecodeCells(g, m, q, cj, wj, t).value.mem;
    var mfg, mgf := DecodeCells(g, mf, q, cj, wj, t).value.mem, DecodeCells(f, mg, p, ci, wi, s).value.mem;
    assert LockedAt(m, mf, mg, mfg, k) && LockedAt(m, mg, mf, mgf, k);
    if Heeds(g, q, k) {
      CellsFrame(f, m, p, ci, wi, s, k);
      CellsFrame(f, mg, p, ci, wi, s, k);
    } else if Heeds(f, p, k) {
      CellsFrame(g, m, q, cj, wj, t, k);
      CellsFrame(g, mf, q, cj, wj, t, k);
    } else {
      CellsLower(f, m, p, ci, wi, s, k);
      CellsLower(g, m, q, cj, wj, t, k);
      CellsLower(g, mf, q, cj, wj, t, k);
      CellsLower(f, mg, p, ci, wi, s, k);
    }
  }

  // ---- Two records ----

  /** A fixed-count array must wait for another one to be complete. */
  predicate Waits(x: Struct, st: State, i: nat)
    requires i < |x.fields| && (st.fixedField.Some? ==> st.fixedField.value < |x.fields|)
  {
    FixedCount(x.fields[i]) && st.fixedField != Some(i) && !FixedComplete(x.fields, st)
  }

  /** A record of a field, in terms of its cells. */
  lemma FieldShape(x: Struct, st: State, i: nat, wireType: nat, s: seq<byte>)
    requires StateFor(x, st) && i < |x.fields|
    ensures PlacedField(x.fields[i], Addr(x, i), |st.mem|)
    ensures var e, r := Enter(x.fields, st, i), DecodeField(x, st, i, wireType, s);
            var c := DecodeCells(x.fields[i], st.mem, Addr(x, i), e.fixedSize, wireType, s);
            if Waits(x, st, i) then r == Fail(st)
            else
              && (r.Ok? <==> c.Ok?)
              && r.value == State(c.value.mem, st.seen + Mark(x.fields, i), e.fixedField, c.value.count)
              && (!FixedCount(x.fields[i])
                  ==> e.fixedField == st.fixedField && e.fixedSize == st.fixedSize == c.value.count)
  {
    hide Placed, DecodeCells, PlacedField, Mark;
    PlacedEntry(x, i, |st.mem|);
    var count := Enter(x.fields, st, i).fixedSize;
    if !FixedCount(x.fields[i]) {
      CountKept(x.fields[i], st.mem, Addr(x, i), count, wireType, s);
    }
  }

  /** Other fields do not use the local count. */
  lemma CountUnused(f: Field, m: Memory, p: nat, count: nat, count': nat, wireType: nat, s: seq<byte>)
    requires PlacedField(f, p, |m|) && !FixedCount(f)
    ensures var c, c' := DecodeCells(f, m, p, count, wireType, s), DecodeCells(f, m, p, count', wireType, s);
            (c.Ok? <==> c'.Ok?) && c.value.mem == c'.value.mem
  {
    hide DecodeSlot, DecodeSubmessage, PlacedField, PutSlotAt, PutSizeAt, ResetMember;
    PlacedCells(f, p, |m|);
    assert CursorSlot(m, f, p, count) == CursorSlot(m, f, p, count');
    hide CursorSlot;
  }

  /** Two records of independent fields commute. */
  lemma FieldsCommute(x: Struct, st: State, i: nat, wi: nat, s: seq<byte>, j: nat, wj: nat, t: seq<byte>)
    requires StateFor(x, st) && i < |x.fields| && j < |x.fields| && Independent(x, i, j)
    ensures var ri, rj := DecodeField(x, st, i, wi, s), DecodeField(x, st, j, wj, t);
            var rij, rji := DecodeField(x, ri.value, j, wj, t), DecodeField(x, rj.value, i, wi, s);
            (rij.Ok? <==> rj.Ok?) && (rji.Ok? <==> ri.Ok?) && rij.value == rji.value
  {
    hide Placed, DecodeField, Spares, Addr, Leader;
    if FixedCount(x.fields[j]) {
      PlainCommutes(x, st, j, wj, t, i, wi, s);
    } else {
      PlainCommutes(x, st, i, wi, s, j, wj, t);
    }
  }

  lemma PlainCommutes(x: Struct, st: State, i: nat, wi: nat, s: seq<byte>, j: nat, wj: nat, t: seq<byte>)
    requires StateFor(x, st) && i < |x.fields| && j < |x.fields| && Independent(x, i, j) && !FixedCount(x.fields[j])
    ensures var ri, rj := DecodeField(x, st, i, wi, s), DecodeField(x, st, j, wj, t);
            var rij, rji := DecodeField(x, ri.value, j, wj, t), DecodeField(x, rj.value, i, wi, s);
            (rij.Ok? <==> rj.Ok?) && (rji.Ok? <==> ri.Ok?) && rij.value == rji.value
  {
    hide WellFormed, Reaches, DecodeCells, DecodeField, Mark, Spares, Clear, PlacedField, Addr, Leader, FixedCount;
    FieldShape(x, st, i, wi, s);
    FieldShape(x, st, j, wj, t);
    var ri, rj := DecodeField(x, st, i, wi, s), DecodeField(x, st, j, wj, t);
    FieldShape(x, ri.value, j, wj, t);
    FieldShape(x, rj.value, i, wi, s);
    SparesClear(x, i, j);
    SparesClear(x, j, i);
    CountUnused(x.fields[j], ri.value.mem, Addr(x, j), st.fixedSize, ri.value.fixedSize, wj, t);
    CellsCommute(x.fields[i], Addr(x, i), Enter(x.fields, st, i).fixedSize, wi, s,
                 x.fields[j], Addr(x, j), st.fixedSize, wj, t, st.mem);
  }

  lemma TwoRecords(x: Struct, st: State, a: seq<byte>, b: seq<byte>, tail: seq<byte>)
    requires StateFor(x, st) && AgreeingRecord(x.fields, a) && AgreeingRecord(x.fields, b)
    ensures var ra := DecodeField(x, st, FieldOfRecord(x.fields, a), KeyOf(a) % 8, PayloadOf(a));
            var rb := DecodeField(x, ra.value, FieldOfRecord(x.fields, b), KeyOf(b) % 8, PayloadOf(b));
            if ra.Ok? && rb.Ok? then DecodeLoop(x, st, a + b + tail) == DecodeLoop(x, rb.value, tail)
            else DecodeLoop(x, st, a + b + tail).Broken?
  {
    var ra := DecodeField(x, st, FieldOfRecord(x.fields, a), KeyOf(a) % 8, PayloadOf(a));
    hide DecodeLoop, DecodeField, Placed, WireTypeAgrees, SkipField, DecodeVarint32, IndexOf;
    assert a + b + tail == a + (b + tail);
    LoopOneRecord(x, st, a, b + tail);
    LoopOneRecord(x, ra.value, b, tail);
  }

  /** Swapping two adjacent records of independent fields changes neither whether the record loop
      succeeds nor, on success, the state it reaches. */
  lemma SwapRecords(x: Struct, st: State, a: seq<byte>, b: seq<byte>, tail: seq<byte>)
    requires StateFor(x, st) && AgreeingRecord(x.fields, a) && AgreeingRecord(x.fields, b)
    requires Independent(x, FieldOfRecord(x.fields, a), FieldOfRecord(x.fields, b))
    ensures var r, r' := DecodeLoop(x, st, a + b + tail), DecodeLoop(x, st, b + a + tail);
            r == r' || (r.Broken? && r'.Broken?)
  {
    hide DecodeLoop, DecodeField, Placed, WireTypeAgrees, SkipField, DecodeVarint32, IndexOf, Independent;
    var i, wi, s := FieldOfRecord(x.fields, a), KeyOf(a) % 8, PayloadOf(a);
    var j, wj, t := FieldOfRecord(x.fields, b), KeyOf(b) % 8, PayloadOf(b);
    FieldsCommute(x, st, i, wi, s, j, wj, t);
    TwoRecords(x, st, a, b, tail);
    TwoRecords(x, st, b, a, tail);
  }

  lemma Regroup(before: seq<byte>, a: seq<byte>, b: seq<byte>, tail: seq<byte>)
    ensures before + a + b + tail == before + (a + b + tail)
  {
  }

  /** The whole-message form: same verdict, and the same memory on success. */
  lemma FieldOrderIrrelevant(x: Struct, m: Memory, before: seq<byte>, a: seq<byte>, b: seq<byte>, tail: seq<byte>)
    requires Placed(x, |m|) && AgreeingRecord(x.fields, a) && AgreeingRecord(x.fields, b)
    requires Independent(x, FieldOfRecord(x.fields, a), FieldOfRecord(x.fields, b))
    requires DecodeLoop(x, Start(SetDefaults(x, m)), before).Ended?
    ensures var r, r' := Decode(x, m, before + a + b + tail), Decode(x, m, before + b + a + tail);
            (r.Ok? <==> r'.Ok?) && (r.Ok? ==> r == r')
  {
    hide DecodeLoop, Placed, AgreeingRecord, IndexOf, SetDefaults, Independent, FieldOfRecord, AllRequiredSeen;
    var st := Start(SetDefaults(x, m));
    Regroup(before, a, b, tail);
    Regroup(before, b, a, tail);
    LoopConcat(x, st, before, a + b + tail);
    LoopConcat(x, st, before, b + a + tail);
    SwapRecords(x, DecodeLoop(x, st, before).st, a, b, tail);
  }
}
