/** A record does the same over any two memories that agree on the bytes its field heeds: the same
    answer, and every byte is stored alike or left alone in both. */
module Lockstep {
  import opened Bits
  import opened Wire
  import opened Descriptor
  import opened StructMemory
  import opened Encoding
  import opened Decoding
  import opened Overrun
  import opened Heeded

  // ---- The same stores ----

  /** From m to r and from m' to r' the same bytes were stored. */
  ghost predicate Lock(m: seq<byte>, m': seq<byte>, r: seq<byte>, r': seq<byte>) {
    && |m'| == |r| == |r'| == |m|
    && forall k :: 0 <= k < |m| ==> LockedAt(m, m', r, r', k)
  }

  predicate LockedAt(m: seq<byte>, m': seq<byte>, r: seq<byte>, r': seq<byte>, k: nat)
    requires |m'| == |r| == |r'| == |m| && k < |m|
  {
    r[k] == r'[k] || (r[k] == m[k] && r'[k] == m'[k])
  }

  lemma LockTrans(m: seq<byte>, m': seq<byte>, a: seq<byte>, a': seq<byte>, r: seq<byte>, r': seq<byte>)
    requires Lock(m, m', a, a') && Lock(a, a', r, r')
    ensures Lock(m, m', r, r')
  {
    forall k | 0 <= k < |m|
      ensures LockedAt(m, m', r, r', k)
    {
      assert LockedAt(m, m', a, a', k) && LockedAt(a, a', r, r', k);
    }
  }

  lemma LockSelf(m: seq<byte>, m': seq<byte>)
    requires |m'| == |m|
    ensures Lock(m, m', m, m')
  {
  }

  lemma LockWrite(m: Memory, m': Memory, lo: nat, b: seq<byte>)
    requires |m'| == |m| && lo + |b| <= |m|
    ensures Lock(m, m', Write(m, lo, b), Write(m', lo, b))
  {
  }

  lemma LockPutSize(m: Memory, m': Memory, f: Field, p: nat, n: nat)
    requires CellsAt(f, p, |m|) && |m'| == |m|
    ensures Lock(m, m', PutSizeAt(m, f, p, n), PutSizeAt(m', f, p, n))
  {
    hide Write, LittleEndian, DataLen;
    LockSelf(m, m');
    if SizeLen(f) > 0 {
      LockWrite(m, m', p + f.sizeOffset, LittleEndian(n, SizeLen(f)));
    }
  }

  /** The bytes that a field heeds are the same in both memories. */
  ghost predicate AgreeOn(f: Field, p: nat, m: Memory, m': Memory) {
    |m'| == |m| && forall k :: 0 <= k < |m| && Heeds(f, p, k) ==> m[k] == m'[k]
  }

  ghost predicate AgreeStruct(x: Struct, m: Memory, m': Memory) {
    |m'| == |m| && forall k :: 0 <= k < |m| && RecordsHeed(x.fields, x.base, k) ==> m[k] == m'[k]
  }

  lemma AgreeAfter(f: Field, p: nat, m: Memory, m': Memory, r: Memory, r': Memory)
    requires AgreeOn(f, p, m, m') && Lock(m, m', r, r')
    ensures AgreeOn(f, p, r, r')
  {
    hide Heeds;
    forall k | 0 <= k < |r| && Heeds(f, p, k)
      ensures r[k] == r'[k]
    {
      assert LockedAt(m, m', r, r', k);
    }
  }

  lemma StructAfter(x: Struct, m: Memory, m': Memory, r: Memory, r': Memory)
    requires AgreeStruct(x, m, m') && Lock(m, m', r, r')
    ensures AgreeStruct(x, r, r')
  {
    hide RecordsHeed;
    forall k | 0 <= k < |r| && RecordsHeed(x.fields, x.base, k)
      ensures r[k] == r'[k]
    {
      assert LockedAt(m, m', r, r', k);
    }
  }

  lemma AgreeEntry(x: Struct, m: Memory, m': Memory, i: nat)
    requires AgreeStruct(x, m, m') && i < |x.fields|
    ensures AgreeOn(x.fields[i], Addr(x, i), m, m')
  {
    forall k | 0 <= k < |m| && Heeds(x.fields[i], Addr(x, i), k)
      ensures m[k] == m'[k]
    {
      assert HeedsFor(x.fields, x.base, i, k);
    }
  }

  lemma AgreeSub(f: Field, p: nat, m: Memory, m': Memory, e: nat)
    requires AgreeOn(f, p, m, m') && f.ltype.Submessage? && f.ptr.Sub? && e < Entries(f)
    ensures AgreeStruct(SubAt(f, p, e), m, m')
  {
    hide SizeHeeded;
    forall k | 0 <= k < |m| && RecordsHeed(f.ptr.fields, EntryAddr(f, p, e), k)
      ensures m[k] == m'[k]
    {
      assert EntryHeeds(f, p, e, k);
    }
  }

  /** The defaults are stored in the same bytes whatever memory holds. */
  lemma LockDefaults(x: Struct, m: Memory, m': Memory)
    requires Placed(x, |m|) && |m'| == |m|
    ensures Lock(m, m', SetDefaults(x, m), SetDefaults(x, m'))
  {
    hide Placed, SetDefaults, DefaultsFrom, WritesFrom;
    forall k | 0 <= k < |m|
      ensures LockedAt(m, m', SetDefaults(x, m), SetDefaults(x, m'), k)
    {
      DefaultsByte(x, m, m', 0, k);
      DefaultsByte(x, m', m, 0, k);
    }
  }

  // ---- Values ----

  /** The same answer and the same stores. */
  ghost predicate LockValue(d: seq<byte>, d': seq<byte>, r: Result<seq<byte>>, r': Result<seq<byte>>) {
    (r.Ok? <==> r'.Ok?) && (r.Ok? ==> r.rest == r'.rest) && Lock(d, d', r.value, r'.value)
  }

  lemma ScalarLocks(f: Field, d: seq<byte>, d': seq<byte>, s: seq<byte>)
    requires ItemFor(f, d) && ItemFor(f, d') && f.ltype.Packable()
    ensures LockValue(d, d', DecodeScalar(f, d, s), DecodeScalar(f, d', s))
  {
    hide DecodeVarint, DecodeVarint32, Narrow, LittleEndian, FromLittleEndian;
  }

  lemma ValueLocks(f: Field, d: seq<byte>, d': seq<byte>, s: seq<byte>)
    requires ItemFor(f, d) && ItemFor(f, d') && !f.ltype.Submessage?
    ensures LockValue(d, d', DecodeValue(f, d, s), DecodeValue(f, d', s))
  {
    LockSelf(d, d');
    if f.ltype.Packable() {
      ScalarLocks(f, d, d', s);
      hide DecodeScalar;
    } else {
      hide DecodeVarint32, LittleEndian, Write, Lock;
      if DecodeVarint32(s).Got? {
        var n, rest := DecodeVarint32(s).value, DecodeVarint32(s).rest;
        if f.ltype.Bytes? && n + SIZE_BYTES <= f.dataSize {
          TwoWritesLock(d, d', 0, LittleEndian(n, SIZE_BYTES), SIZE_BYTES, if n <= |rest| then rest[..n] else []);
        } else if f.ltype.String? && n < f.dataSize {
          LockWrite(d, d', n, [0]);
          if n <= |rest| {
            TwoWritesLock(d, d', 0, rest[..n], n, [0]);
          }
        } else if f.ltype.FixedLengthBytes? && n == 0 {
          LockEqual(d, d', Zeros(f.dataSize));
        } else if f.ltype.FixedLengthBytes? && n == f.dataSize && n <= |rest| {
          LockEqual(d, d', rest[..n]);
        }
      }
    }
  }

  lemma LockEqual(d: seq<byte>, d': seq<byte>, r: seq<byte>)
    requires |d'| == |d| == |r|
    ensures Lock(d, d', r, r)
  {
  }

  lemma TwoWritesLock(d: seq<byte>, d': seq<byte>, lo: nat, b: seq<byte>, hi: nat, c: seq<byte>)
    requires |d'| == |d| && lo + |b| <= |d| && hi + |c| <= |d|
    ensures Lock(d, d', Write(d, lo, b), Write(d', lo, b))
    ensures Lock(d, d', Write(Write(d, lo, b), hi, c), Write(Write(d', lo, b), hi, c))
  {
    hide Write, Lock;
    LockWrite(d, d', lo, b);
    LockWrite(Write(d, lo, b), Write(d', lo, b), hi, c);
    LockTrans(d, d', Write(d, lo, b), Write(d', lo, b), Write(Write(d, lo, b), hi, c), Write(Write(d', lo, b), hi, c));
  }

  // ---- Fields below submessages ----

  /** Two cursors with the same count. */
  ghost predicate LockSlot(s: Slot, s': Slot, r: Result<Slot>, r': Result<Slot>) {
    && (r.Ok? <==> r'.Ok?) && (r.Ok? ==> r.rest == r'.rest)
    && r.value.size == r'.value.size && Lock(s.data, s'.data, r.value.data, r'.value.data)
  }

  lemma LockItem(f: Field, a: seq<byte>, a': seq<byte>, n: nat, d: seq<byte>, d': seq<byte>)
    requires n < f.arraySize && |a| == |a'| == f.dataSize * f.arraySize && |d| == |d'| == f.dataSize
    requires Lock(ItemAt(f, a, n), ItemAt(f, a', n), d, d')
    ensures Lock(a, a', PutItem(f, a, n, d), PutItem(f, a', n, d'))
  {
    ItemInside(f, n);
    var lo, r, r' := f.dataSize * n, PutItem(f, a, n, d), PutItem(f, a', n, d');
    forall k | 0 <= k < |a|
      ensures LockedAt(a, a', r, r', k)
    {
      if lo <= k < lo + f.dataSize {
        assert LockedAt(ItemAt(f, a, n), ItemAt(f, a', n), d, d', k - lo);
        assert ItemAt(f, a, n)[k - lo] == a[k] && ItemAt(f, a', n)[k - lo] == a'[k];
      }
    }
  }

  lemma {:induction false} PackedLoopLocks(f: Field, s: Slot, s': Slot, b: seq<byte>)
    requires SlotFor(f, s) && SlotFor(f, s') && s.size == s'.size && f.htype.Repeated? && f.ltype.Packable()
    ensures LockSlot(s, s', PackedLoop(f, s, b), PackedLoop(f, s', b))
    decreases |b|
  {
    hide DecodeScalar, WellFormedField, PutItem, ItemAt, Lock;
    LockSelf(s.data, s'.data);
    if b != [] && s.size < f.arraySize {
      var n := s.size;
      ScalarLocks(f, ItemAt(f, s.data, n), ItemAt(f, s'.data, n), b);
      var r, r' := DecodeScalar(f, ItemAt(f, s.data, n), b), DecodeScalar(f, ItemAt(f, s'.data, n), b);
      LockItem(f, s.data, s'.data, n, r.value, r'.value);
      if r.Ok? {
        var t, t' := Slot(n + 1, PutItem(f, s.data, n, r.value)), Slot(n + 1, PutItem(f, s'.data, n, r'.value));
        PackedLoopLocks(f, t, t', r.rest);
        LockTrans(s.data, s'.data, t.data, t'.data, PackedLoop(f, t, r.rest).value.data,
                  PackedLoop(f, t', r.rest).value.data);
      }
    }
  }

  lemma SlotLocks(f: Field, s: Slot, s': Slot, wireType: nat, b: seq<byte>)
    requires SlotFor(f, s) && SlotFor(f, s') && !f.ltype.Submessage?
    requires f.htype.Repeated? ==> s.size == s'.size
    ensures var r, r' := DecodeSlot(f, s, wireType, b), DecodeSlot(f, s', wireType, b);
            && (r.Ok? <==> r'.Ok?) && (r.Ok? ==> r.rest == r'.rest)
            && (f.htype.Repeated? || SizeLen(f) > 0 ==> r.value.size == r'.value.size)
            && Lock(s.data, s'.data, r.value.data, r'.value.data)
  {
    hide DecodeValue, WellFormedField, PackedLoop, PutItem, ItemAt, Substream, Lock;
    LockSelf(s.data, s'.data);
    if f.htype.Repeated? && wireType == STRING && f.ltype.Packable() {
      if Substream(b).Got? {
        PackedLoopLocks(f, s, s', Substream(b).value);
      }
    } else if f.htype.Repeated? && s.size >= f.arraySize {
    } else {
      ValueLocks(f, Target(f, s), Target(f, s'), b);
      if f.htype.Repeated? {
        LockItem(f, s.data, s'.data, s.size, DecodeValue(f, Target(f, s), b).value,
                 DecodeValue(f, Target(f, s'), b).value);
      }
    }
  }

  /** Both memories agree on the count that the field looks at. */
  lemma CountsAgree(f: Field, p: nat, m: Memory, m': Memory, count: nat)
    requires CellsAt(f, p, |m|) && AgreeOn(f, p, m, m')
    requires f.htype.Repeated? || (f.htype.Oneof? && f.ltype.Submessage?)
    ensures CursorSlot(m, f, p, count).size == CursorSlot(m', f, p, count).size
  {
    if !FixedCount(f) {
      forall k: nat | p + f.sizeOffset <= k < p + f.sizeOffset + SizeLen(f)
        ensures m[k] == m'[k]
      {
        SizeByteHeeded(f, p, k);
      }
      hide Heeds, DataLen, FromLittleEndian;
      assert Read(m, p + f.sizeOffset, SizeLen(f)) == Read(m', p + f.sizeOffset, SizeLen(f));
    }
  }

  lemma SizeByteHeeded(f: Field, p: nat, k: nat)
    requires InSizeCell(f, p, k) && (f.htype.Oneof? ==> f.ltype.Submessage?)
    ensures Heeds(f, p, k)
  {
    hide RecordsHeed;
  }

  lemma LockStored(m: Memory, m': Memory, f: Field, p: nat, t: Slot, t': Slot)
    requires CellsFor(f, p, |m|) && |m'| == |m| && |t.data| == DataLen(f) == |t'.data|
    requires SizeLen(f) > 0 ==> t.size == t'.size
    requires Lock(Read(m, p, DataLen(f)), Read(m', p, DataLen(f)), t.data, t'.data)
    ensures Lock(m, m', PutSlotAt(m, f, p, t), PutSlotAt(m', f, p, t'))
  {
    hide LittleEndian, DataLen, Lock, Write, Read;
    var m1, m1' := m, m';
    if SizeLen(f) > 0 {
      var q, b := p + f.sizeOffset, LittleEndian(t.size, SizeLen(f));
      m1, m1' := Write(m, q, b), Write(m', q, b);
      LockWrite(m, m', q, b);
      ReadWriteApart(m, p, DataLen(f), q, b);
      ReadWriteApart(m', p, DataLen(f), q, b);
    } else {
      LockSelf(m, m');
    }
    LockPart(m1, m1', p, t.data, t'.data);
    LockTrans(m, m', m1, m1', PutSlotAt(m, f, p, t), PutSlotAt(m', f, p, t'));
  }

  lemma LockPart(m: Memory, m': Memory, p: nat, b: seq<byte>, b': seq<byte>)
    requires |m'| == |m| && |b| == |b'| && p + |b| <= |m|
    requires Lock(Read(m, p, |b|), Read(m', p, |b|), b, b')
    ensures Lock(m, m', Write(m, p, b), Write(m', p, b'))
  {
    forall k | 0 <= k < |m|
      ensures LockedAt(m, m', Write(m, p, b), Write(m', p, b'), k)
    {
      if p <= k < p + |b| {
        assert LockedAt(Read(m, p, |b|), Read(m', p, |b|), b, b', k - p);
      }
    }
  }

  /** The same answer, the same input left, the same local count and the same stores. */
  ghost predicate LockCells(m: Memory, m': Memory, r: Result<Cells>, r': Result<Cells>) {
    && (r.Ok? <==> r'.Ok?) && (r.Ok? ==> r.rest == r'.rest)
    && r.value.count == r'.value.count && Lock(m, m', r.value.mem, r'.value.mem)
  }

  lemma LeafLocks(f: Field, m: Memory, p: nat, m': Memory, count: nat, wireType: nat, s: seq<byte>)
    requires PlacedField(f, p, |m|) && AgreeOn(f, p, m, m') && !f.ltype.Submessage?
    ensures LockCells(m, m', DecodeCells(f, m, p, count, wireType, s), DecodeCells(f, m', p, count, wireType, s))
  {
    hide PlacedField, DecodeSlot, PutSlotAt, Lock, FromLittleEndian, WellFormedField, DataLen, Heeds, CellsFor;
    PlacedCells(f, p, |m|);
    var slot, slot' := CursorSlot(m, f, p, count), CursorSlot(m', f, p, count);
    if f.htype.Repeated? {
      CountsAgree(f, p, m, m', count);
    }
    SlotLocks(f, slot, slot', wireType, s);
    var t, t' := DecodeSlot(f, slot, wireType, s).value, DecodeSlot(f, slot', wireType, s).value;
    LockStored(m, m', f, p, t, t');
  }

  // ---- Submessages ----

  ghost predicate LockMemory(m: Memory, m': Memory, r: Result<Memory>, r': Result<Memory>) {
    (r.Ok? <==> r'.Ok?) && (r.Ok? ==> r.rest == r'.rest) && Lock(m, m', r.value, r'.value)
  }

  lemma SubmessageLocks(f: Field, m: Memory, p: nat, m': Memory, e: nat, s: seq<byte>)
    requires PlacedField(f, p, |m|) && AgreeOn(f, p, m, m') && f.ltype.Submessage? && e < Entries(f)
    ensures LockMemory(m, m', DecodeSubmessage(f, m, p, e, s), DecodeSubmessage(f, m', p, e, s))
    decreases f, 1
  {
    hide WellFormed, Reaches, SetDefaults, DecodeNoinit, Substream, Lock, AgreeOn, AgreeStruct, CellsFor;
    PlacedSub(f, p, |m|, e);
    AgreeSub(f, p, m, m', e);
    LockFacts(f, p, m, m');
    LockSelf(m, m');
    var x := SubAt(f, p, e);
    if Substream(s).Got? {
      var m0 := if f.htype.Repeated? then SetDefaults(x, m) else m;
      var m0' := if f.htype.Repeated? then SetDefaults(x, m') else m';
      if f.htype.Repeated? {
        LockDefaults(x, m, m');
        StructAfter(x, m, m', m0, m0');
      }
      NoinitLocks(x, m0, m0', Substream(s).value);
      LockTrans(m, m', m0, m0', DecodeNoinit(x, m0, Substream(s).value).value,
                DecodeNoinit(x, m0', Substream(s).value).value);
    }
  }

  lemma LockFacts(f: Field, p: nat, m: Memory, m': Memory)
    requires AgreeOn(f, p, m, m')
    ensures |m'| == |m|
  {
  }

  lemma ResetLocks(f: Field, m: Memory, p: nat, m': Memory)
    requires PlacedField(f, p, |m|) && AgreeOn(f, p, m, m') && f.ltype.Submessage? && f.htype.Oneof?
    ensures Lock(m, m', ResetMember(f, m, p), ResetMember(f, m', p))
  {
    hide WellFormed, Reaches, SetDefaults, Lock, AgreeOn, SlotAt, Write;
    PlacedCells(f, p, |m|);
    LockFacts(f, p, m, m');
    LockSelf(m, m');
    CountsAgree(f, p, m, m', 0);
    if SlotAt(m, f, p).size != f.tag {
      PlacedSub(f, p, |m|, 0);
      var z, z' := Write(m, p, Zeros(f.dataSize)), Write(m', p, Zeros(f.dataSize));
      LockWrite(m, m', p, Zeros(f.dataSize));
      LockDefaults(SubAt(f, p, 0), z, z');
      LockTrans(m, m', z, z', SetDefaults(SubAt(f, p, 0), z), SetDefaults(SubAt(f, p, 0), z'));
    }
  }

  /** A submessage decoded after its size cell was stored. */
  lemma StepLocks(f: Field, m: Memory, p: nat, m': Memory, a: Memory, a': Memory, n: nat, e: nat, s: seq<byte>)
    requires PlacedField(f, p, |m|) && AgreeOn(f, p, m, m') && f.ltype.Submessage? && e < Entries(f)
    requires CellsAt(f, p, |m|) && Lock(m, m', a, a')
    ensures |a| == |m| == |a'|
    ensures LockMemory(m, m', DecodeSubmessage(f, a, p, e, s), DecodeSubmessage(f, a', p, e, s))
    ensures Lock(m, m', PutSizeAt(a, f, p, n), PutSizeAt(a', f, p, n))
    ensures LockMemory(m, m', DecodeSubmessage(f, PutSizeAt(a, f, p, n), p, e, s),
                       DecodeSubmessage(f, PutSizeAt(a', f, p, n), p, e, s))
    decreases f, 2
  {
    hide PlacedField, DecodeSubmessage, PutSizeAt, AgreeOn, LockedAt;
    var b, b' := PutSizeAt(a, f, p, n), PutSizeAt(a', f, p, n);
    LockPutSize(a, a', f, p, n);
    AgreeAfter(f, p, m, m', a, a');
    AgreeAfter(f, p, a, a', b, b');
    SubmessageLocks(f, a, p, a', e, s);
    SubmessageLocks(f, b, p, b', e, s);
    hide Lock;
    LockTrans(m, m', a, a', b, b');
    LockTrans(m, m', a, a', DecodeSubmessage(f, a, p, e, s).value, DecodeSubmessage(f, a', p, e, s).value);
    LockTrans(m, m', b, b', DecodeSubmessage(f, b, p, e, s).value, DecodeSubmessage(f, b', p, e, s).value);
  }

  lemma SubFieldLocks(f: Field, m: Memory, p: nat, m': Memory, count: nat, s: seq<byte>)
    requires PlacedField(f, p, |m|) && AgreeOn(f, p, m, m') && f.ltype.Submessage?
    ensures LockCells(m, m', DecodeSubField(f, m, p, count, s), DecodeSubField(f, m', p, count, s))
    decreases f, 3
  {
    hide PlacedField, DecodeSubmessage, PutSizeAt, ResetMember, CursorSlot, AgreeOn, Lock, CellsFor, CellsAt;
    PlacedCells(f, p, |m|);
    LockFacts(f, p, m, m');
    LockSelf(m, m');
    match f.htype
    case Required => StepLocks(f, m, p, m', m, m', 0, 0, s);
    case Optional => StepLocks(f, m, p, m', m, m', 1, 0, s);
    case Oneof =>
      ResetLocks(f, m, p, m');
      StepLocks(f, m, p, m', ResetMember(f, m, p), ResetMember(f, m', p), f.tag, 0, s);
    case Repeated =>
      CountsAgree(f, p, m, m', count);
      var n := CursorSlot(m, f, p, count).size;
      if n < f.arraySize {
        StepLocks(f, m, p, m', m, m', (n + 1) % TWO32, n, s);
      } else {
        LockPutSize(m, m', f, p, (n + 1) % TWO32);
      }
  }

  /** One record of a field. */
  lemma CellsLock(f: Field, m: Memory, p: nat, m': Memory, count: nat, wireType: nat, s: seq<byte>)
    requires PlacedField(f, p, |m|) && AgreeOn(f, p, m, m')
    ensures |m'| == |m|
    ensures LockCells(m, m', DecodeCells(f, m, p, count, wireType, s), DecodeCells(f, m', p, count, wireType, s))
    decreases f, 4
  {
    hide PlacedField, DecodeSubField, DecodeSlot, AgreeOn, Lock, PutSlotAt, CursorSlot;
    LockFacts(f, p, m, m');
    if f.ltype.Submessage? {
      SubFieldLocks(f, m, p, m', count, s);
    } else {
      LeafLocks(f, m, p, m', count, wireType, s);
    }
  }

  // ---- Messages ----

  /** The same answer, the same local variables and the same stores. */
  ghost predicate LockState(st: State, st': State, r: Result<State>, r': Result<State>) {
    (r.Ok? <==> r'.Ok?) && (r.Ok? ==> r.rest == r'.rest) && SameLocals(st, st', r.value, r'.value)
  }

  ghost predicate SameLocals(st: State, st': State, r: State, r': State) {
    && r.seen == r'.seen && r.fixedField == r'.fixedField && r.fixedSize == r'.fixedSize
    && Lock(st.mem, st'.mem, r.mem, r'.mem)
  }

  lemma RecordLocks(x: Struct, st: State, m': Memory, tag: nat, wireType: nat, s: seq<byte>)
    requires StateFor(x, st) && AgreeStruct(x, st.mem, m')
    ensures StateFor(x, st.(mem := m'))
    ensures LockState(st, st.(mem := m'), DecodeRecord(x, st, tag, wireType, s),
                      DecodeRecord(x, st.(mem := m'), tag, wireType, s))
    decreases x.fields, 1
  {
    hide WellFormed, Reaches, DecodeCells, SkipField, DecodeVarint32, AgreeOn, RecordsHeed, PlacedField, Lock;
    var i := IndexOf(x.fields, tag);
    LockSelf(st.mem, m');
    if i < |x.fields| {
      PlacedEntry(x, i, |st.mem|);
      AgreeEntry(x, st.mem, m', i);
      CellsLock(x.fields[i], st.mem, Addr(x, i), m', Enter(x.fields, st, i).fixedSize, wireType, s);
    } else if x.fields == [] && tag == 0 {
      BoolInside(x, |st.mem|);
      LockWrite(st.mem, m', x.base, [0]);
      LockWrite(st.mem, m', x.base, [1]);
    }
  }

  lemma BoolInside(x: Struct, len: nat)
    requires Placed(x, len) && x.fields == []
    ensures x.base + 1 <= len
  {
  }

  lemma {:induction false} LoopLocks(x: Struct, st: State, m': Memory, s: seq<byte>)
    requires StateFor(x, st) && AgreeStruct(x, st.mem, m')
    ensures StateFor(x, st.(mem := m'))
    ensures var r, r' := DecodeLoop(x, st, s), DecodeLoop(x, st.(mem := m'), s);
            && (r.Ended? <==> r'.Ended?) && (r.Broken? <==> r'.Broken?)
            && (r.Stopped? ==> r'.Stopped? && r.rest == r'.rest)
            && SameLocals(st, st.(mem := m'), r.st, r'.st)
    decreases x.fields, 2, |s|
  {
    hide Placed, DecodeRecord, DecodeVarint32, AgreeStruct, Lock;
    StructFacts(x, st.mem, m');
    LockSelf(st.mem, m');
    var st' := st.(mem := m');
    if s != [] && DecodeVarint32(s).Got? && DecodeVarint32(s).value != 0 {
      var key, rest := DecodeVarint32(s).value, DecodeVarint32(s).rest;
      RecordLocks(x, st, m', key / 8, key % 8, rest);
      var r, r' := DecodeRecord(x, st, key / 8, key % 8, rest), DecodeRecord(x, st', key / 8, key % 8, rest);
      if r.Ok? {
        StructAfter(x, st.mem, m', r.value.mem, r'.value.mem);
        LoopLocks(x, r.value, r'.value.mem, r.rest);
        assert r.value.(mem := r'.value.mem) == r'.value;
        LockTrans(st.mem, m', r.value.mem, r'.value.mem, DecodeLoop(x, r.value, r.rest).st.mem,
                  DecodeLoop(x, r'.value, r.rest).st.mem);
      }
    }
  }

  lemma StructFacts(x: Struct, m: Memory, m': Memory)
    requires AgreeStruct(x, m, m')
    ensures |m'| == |m|
  {
  }

  /** pb_decode_noinit over two memories that agree on the bytes the table's fields heed. */
  lemma NoinitLocks(x: Struct, m: Memory, m': Memory, s: seq<byte>)
    requires Placed(x, |m|) && AgreeStruct(x, m, m')
    ensures |m'| == |m| && LockMemory(m, m', DecodeNoinit(x, m, s), DecodeNoinit(x, m', s))
    decreases x.fields, 3
  {
    hide Placed, DecodeLoop, AgreeStruct, Lock, AllRequiredSeen;
    StructFacts(x, m, m');
    LoopLocks(x, Start(m), m', s);
    assert Start(m).(mem := m') == Start(m');
  }
}
