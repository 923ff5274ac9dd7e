/** A message struct as raw memory, and the cells of one descriptor entry inside it. */
module StructMemory {
  import opened Bits
  import opened Descriptor

  type Memory = seq<byte>

  function Read(m: Memory, lo: nat, n: nat): (r: seq<byte>)
    requires lo + n <= |m|
    ensures |r| == n
  {
    m[lo..lo + n]
  }

  function Write(m: Memory, lo: nat, b: seq<byte>): (r: Memory)
    requires lo + |b| <= |m|
    ensures |r| == |m|
    ensures forall k :: 0 <= k < |m| ==> r[k] == if lo <= k < lo + |b| then b[k - lo] else m[k]
  {
    m[..lo] + b + m[lo + |b|..]
  }

  lemma ReadWriteSame(m: Memory, lo: nat, b: seq<byte>)
    requires lo + |b| <= |m|
    ensures Read(Write(m, lo, b), lo, |b|) == b
  {
  }

  lemma ReadWriteApart(m: Memory, lo: nat, n: nat, lo': nat, b: seq<byte>)
    requires lo + n <= |m| && lo' + |b| <= |m| && Apart(lo, n, lo', |b|)
    ensures Read(Write(m, lo', b), lo, n) == Read(m, lo, n)
  {
  }

  lemma WritesCommute(m: Memory, lo: nat, b: seq<byte>, lo': nat, b': seq<byte>)
    requires lo + |b| <= |m| && lo' + |b'| <= |m| && Apart(lo, |b|, lo', |b'|)
    ensures Write(Write(m, lo, b), lo', b') == Write(Write(m, lo', b'), lo, b)
  {
  }

  lemma WriteRead(m: Memory, lo: nat, n: nat)
    requires lo + n <= |m|
    ensures Write(m, lo, Read(m, lo, n)) == m
  {
  }

  /** The cells of one entry: the number in its has_, _count or which_ cell (0 if it has none) and
      its data bytes. */
  datatype Slot = Slot(size: nat, data: seq<byte>)

  function GetSize(fields: seq<Field>, i: nat, m: Memory): (n: nat)
    requires i < |fields| && WellFormed(fields, |m|)
  {
    assert CellsInside(fields, i, |m|);
    if SizeLen(fields[i]) == 0 then 0
    else FromLittleEndian(Read(m, PSize(fields, i), SizeLen(fields[i])))
  }

  function GetData(fields: seq<Field>, i: nat, m: Memory): (d: seq<byte>)
    requires i < |fields| && WellFormed(fields, |m|)
    ensures |d| == DataLen(fields[i])
  {
    assert CellsInside(fields, i, |m|);
    Read(m, PData(fields, i), DataLen(fields[i]))
  }

  function GetSlot(fields: seq<Field>, i: nat, m: Memory): (s: Slot)
    requires i < |fields| && WellFormed(fields, |m|)
    ensures |s.data| == DataLen(fields[i])
  {
    Slot(GetSize(fields, i, m), GetData(fields, i, m))
  }

  function PutSize(fields: seq<Field>, i: nat, m: Memory, n: nat): (r: Memory)
    requires i < |fields| && WellFormed(fields, |m|)
    ensures |r| == |m|
  {
    assert CellsInside(fields, i, |m|);
    if SizeLen(fields[i]) == 0 then m
    else Write(m, PSize(fields, i), LittleEndian(n, SizeLen(fields[i])))
  }

  function PutData(fields: seq<Field>, i: nat, m: Memory, d: seq<byte>): (r: Memory)
    requires i < |fields| && WellFormed(fields, |m|) && |d| == DataLen(fields[i])
    ensures |r| == |m|
  {
    assert CellsInside(fields, i, |m|);
    Write(m, PData(fields, i), d)
  }

  function PutSlot(fields: seq<Field>, i: nat, m: Memory, s: Slot): (r: Memory)
    requires i < |fields| && WellFormed(fields, |m|) && |s.data| == DataLen(fields[i])
    ensures |r| == |m|
  {
    PutData(fields, i, PutSize(fields, i, m, s.size), s.data)
  }

  /** A number that its size cell can hold. */
  predicate SizeFits(f: Field, n: nat) {
    if SizeLen(f) == 0 then n == 0 else n < Pow2(8 * SizeLen(f))
  }

  lemma SizeFitsFacts(f: Field, n: nat)
    ensures HasFlag(f) ==> (SizeFits(f, n) <==> n < 256)
    ensures Counted(f) || f.htype.Oneof? ==> (SizeFits(f, n) <==> n < TWO32)
  {
    Pow2Facts();
  }

  /** What was stored in an entry's cells is read back. */
  lemma GetPutSame(fields: seq<Field>, i: nat, m: Memory, s: Slot)
    requires i < |fields| && WellFormed(fields, |m|)
    requires |s.data| == DataLen(fields[i]) && SizeFits(fields[i], s.size)
    ensures GetSlot(fields, i, PutSlot(fields, i, m, s)) == s
  {
    assert CellsInside(fields, i, |m|);
    var m1 := PutSize(fields, i, m, s.size);
    ReadWriteSame(m1, PData(fields, i), s.data);
    if SizeLen(fields[i]) != 0 {
      var b := LittleEndian(s.size, SizeLen(fields[i]));
      ReadWriteSame(m, PSize(fields, i), b);
      ReadWriteApart(m1, PSize(fields, i), |b|, PData(fields, i), s.data);
      FromLittleEndianInverse(s.size, SizeLen(fields[i]));
    }
  }

  /** Storing in one entry's cells leaves every entry outside its union alone. */
  lemma GetPutOther(fields: seq<Field>, i: nat, j: nat, m: Memory, s: Slot)
    requires i < |fields| && j < |fields| && WellFormed(fields, |m|)
    requires Leader(fields, i) != Leader(fields, j) && |s.data| == DataLen(fields[i])
    ensures GetSlot(fields, j, PutSlot(fields, i, m, s)) == GetSlot(fields, j, m)
  {
    assert CellsInside(fields, i, |m|) && CellsInside(fields, j, |m|);
    assert CellsApart(fields, i, j) && CellsApart(fields, j, i);
    var m1 := PutSize(fields, i, m, s.size);
    PutSizeOther(fields, i, j, m, s.size);
    ReadWriteApart(m1, PData(fields, j), DataLen(fields[j]), PData(fields, i), s.data);
    if SizeLen(fields[j]) != 0 {
      ReadWriteApart(m1, PSize(fields, j), SizeLen(fields[j]), PData(fields, i), s.data);
    }
  }

  lemma PutSizeOther(fields: seq<Field>, i: nat, j: nat, m: Memory, n: nat)
    requires i < |fields| && j < |fields| && WellFormed(fields, |m|)
    requires Leader(fields, i) != Leader(fields, j)
    ensures GetSlot(fields, j, PutSize(fields, i, m, n)) == GetSlot(fields, j, m)
  {
    assert CellsInside(fields, i, |m|) && CellsInside(fields, j, |m|);
    assert CellsApart(fields, i, j) && CellsApart(fields, j, i);
    if SizeLen(fields[i]) != 0 {
      var b := LittleEndian(n, SizeLen(fields[i]));
      ReadWriteApart(m, PData(fields, j), DataLen(fields[j]), PSize(fields, i), b);
      if SizeLen(fields[j]) != 0 {
        ReadWriteApart(m, PSize(fields, j), SizeLen(fields[j]), PSize(fields, i), b);
      }
    }
  }

  /** Stores into entries of different unions commute. */
  lemma PutsCommute(fields: seq<Field>, i: nat, j: nat, m: Memory, s: Slot, t: Slot)
    requires i < |fields| && j < |fields| && WellFormed(fields, |m|)
    requires Leader(fields, i) != Leader(fields, j)
    requires |s.data| == DataLen(fields[i]) && |t.data| == DataLen(fields[j])
    ensures PutSlot(fields, j, PutSlot(fields, i, m, s), t) == PutSlot(fields, i, PutSlot(fields, j, m, t), s)
  {
    var a, b := PutSlot(fields, j, PutSlot(fields, i, m, s), t), PutSlot(fields, i, PutSlot(fields, j, m, t), s);
    forall k | 0 <= k < |m|
      ensures a[k] == b[k]
    {
      PutsCommuteAt(fields, i, j, m, s, t, k);
    }
  }

  /** Byte k after a store: the data cell, else the size cell, else untouched. */
  lemma PutSlotByte(fields: seq<Field>, i: nat, m: Memory, s: Slot, k: nat)
    requires i < |fields| && WellFormed(fields, |m|) && |s.data| == DataLen(fields[i]) && k < |m|
    ensures InData(fields, i, k) ==> PutSlot(fields, i, m, s)[k] == s.data[k - PData(fields, i)]
    ensures !InData(fields, i, k) && InSize(fields, i, k)
        ==> PutSlot(fields, i, m, s)[k] == LittleEndian(s.size, SizeLen(fields[i]))[k - PSize(fields, i)]
    ensures !InData(fields, i, k) && !InSize(fields, i, k) ==> PutSlot(fields, i, m, s)[k] == m[k]
  {
    assert CellsInside(fields, i, |m|);
  }

  /** Byte k belongs to the data cell, or to the size cell, of entry i. */
  predicate InData(fields: seq<Field>, i: nat, k: nat)
    requires i < |fields|
  {
    PData(fields, i) <= k < PData(fields, i) + DataLen(fields[i])
  }

  predicate InSize(fields: seq<Field>, i: nat, k: nat)
    requires i < |fields|
  {
    SizeLen(fields[i]) > 0 && PSize(fields, i) <= k < PSize(fields, i) + SizeLen(fields[i])
  }

  lemma PutsCommuteAt(fields: seq<Field>, i: nat, j: nat, m: Memory, s: Slot, t: Slot, k: nat)
    requires i < |fields| && j < |fields| && WellFormed(fields, |m|) && k < |m|
    requires Leader(fields, i) != Leader(fields, j)
    requires |s.data| == DataLen(fields[i]) && |t.data| == DataLen(fields[j])
    ensures PutSlot(fields, j, PutSlot(fields, i, m, s), t)[k] == PutSlot(fields, i, PutSlot(fields, j, m, t), s)[k]
  {
    PutSlotByte(fields, i, m, s, k);
    PutSlotByte(fields, j, m, t, k);
    PutSlotByte(fields, j, PutSlot(fields, i, m, s), t, k);
    PutSlotByte(fields, i, PutSlot(fields, j, m, t), s, k);
    assert CellsApart(fields, i, j) && CellsApart(fields, j, i);
    hide PutSlot, PData, PSize, DataLen, SizeLen;
  }

  /** The members of one union share the which_ cell. */
  lemma UnionSizeShared(fields: seq<Field>, i: nat, j: nat, m: Memory)
    requires i < |fields| && j < |fields| && WellFormed(fields, |m|)
    requires Leader(fields, i) == Leader(fields, j) && fields[i].htype.Oneof? && fields[j].htype.Oneof?
    ensures GetSize(fields, i, m) == GetSize(fields, j, m)
  {
    hide WellFormed, PData, Leader;
    UnionShares(fields, i);
    UnionShares(fields, j);
    assert PSize(fields, i) == PSize(fields, j);
  }

  // ---- Entries of a repeated field ----

  lemma ItemInside(f: Field, k: nat)
    requires k < f.arraySize
    ensures 0 <= f.dataSize * k && f.dataSize * k + f.dataSize <= f.dataSize * f.arraySize
  {
    MulMono(k + 1, f.arraySize, f.dataSize);
    MulDistribute(f.dataSize, k, 1);
  }

  function ItemAt(f: Field, data: seq<byte>, k: nat): (d: seq<byte>)
    requires k < f.arraySize && |data| == f.dataSize * f.arraySize
    ensures |d| == f.dataSize
  {
    ItemInside(f, k);
    Read(data, f.dataSize * k, f.dataSize)
  }

  function PutItem(f: Field, data: seq<byte>, k: nat, d: seq<byte>): (r: seq<byte>)
    requires k < f.arraySize && |data| == f.dataSize * f.arraySize && |d| == f.dataSize
    ensures |r| == |data|
  {
    ItemInside(f, k);
    Write(data, f.dataSize * k, d)
  }

  lemma ItemPutSame(f: Field, data: seq<byte>, k: nat, d: seq<byte>)
    requires k < f.arraySize && |data| == f.dataSize * f.arraySize && |d| == f.dataSize
    ensures ItemAt(f, PutItem(f, data, k, d), k) == d
  {
    ItemInside(f, k);
    ReadWriteSame(data, f.dataSize * k, d);
  }

  lemma ItemPutOther(f: Field, data: seq<byte>, k: nat, d: seq<byte>, j: nat)
    requires k < f.arraySize && j < f.arraySize && j != k
    requires |data| == f.dataSize * f.arraySize && |d| == f.dataSize
    ensures ItemAt(f, PutItem(f, data, k, d), j) == ItemAt(f, data, j)
  {
    ItemInside(f, k);
    ItemInside(f, j);
    if j < k {
      MulMono(j + 1, k, f.dataSize);
      MulDistribute(f.dataSize, j, 1);
    } else {
      MulMono(k + 1, j, f.dataSize);
      MulDistribute(f.dataSize, k, 1);
    }
    ReadWriteApart(data, f.dataSize * j, f.dataSize, f.dataSize * k, d);
  }

  // ---- Cells through pointers ----

  /** The cells of a field lie inside the memory when its data starts at p. */
  ghost predicate CellsAt(f: Field, p: nat, size: nat) {
    && p + DataLen(f) <= size
    && (SizeLen(f) > 0 ==> 0 <= p + f.sizeOffset && p + f.sizeOffset + SizeLen(f) <= size)
  }

  /** A field's cells found from a pointer to its data, as encode_basic_field finds them. */
  function SlotAt(m: Memory, f: Field, p: nat): (s: Slot)
    requires CellsAt(f, p, |m|)
    ensures |s.data| == DataLen(f)
  {
    Slot(if SizeLen(f) == 0 then 0 else FromLittleEndian(Read(m, p + f.sizeOffset, SizeLen(f))),
         Read(m, p, DataLen(f)))
  }

  /** Entry i of a struct that starts at `base`. */
  lemma SlotAtEntry(fields: seq<Field>, i: nat, m: Memory, base: nat, size: nat)
    requires WellFormed(fields, size) && i < |fields| && base + size <= |m|
    ensures CellsAt(fields[i], base + PData(fields, i), |m|)
    ensures SlotAt(m, fields[i], base + PData(fields, i)) == GetSlot(fields, i, Read(m, base, size))
  {
    hide WellFormed, DataLen, SizeLen, PData, FromLittleEndian, Read;
    var f, p, s := fields[i], PData(fields, i), Read(m, base, size);
    EntryCells(fields, i, size);
    ReadRead(m, base, size, p, DataLen(f));
    if SizeLen(f) > 0 {
      ReadRead(m, base, size, PSize(fields, i), SizeLen(f));
    }
  }

  lemma EntryCells(fields: seq<Field>, i: nat, size: nat)
    requires WellFormed(fields, size) && i < |fields|
    ensures CellsInside(fields, i, size) && CellsFor(fields[i], PData(fields, i), size)
    ensures PSize(fields, i) == PData(fields, i) + fields[i].sizeOffset
  {
    assert CellsInside(fields, i, size);
  }

  lemma ReadRead(m: Memory, base: nat, size: nat, lo: nat, n: nat)
    requires base + size <= |m| && lo + n <= size
    ensures Read(Read(m, base, size), lo, n) == Read(m, base + lo, n)
  {
    var a, b := Read(Read(m, base, size), lo, n), Read(m, base + lo, n);
    forall k | 0 <= k < n
      ensures a[k] == b[k]
    {
      assert a[k] == Read(m, base, size)[lo + k] == m[base + (lo + k)];
      assert b[k] == m[(base + lo) + k];
    }
  }

  /** The cells of a field at p do not overlap. */
  ghost predicate CellsFor(f: Field, p: nat, size: nat) {
    CellsAt(f, p, size) && Apart(p, DataLen(f), p + f.sizeOffset, SizeLen(f))
  }

  function PutSlotAt(m: Memory, f: Field, p: nat, s: Slot): (r: Memory)
    requires CellsAt(f, p, |m|) && |s.data| == DataLen(f)
    ensures |r| == |m|
  {
    Write(if SizeLen(f) == 0 then m else Write(m, p + f.sizeOffset, LittleEndian(s.size, SizeLen(f))), p, s.data)
  }

  lemma PutSlotAtSelf(m: Memory, f: Field, p: nat)
    requires CellsAt(f, p, |m|)
    ensures PutSlotAt(m, f, p, SlotAt(m, f, p)) == m
  {
    if SizeLen(f) != 0 {
      LittleEndianInverse(Read(m, p + f.sizeOffset, SizeLen(f)));
      WriteRead(m, p + f.sizeOffset, SizeLen(f));
    }
    WriteRead(m, p, DataLen(f));
  }

  /** Writing inside the data cell. */
  lemma PutSlotAtData(m: Memory, f: Field, p: nat, s: Slot, off: nat, b: seq<byte>)
    requires CellsAt(f, p, |m|) && |s.data| == DataLen(f) && off + |b| <= DataLen(f)
    ensures Write(PutSlotAt(m, f, p, s), p + off, b) == PutSlotAt(m, f, p, s.(data := Write(s.data, off, b)))
  {
  }

  /** Writing the size cell. */
  lemma PutSlotAtSize(m: Memory, f: Field, p: nat, s: Slot, n: nat)
    requires CellsFor(f, p, |m|) && |s.data| == DataLen(f) && SizeLen(f) > 0
    ensures Write(PutSlotAt(m, f, p, s), p + f.sizeOffset, LittleEndian(n, SizeLen(f)))
        == PutSlotAt(m, f, p, s.(size := n))
  {
    var q := p + f.sizeOffset;
    var b, b' := LittleEndian(s.size, SizeLen(f)), LittleEndian(n, SizeLen(f));
    hide LittleEndian;
    WritesCommute(Write(m, q, b), p, s.data, q, b');
    WriteWrite(m, q, b, b');
  }

  lemma WriteWrite(m: Memory, lo: nat, b: seq<byte>, b': seq<byte>)
    requires lo + |b| <= |m| && |b'| == |b|
    ensures Write(Write(m, lo, b), lo, b') == Write(m, lo, b')
  {
  }

  /** A second store replaces the first. */
  lemma PutSlotAtTwice(m: Memory, f: Field, p: nat, s: Slot, t: Slot)
    requires CellsFor(f, p, |m|) && |s.data| == DataLen(f) == |t.data|
    ensures PutSlotAt(PutSlotAt(m, f, p, s), f, p, t) == PutSlotAt(m, f, p, t)
  {
    hide Write, LittleEndian, DataLen;
    if SizeLen(f) > 0 {
      PutSlotAtSize(m, f, p, s, t.size);
    }
    PutSlotAtData(m, f, p, s.(size := t.size), 0, t.data);
    assert Write(s.data, 0, t.data) == t.data by { WriteWhole(s.data, t.data); }
    if SizeLen(f) == 0 {
      NoSizeCell(m, f, p, t, s.size);
    }
  }

  lemma WriteWhole(d: seq<byte>, b: seq<byte>)
    requires |b| == |d|
    ensures Write(d, 0, b) == b && Read(d, 0, |d|) == d
  {
  }

  lemma ReadPutSlotAt(m: Memory, f: Field, p: nat, s: Slot, off: nat, n: nat)
    requires CellsAt(f, p, |m|) && |s.data| == DataLen(f) && off + n <= DataLen(f)
    ensures Read(PutSlotAt(m, f, p, s), p + off, n) == Read(s.data, off, n)
  {
  }

  lemma ReadSizeAt(m: Memory, f: Field, p: nat, s: Slot)
    requires CellsFor(f, p, |m|) && |s.data| == DataLen(f) && SizeLen(f) > 0 && SizeFits(f, s.size)
    ensures FromLittleEndian(Read(PutSlotAt(m, f, p, s), p + f.sizeOffset, SizeLen(f))) == s.size
  {
    var q := p + f.sizeOffset;
    var b := LittleEndian(s.size, SizeLen(f));
    FromLittleEndianInverse(s.size, SizeLen(f));
    hide LittleEndian, FromLittleEndian;
    ReadWriteSame(m, q, b);
    ReadWriteApart(Write(m, q, b), q, SizeLen(f), p, s.data);
  }

  lemma WriteTwiceInside(m: Memory, base: nat, size: nat, lo: nat, b: seq<byte>, lo': nat, b': seq<byte>)
    requires base + size <= |m| && lo + |b| <= size && lo' + |b'| <= size
    ensures Write(Write(m, base + lo, b), base + lo', b')
        == Write(m, base, Write(Write(Read(m, base, size), lo, b), lo', b'))
  {
    hide Write, Read;
    var t, m1 := Read(m, base, size), Write(m, base + lo, b);
    WriteInside(m, base, size, lo, b);
    WriteInside(m1, base, size, lo', b');
    WriteWrite(m, base, Write(t, lo, b), Write(Write(t, lo, b), lo', b'));
  }

  lemma WriteInside(m: Memory, base: nat, size: nat, lo: nat, b: seq<byte>)
    requires base + size <= |m| && lo + |b| <= size
    ensures Write(m, base + lo, b) == Write(m, base, Write(Read(m, base, size), lo, b))
    ensures Read(Write(m, base + lo, b), base, size) == Write(Read(m, base, size), lo, b)
  {
  }

  lemma ReadAll(d: seq<byte>)
    ensures Read(d, 0, |d|) == d
  {
  }

  lemma ReadSlice(src: array<byte>, p: nat, n: nat)
    requires p + n <= src.Length
    ensures src[p..p + n] == Read(src[..], p, n)
  {
  }

  // ---- A field while it is being decoded ----

  /** The slot decode_static_field works on: the count of a fixed-count array is a local variable. */
  function CursorSlot(m: Memory, f: Field, p: nat, count: nat): (s: Slot)
    requires CellsAt(f, p, |m|)
    ensures |s.data| == DataLen(f)
  {
    if FixedCount(f) then Slot(count, Read(m, p, DataLen(f))) else SlotAt(m, f, p)
  }

  /** Memory m is m0 with the field's cells, and the local count, holding `slot`. */
  ghost predicate Holds(m0: Memory, f: Field, p: nat, slot: Slot, m: Memory, count: nat) {
    && CellsFor(f, p, |m0|) && |slot.data| == DataLen(f)
    && m == PutSlotAt(m0, f, p, slot)
    && (if FixedCount(f) then count == slot.size else SizeFits(f, slot.size))
  }

  lemma HoldsStart(m: Memory, f: Field, p: nat, count: nat)
    requires CellsFor(f, p, |m|)
    ensures Holds(m, f, p, CursorSlot(m, f, p, count), m, count)
  {
    hide Write, LittleEndian, FromLittleEndian, DataLen, PutSlotAt, Read;
    PutSlotAtSelf(m, f, p);
    if FixedCount(f) {
      NoSizeCell(m, f, p, SlotAt(m, f, p), count);
    } else if SizeLen(f) > 0 {
      LittleEndianBound(Read(m, p + f.sizeOffset, SizeLen(f)));
    }
  }

  lemma NoSizeCell(m: Memory, f: Field, p: nat, s: Slot, n: nat)
    requires CellsAt(f, p, |m|) && |s.data| == DataLen(f) && SizeLen(f) == 0
    ensures PutSlotAt(m, f, p, s.(size := n)) == PutSlotAt(m, f, p, s)
  {
  }

  lemma HoldsSize(m0: Memory, f: Field, p: nat, slot: Slot, m: Memory, count: nat, n: nat)
    requires Holds(m0, f, p, slot, m, count) && SizeLen(f) > 0 && SizeFits(f, n)
    ensures p + f.sizeOffset >= 0 && p + f.sizeOffset + SizeLen(f) <= |m|
    ensures Holds(m0, f, p, slot.(size := n), Write(m, p + f.sizeOffset, LittleEndian(n, SizeLen(f))), count)
  {
    hide PutSlotAt, Write, LittleEndian, DataLen;
    PutSlotAtSize(m0, f, p, slot, n);
  }

  lemma HoldsSizeRead(m0: Memory, f: Field, p: nat, slot: Slot, m: Memory, count: nat)
    requires Holds(m0, f, p, slot, m, count) && SizeLen(f) > 0
    ensures p + f.sizeOffset >= 0 && p + f.sizeOffset + SizeLen(f) <= |m|
    ensures FromLittleEndian(Read(m, p + f.sizeOffset, SizeLen(f))) == slot.size
  {
    hide PutSlotAt, Read, FromLittleEndian, DataLen;
    ReadSizeAt(m0, f, p, slot);
  }

  lemma HoldsLocal(m0: Memory, f: Field, p: nat, slot: Slot, m: Memory, count: nat, n: nat)
    requires Holds(m0, f, p, slot, m, count) && FixedCount(f)
    ensures Holds(m0, f, p, slot.(size := n), m, n)
  {
    hide DataLen, Write;
  }

  lemma HoldsData(m0: Memory, f: Field, p: nat, slot: Slot, m: Memory, count: nat, off: nat, d: seq<byte>)
    requires Holds(m0, f, p, slot, m, count) && off + |d| <= DataLen(f)
    ensures p + off + |d| <= |m| && Read(m, p + off, |d|) == Read(slot.data, off, |d|)
    ensures Holds(m0, f, p, slot.(data := Write(slot.data, off, d)), Write(m, p + off, d), count)
  {
    hide PutSlotAt, Write, Read, DataLen;
    PutSlotAtData(m0, f, p, slot, off, d);
    ReadPutSlotAt(m0, f, p, slot, off, |d|);
  }

  lemma HoldsRead(m0: Memory, f: Field, p: nat, slot: Slot, m: Memory, count: nat, off: nat, n: nat)
    requires Holds(m0, f, p, slot, m, count) && off + n <= DataLen(f)
    ensures p + off + n <= |m| && Read(m, p + off, n) == Read(slot.data, off, n)
  {
    hide PutSlotAt, Read, DataLen;
    ReadPutSlotAt(m0, f, p, slot, off, n);
  }

  /** The size cell of a field at p, if it has one, set to n. */
  function PutSizeAt(m: Memory, f: Field, p: nat, n: nat): (r: Memory)
    requires CellsAt(f, p, |m|)
    ensures |r| == |m|
  {
    if SizeLen(f) == 0 then m else Write(m, p + f.sizeOffset, LittleEndian(n, SizeLen(f)))
  }

  // ---- Cells after a store ----

  lemma SlotAtWriteData(m: Memory, f: Field, p: nat, off: nat, b: seq<byte>)
    requires CellsFor(f, p, |m|) && off + |b| <= DataLen(f)
    ensures SlotAt(Write(m, p + off, b), f, p) == SlotAt(m, f, p).(data := Write(SlotAt(m, f, p).data, off, b))
  {
    hide FromLittleEndian, DataLen;
    var q := p + f.sizeOffset;
    if SizeLen(f) > 0 {
      ReadWriteApart(m, q, SizeLen(f), p + off, b);
    }
    var a, c := Read(Write(m, p + off, b), p, DataLen(f)), Write(Read(m, p, DataLen(f)), off, b);
    forall k | 0 <= k < |a|
      ensures a[k] == c[k]
    {
      assert a[k] == Write(m, p + off, b)[p + k];
    }
    assert a == c;
  }

  lemma SlotAtPutSize(m: Memory, f: Field, p: nat, n: nat)
    requires CellsFor(f, p, |m|)
    ensures SlotAt(PutSizeAt(m, f, p, n), f, p)
         == Slot(if SizeLen(f) == 0 then 0 else FromLittleEndian(LittleEndian(n, SizeLen(f))), SlotAt(m, f, p).data)
  {
    hide FromLittleEndian, LittleEndian, DataLen;
    if SizeLen(f) > 0 {
      var q, b := p + f.sizeOffset, LittleEndian(n, SizeLen(f));
      ReadWriteSame(m, q, b);
      ReadWriteApart(m, p, DataLen(f), q, b);
    }
  }

  lemma SlotAtPut(m: Memory, f: Field, p: nat, t: Slot)
    requires CellsFor(f, p, |m|) && |t.data| == DataLen(f)
    ensures SlotAt(PutSlotAt(m, f, p, t), f, p)
         == Slot(if SizeLen(f) == 0 then 0 else FromLittleEndian(LittleEndian(t.size, SizeLen(f))), t.data)
  {
    hide FromLittleEndian, LittleEndian, DataLen, SizeLen, Write, SlotAt, CellsAt;
    SlotAtPutSize(m, f, p, t.size);
    var m1 := PutSizeAt(m, f, p, t.size);
    SlotAtWriteData(m1, f, p, 0, t.data);
    WriteWhole(SlotAt(m1, f, p).data, t.data);
  }

  // ---- The bytes of a field ----

  predicate InCell(lo: int, n: nat, k: int) {
    lo <= k < lo + n
  }

  predicate InSizeCell(f: Field, p: nat, k: int) {
    InCell(p + f.sizeOffset, SizeLen(f), k)
  }

  /** Byte k lies in the size cell or the data cell of a field at p. */
  predicate InCells(f: Field, p: nat, k: int) {
    InSizeCell(f, p, k) || InCell(p, DataLen(f), k)
  }

  lemma PutSizeAtByte(m: Memory, f: Field, p: nat, n: nat, k: nat)
    requires CellsAt(f, p, |m|) && k < |m| && !InSizeCell(f, p, k)
    ensures PutSizeAt(m, f, p, n)[k] == m[k]
  {
  }

  /** A store through a field's pointers changes its cells only. */
  lemma PutSlotAtByte(m: Memory, f: Field, p: nat, s: Slot, k: nat)
    requires CellsAt(f, p, |m|) && |s.data| == DataLen(f) && k < |m| && !InCells(f, p, k)
    ensures PutSlotAt(m, f, p, s)[k] == m[k]
  {
    hide LittleEndian;
  }

  lemma SingleLen(f: Field)
    requires !f.htype.Repeated?
    ensures DataLen(f) == f.dataSize
  {
  }

  // ---- Structs in memory ----

  /** A message struct: its table, its address and its size. */
  datatype Struct = Struct(fields: seq<Field>, base: nat, size: nat)

  function Addr(x: Struct, i: nat): nat
    requires i < |x.fields|
  {
    x.base + PData(x.fields, i)
  }

  /** The struct's own bytes. */
  function View(x: Struct, m: Memory): (v: Memory)
    requires x.base + x.size <= |m|
    ensures |v| == x.size
  {
    Read(m, x.base, x.size)
  }

  /** Entry k of a field whose data starts at p. */
  function EntryAddr(f: Field, p: nat, k: nat): (a: nat)
    ensures a == p + f.dataSize * k
  {
    MulMono(0, k, f.dataSize);
    p + f.dataSize * k
  }

  function Entries(f: Field): nat {
    if f.htype.Repeated? then f.arraySize else 1
  }

  lemma EntryInData(f: Field, p: nat, e: nat)
    requires e < Entries(f)
    ensures p <= EntryAddr(f, p, e) && EntryAddr(f, p, e) + f.dataSize <= p + DataLen(f)
  {
    if f.htype.Repeated? {
      ItemInside(f, e);
    }
  }

  /** The struct of entry k of a submessage field. */
  function SubAt(f: Field, p: nat, k: nat): Struct
    requires f.ptr.Sub?
  {
    Struct(f.ptr.fields, EntryAddr(f, p, k), f.dataSize)
  }

  /** Memory of `len` bytes reaches as far as the default values of the table may be stored: a short
      fixed-count array needs bytes after its end. */
  ghost predicate Reaches(fields: seq<Field>, base: nat, len: nat)
    decreases fields
  {
    forall i :: 0 <= i < |fields| ==> FieldReaches(fields[i], base + PData(fields, i), len)
  }

  ghost predicate FieldReaches(f: Field, p: nat, len: nat)
    decreases f
  {
    && (FixedCount(f) ==> p + SIZE_BYTES <= len)
    && (f.ltype.Submessage? && f.ptr.Sub?
        ==> forall k: nat :: k < Entries(f) ==> Reaches(f.ptr.fields, EntryAddr(f, p, k), len))
  }

  /** The struct lies in a memory of `len` bytes. */
  ghost predicate Placed(x: Struct, len: nat) {
    WellFormed(x.fields, x.size) && x.base + x.size <= len && Reaches(x.fields, x.base, len)
  }

  ghost predicate PlacedField(f: Field, p: nat, len: nat) {
    WellFormedField(f) && CellsFor(f, p, len) && FieldReaches(f, p, len)
  }

  lemma PlacedEntry(x: Struct, i: nat, len: nat)
    requires Placed(x, len) && i < |x.fields|
    ensures PlacedField(x.fields[i], Addr(x, i), len)
    ensures x.base + PSize(x.fields, i) == Addr(x, i) + x.fields[i].sizeOffset
    ensures Addr(x, i) + DataLen(x.fields[i]) <= x.base + x.size
  {
    hide WellFormed, WellFormedField, DataLen, SizeLen, PData, FieldReaches, CellsFor;
    FieldOf(x.fields, x.size, i);
    EntryCells(x.fields, i, x.size);
    CellsShift(x.fields[i], PData(x.fields, i), x.size, x.base, len);
  }

  lemma CellsShift(f: Field, p: nat, size: nat, base: nat, len: nat)
    requires CellsFor(f, p, size) && base + size <= len
    ensures CellsFor(f, base + p, len) && base + p + DataLen(f) <= base + size
  {
    hide DataLen, SizeLen;
  }

  lemma PlacedCells(f: Field, p: nat, len: nat)
    requires PlacedField(f, p, len)
    ensures WellFormedField(f) && CellsFor(f, p, len) && CellsAt(f, p, len)
  {
  }

  lemma PlacedSub(f: Field, p: nat, len: nat, k: nat)
    requires PlacedField(f, p, len) && f.ltype.Submessage? && k < Entries(f)
    ensures Placed(SubAt(f, p, k), len)
    ensures EntryAddr(f, p, k) + f.dataSize <= p + DataLen(f)
  {
    if f.htype.Repeated? {
      ItemInside(f, k);
    }
    hide WellFormed, Reaches;
  }

  /** Where every fixed-count array holds a pb_size_t the defaults stay inside the struct. */
  lemma LongReaches(fields: seq<Field>, size: nat, base: nat, len: nat)
    requires WellFormed(fields, size) && LongArrays(fields) && base + size <= len
    ensures Reaches(fields, base, len)
    decreases fields
  {
    hide WellFormed, PData, FieldReaches, CellsFor, WellFormedField, DataLen;
    forall i | 0 <= i < |fields|
      ensures FieldReaches(fields[i], base + PData(fields, i), len)
    {
      FieldOf(fields, size, i);
      EntryCells(fields, i, size);
      CellsShift(fields[i], PData(fields, i), size, base, len);
      LongFieldReaches(fields[i], base + PData(fields, i), len);
    }
  }

  lemma LongFieldReaches(f: Field, p: nat, len: nat)
    requires WellFormedField(f) && HoldsCount(f) && LongBelow(f) && p + DataLen(f) <= len
    ensures FieldReaches(f, p, len)
    decreases f
  {
    hide WellFormed, LongArrays, Reaches;
    if f.ltype.Submessage? {
      forall k: nat | k < Entries(f)
        ensures Reaches(f.ptr.fields, EntryAddr(f, p, k), len)
      {
        if f.htype.Repeated? {
          ItemInside(f, k);
        }
        LongReaches(f.ptr.fields, f.dataSize, EntryAddr(f, p, k), len);
      }
    }
  }

  // ---- Fields of one struct ----

  /** Entries of different unions share no byte. */
  lemma CellsDisjoint(x: Struct, i: nat, j: nat, k: int)
    requires WellFormed(x.fields, x.size) && i < |x.fields| && j < |x.fields|
    requires Leader(x.fields, i) != Leader(x.fields, j) && InCells(x.fields[j], Addr(x, j), k)
    ensures !InCells(x.fields[i], Addr(x, i), k)
  {
    EntryCells(x.fields, i, x.size);
    EntryCells(x.fields, j, x.size);
    assert CellsApart(x.fields, i, j) && CellsApart(x.fields, j, i);
    hide WellFormed, PData, PSize, DataLen, SizeLen;
  }
}
