/** Messages that are all zero but for one entry, and the tables for which there is such a message for
    every entry. */
module Planted {
  import opened Bits
  import opened Descriptor
  import opened StructMemory
  import opened Encoding
  import opened Messages
  import opened Heeded

  // ---- The zero message ----

  lemma ZeroItems(f: Field, n: nat)
    requires n < f.arraySize
    ensures ItemAt(f, Zeros(f.dataSize * f.arraySize), n) == Zeros(f.dataSize)
  {
    ItemInside(f, n);
  }

  lemma {:induction false} ZeroString(n: nat)
    ensures n > 0 ==> StringLen(Zeros(n)) == 0
  {
  }

  lemma ZeroItemValid(f: Field)
    requires WellFormedField(f)
    ensures ItemFor(f, Zeros(f.dataSize)) && ValidItem(f, Zeros(f.dataSize))
    decreases f, 0
  {
    hide WellFormed, ValidMessage, FromLittleEndian, StringLen;
    if f.ltype.Submessage? {
      ZeroMessageValid(f.ptr.fields, f.dataSize);
    } else if f.ltype.Bytes? {
      assert Zeros(f.dataSize)[..SIZE_BYTES] == Zeros(SIZE_BYTES);
      ZerosValue(SIZE_BYTES);
    } else if f.ltype.String? {
      ZeroString(f.dataSize);
    }
  }

  /** A slot with zero data and no count: every entry it has is valid. */
  lemma ZeroSlotValid(f: Field)
    requires WellFormedField(f)
    ensures SlotFor(f, Slot(0, Zeros(DataLen(f)))) && ValidSlot(f, Slot(0, Zeros(DataLen(f))))
    decreases f, 1
  {
    hide ValidItem, WellFormedField, ItemAt, IsDefault;
    ZeroItemValid(f);
    if f.htype.Repeated? {
      forall k | 0 <= k < CountOf(f, Slot(0, Zeros(DataLen(f))))
        ensures ValidItem(f, ItemAt(f, Zeros(DataLen(f)), k))
      {
        ZeroItems(f, k);
      }
    }
  }

  lemma ZeroSlot(fields: seq<Field>, size: nat, i: nat)
    requires WellFormed(fields, size) && i < |fields|
    ensures GetSlot(fields, i, Zeros(size)) == Slot(0, Zeros(DataLen(fields[i])))
  {
    EntryCells(fields, i, size);
    hide WellFormed, PData, SizeLen, DataLen, FromLittleEndian;
    ZerosValue(SizeLen(fields[i]));
    assert SizeLen(fields[i]) > 0
        ==> Read(Zeros(size), PSize(fields, i), SizeLen(fields[i])) == Zeros(SizeLen(fields[i]));
    assert Read(Zeros(size), PData(fields, i), DataLen(fields[i])) == Zeros(DataLen(fields[i]));
  }

  /** A struct of zeros is a valid message. */
  lemma ZeroMessageValid(fields: seq<Field>, size: nat)
    requires WellFormed(fields, size)
    ensures ValidMessage(fields, Zeros(size))
    decreases fields
  {
    hide WellFormed, ValidSlot, GetSlot, WellFormedField, DataLen, SlotFor;
    forall i | 0 <= i < |fields|
      ensures SlotFor(fields[i], GetSlot(fields, i, Zeros(size)))
          && ValidSlot(fields[i], GetSlot(fields, i, Zeros(size)))
      ensures ValidWhich(fields, Zeros(size), i)
    {
      FieldOf(fields, size, i);
      ZeroSlot(fields, size, i);
      ZeroSlotValid(fields[i]);
      SizeOfSlot(fields, i, Zeros(size));
    }
  }

  lemma SizeOfSlot(fields: seq<Field>, i: nat, m: Memory)
    requires WellFormed(fields, |m|) && i < |fields|
    ensures GetSlot(fields, i, m).size == GetSize(fields, i, m)
  {
  }

  // ---- One entry planted in it ----

  /** A slot that an entry can hold in a message, and that is sent. */
  ghost predicate Sendable(f: Field, t: Slot) {
    && SlotFor(f, t) && ValidSlot(f, t) && Present(f, t) && (SizeLen(f) > 0 ==> SizeFits(f, t.size))
    && (SizeLen(f) == 0 ==> t.size == 0) && (f.htype.Oneof? ==> t.size == f.tag)
  }

  ghost function Plant(fields: seq<Field>, size: nat, g: nat, t: Slot): (m: Memory)
    requires WellFormed(fields, size) && g < |fields| && |t.data| == DataLen(fields[g])
    ensures |m| == size
  {
    PutSlot(fields, g, Zeros(size), t)
  }

  lemma PlantedSlot(fields: seq<Field>, size: nat, g: nat, t: Slot)
    requires WellFormed(fields, size) && g < |fields| && Sendable(fields[g], t)
    ensures GetSlot(fields, g, Plant(fields, size, g, t)) == t
  {
    hide WellFormed, GetSlot, PutSlot, ValidSlot, Present;
    GetPutSame(fields, g, Zeros(size), t);
  }

  /** The other entries: still zero, or members of the same oneof that are not selected. */
  lemma PlantedOther(fields: seq<Field>, size: nat, g: nat, t: Slot, j: nat)
    requires WellFormed(fields, size) && g < |fields| && j < |fields| && j != g && Sendable(fields[g], t)
    ensures var m := Plant(fields, size, g, t);
            && SlotFor(fields[j], GetSlot(fields, j, m)) && ValidSlot(fields[j], GetSlot(fields, j, m))
            && ValidWhich(fields, m, j)
  {
    hide WellFormed, GetSlot, PutSlot, ValidSlot, Present, Leader, GetSize;
    var m := Plant(fields, size, g, t);
    PlantedSlot(fields, size, g, t);
    WellFormedSlot(fields, j, m);
    FieldOf(fields, size, j);
    SizeOfSlot(fields, j, m);
    SizeOfSlot(fields, g, m);
    if Leader(fields, g) != Leader(fields, j) {
      GetPutOther(fields, g, j, Zeros(size), t);
      ZeroSlot(fields, size, j);
      ZeroSlotValid(fields[j]);
    } else {
      SharedAreOneof(fields, g, j);
      UnionSizeShared(fields, g, j, m);
      TagsOf(fields, size, g, j);
      Unselected(fields[j], GetSlot(fields, j, m));
    }
  }

  lemma TagsOf(fields: seq<Field>, size: nat, i: nat, j: nat)
    requires WellFormed(fields, size) && i < |fields| && j < |fields| && i != j
    ensures fields[i].tag != fields[j].tag
  {
    assert i < j ==> fields[i].tag != fields[j].tag;
    assert j < i ==> fields[j].tag != fields[i].tag;
  }

  lemma Unselected(f: Field, s: Slot)
    requires SlotFor(f, s) && f.htype.Oneof? && s.size != f.tag
    ensures ValidSlot(f, s)
  {
  }

  lemma PlantedValid(fields: seq<Field>, size: nat, g: nat, t: Slot)
    requires WellFormed(fields, size) && g < |fields| && Sendable(fields[g], t)
    ensures ValidMessage(fields, Plant(fields, size, g, t))
  {
    hide WellFormed, GetSlot, PutSlot, ValidSlot, Present, Plant, Leader, GetSize, WellFormedField;
    var m := Plant(fields, size, g, t);
    PlantedSlot(fields, size, g, t);
    SizeOfSlot(fields, g, m);
    assert ValidWhich(fields, m, g);
    forall j | 0 <= j < |fields|
      ensures SlotFor(fields[j], GetSlot(fields, j, m)) && ValidSlot(fields[j], GetSlot(fields, j, m))
      ensures ValidWhich(fields, m, j)
    {
      if j != g {
        PlantedOther(fields, size, g, t, j);
      }
    }
  }

  /** What is sent is not a default, so neither is the planted message. */
  lemma PlantedTold(fields: seq<Field>, size: nat, g: nat, t: Slot)
    requires WellFormed(fields, size) && g < |fields| && Sendable(fields[g], t)
    ensures !AllDefault(fields, Plant(fields, size, g, t), 0)
  {
    hide WellFormed, GetSlot, PutSlot, ValidSlot, Plant, AllDefault;
    PlantedSlot(fields, size, g, t);
    FieldOf(fields, size, g);
    SentIsNoDefault(fields[g], t);
    if AllDefault(fields, Plant(fields, size, g, t), 0) {
      AllDefaultAt(fields, Plant(fields, size, g, t), 0, g);
    }
  }

  lemma SentIsNoDefault(f: Field, t: Slot)
    requires Sendable(f, t)
    ensures !IsDefault(f, t)
  {
    hide ValidSlot, WellFormed, AllDefault;
    if f.htype.Optional? && f.sizeOffset == 0 {
      hide IsDefault;
    }
  }

  // ---- One item put in a slot ----

  /** The slot that holds item d as its entry e, with the count that takes. */
  ghost function SlotOf(f: Field, e: nat, d: seq<byte>): (t: Slot)
    requires WellFormedField(f) && |d| == f.dataSize && e < Entries(f)
    ensures |t.data| == DataLen(f)
  {
    match f.htype
    case Required => Slot(0, d)
    case Optional => Slot(if f.sizeOffset != 0 then 1 else 0, d)
    case Repeated => Slot(if f.sizeOffset != 0 then e + 1 else 0, PutItem(f, Zeros(DataLen(f)), e, d))
    case Oneof => Slot(f.tag, d)
  }

  /** An implicit field is sent only if its value is not the default. */
  lemma SlotOfSendable(f: Field, e: nat, d: seq<byte>)
    requires ItemFor(f, d) && e < Entries(f) && ValidItem(f, d)
    requires Implicit(f) ==> !IsDefault(f, Slot(0, d))
    ensures Sendable(f, SlotOf(f, e, d))
  {
    hide ValidItem, WellFormed, PutItem, ItemAt, IsDefault;
    var t := SlotOf(f, e, d);
    SizeFitsFacts(f, t.size);
    if f.htype.Repeated? {
      ZeroItemValid(f);
      forall k | 0 <= k < CountOf(f, t)
        ensures ValidItem(f, ItemAt(f, t.data, k))
      {
        ZeroItems(f, k);
        if k == e {
          ItemPutSame(f, Zeros(DataLen(f)), e, d);
        } else {
          ItemPutOther(f, Zeros(DataLen(f)), e, d, k);
        }
      }
    }
  }

  /** In a slot that holds the same, item e is the same. */
  lemma SlotOfSame(f: Field, e: nat, d: seq<byte>, r: Slot)
    requires ItemFor(f, d) && e < Entries(f) && SlotFor(f, r)
    requires SlotFor(f, SlotOf(f, e, d)) && SameSlot(f, SlotOf(f, e, d), r)
    ensures SameItem(f, d, ItemOf(f, r.data, e))
    ensures HasFlag(f) ==> r.size != 0
    ensures Counted(f) ==> r.size == e + 1
    ensures f.htype.Oneof? ==> r.size == f.tag
  {
    hide SameItem, WellFormed, PutItem, ItemAt;
    if f.htype.Repeated? {
      ItemPutSame(f, Zeros(DataLen(f)), e, d);
    }
  }

  /** Entry e of a field's data. */
  function ItemOf(f: Field, data: seq<byte>, e: nat): (d: seq<byte>)
    requires |data| == DataLen(f) && e < Entries(f)
    ensures |d| == f.dataSize
  {
    if f.htype.Repeated? then ItemAt(f, data, e) else data
  }

  // ---- Tables as they come ----

  /** The size cell comes before the data, an array has room for an entry, a submessage has fields, no
      oneof submessage has a tag whose low byte is zero, and a default that its type cannot tell from
      zero is zero. */
  ghost predicate OrdinaryField(f: Field)
    decreases f
  {
    && SizeFirst(f)
    && (f.htype.Repeated? ==> f.arraySize > 0)
    && (if f.ltype.Submessage? then
          && (f.ptr.Sub? ==> f.ptr.fields != [] && Ordinary(f.ptr.fields))
          && (f.htype.Oneof? ==> f.tag % 256 != 0)
        else Telling(f) || !DefaultTells(f))
  }

  ghost predicate Ordinary(fields: seq<Field>)
    decreases fields
  {
    forall i :: 0 <= i < |fields| ==> OrdinaryField(fields[i])
  }

  lemma OrdinaryFirst(fields: seq<Field>)
    requires Ordinary(fields)
    ensures SizesFirst(fields) && Tame(fields)
    decreases fields
  {
    forall i | 0 <= i < |fields|
      ensures SizeFirst(fields[i]) && SizesFirstBelow(fields[i])
    {
      OrdinaryBelow(fields[i]);
    }
    hide LongArrays;
  }

  lemma OrdinaryBelow(f: Field)
    requires OrdinaryField(f)
    ensures SizeFirst(f) && SizesFirstBelow(f)
    decreases f
  {
    if f.ltype.Submessage? && f.ptr.Sub? {
      OrdinaryFirst(f.ptr.fields);
    }
    hide Ordinary, SizesFirst, LongArrays;
  }

  lemma OrdinaryTame(f: Field)
    requires OrdinaryField(f)
    ensures TameField(f)
  {
    OrdinaryBelow(f);
    hide LongBelow, SizesFirstBelow;
  }
}
