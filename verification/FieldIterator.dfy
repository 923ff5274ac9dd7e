/** pb_common.c: the cursor over a descriptor table that keeps its data and size pointers up to date
    as it moves. Pointers are offsets into the struct's memory. */
module FieldIterator {
  import opened Descriptor

  class FieldIter {
    var start: seq<Field>
    var pos: nat
    var requiredFieldIndex: nat
    var destStruct: nat
    var pData: int
    var pSize: int

    /** What the cursor must show at its position, computed from the start of the table. */
    ghost predicate Valid()
      reads this
    {
      && (forall k :: 0 <= k < |start| ==> start[k].tag != 0)
      && (start == [] ==> pos == 0 && requiredFieldIndex == 0 && pData == destStruct && pSize == pData)
      && (start != [] ==> AtEntry())
    }

    ghost predicate AtEntry()
      reads this
    {
      && pos < |start|
      && requiredFieldIndex == RequiredBefore(start, pos)
      && pData == destStruct + PData(start, pos)
      && pSize == destStruct + PSize(start, pos)
    }

    /** An iterator variable before pb_field_iter_begin. */
    constructor ()
      ensures pos == 0 && start == []
    {
      start, pos := [], 0;
    }

    method Begin(fields: seq<Field>, dest: nat) returns (nonEmpty: bool)
      requires forall k :: 0 <= k < |fields| ==> fields[k].tag != 0
      modifies this
      ensures Valid()
      ensures start == fields && destStruct == dest && pos == 0
      ensures nonEmpty <==> fields != []
    {
      start := fields;
      pos := 0;
      requiredFieldIndex := 0;
      destStruct := dest;
      pData := dest + Entry(fields, 0).dataOffset;
      pSize := pData + Entry(fields, 0).sizeOffset;
      nonEmpty := Entry(fields, 0).tag != 0;
    }

    /** Moves to the next entry, or back to the first one with result false. */
    method Next() returns (more: bool)
      requires Valid()
      modifies this
      ensures Valid()
      ensures start == old(start) && destStruct == old(destStruct)
      ensures more <==> old(pos) + 1 < |start|
      ensures pos == if more then old(pos) + 1 else 0
    {
      var prevField := Entry(start, pos);
      if prevField.tag == 0 {
        return false;
      }
      pos := pos + 1;
      if Entry(start, pos).tag == 0 {
        var _ := Begin(start, destStruct);
        return false;
      }
      var prevSize := prevField.dataSize;
      if prevField.htype.Oneof? && start[pos].htype.Oneof? && start[pos].dataOffset == PB_SIZE_MAX {
        return true;
      } else if prevField.atype.Static? && prevField.htype.Repeated? {
        prevSize := prevSize * prevField.arraySize;
      } else if prevField.atype.Pointer? {
        prevSize := POINTER_BYTES;
      }
      if prevField.htype.Required? {
        requiredFieldIndex := requiredFieldIndex + 1;
      }
      pData := pData + prevSize + start[pos].dataOffset;
      pSize := pData + start[pos].sizeOffset;
      return true;
    }

    /** From any start position, finds an entry with this tag in at most one lap if there is one;
        otherwise ends where it started. On an empty table tag 0 matches the terminator. */
    method Find(tag: nat) returns (found: bool, ghost steps: nat)
      requires Valid()
      modifies this
      ensures Valid()
      ensures start == old(start) && destStruct == old(destStruct)
      ensures found ==> Matches(Entry(start, pos), tag)
      ensures found <==> (if start == [] then tag == 0 else exists k :: 0 <= k < |start| && Matches(start[k], tag))
      ensures !found ==> pos == old(pos)
      ensures steps <= if start == [] then 1 else |start|
      ensures start != [] ==> pos == (old(pos) + steps) % |start|
    {
      hide RequiredBefore, PData, PSize;
      var first := pos;
      ghost var wrapped := false;
      steps := 0;
      while true
        invariant Valid() && start == old(start) && destStruct == old(destStruct)
        invariant if start == [] then !wrapped && pos == 0 else first < |start|
        invariant if wrapped then pos < first else first <= pos
        invariant pos == first + steps - if wrapped then |start| else 0
        invariant !wrapped ==> forall k :: first <= k < pos ==> !Matches(start[k], tag)
        invariant wrapped ==> forall k :: 0 <= k < pos || first <= k < |start| ==> !Matches(start[k], tag)
        decreases if wrapped then first - pos else |start| + first + 1 - pos
      {
        if Entry(start, pos).tag == tag && !Entry(start, pos).ltype.Extension? {
          Lap(first, steps, |start|, pos);
          return true, steps;
        }
        var more := Next();
        steps := steps + 1;
        if pos == first {
          Lap(first, steps, |start|, pos);
          return false, steps;
        }
        wrapped := wrapped || !more;
      }
    }
  }

  /** Moving on `steps` times around a table of n entries. */
  lemma Lap(first: nat, steps: nat, n: nat, pos: nat)
    requires n > 0 ==> first < n && pos < n && (pos == first + steps || pos == first + steps - n)
    ensures n > 0 ==> pos == (first + steps) % n
  {
  }

  /** With distinct tags the search result does not depend on where it started. */
  lemma FoundIsIndexOf(fields: seq<Field>, pos: nat, tag: nat)
    requires pos < |fields| && DistinctTags(fields) && Matches(fields[pos], tag)
    ensures pos == IndexOf(fields, tag)
  {
    IndexOfTag(fields, pos);
  }
}
