/** Arrays on the heap: the overflow check of allocate_field, and the loop of decode_pointer_field
    that grows an array while a packed payload is decoded into it. */
module Allocation {
  import opened Bits
  import opened Wire
  import opened Descriptor
  import opened StructMemory
  import opened Encoding
  import opened Decoding
  import opened Locality
  import opened InputStream
  import opened ValueDecoder

  // ---- The overflow check ----

  /** The check of allocate_field on a size_t of 2 * half bits: division only if one of the factors
      has a bit in its upper half. */
  predicate PassesCheck(dataSize: nat, arraySize: nat, half: nat)
    requires arraySize > 0
  {
    var checkLimit := Pow2(half);
    var sizeMax := Pow2(2 * half) - 1;
    if dataSize >= checkLimit || arraySize >= checkLimit then !(sizeMax / arraySize < dataSize) else true
  }

  lemma MulBelow(a: nat, b: nat, m: nat)
    requires a < m && b < m
    ensures a * b < m * m
  {
    MulMono(a, m - 1, b);
    MulMono(b, m - 1, m - 1);
    assert a * b <= (m - 1) * b <= (m - 1) * (m - 1);
    assert (m - 1) * (m - 1) == m * m - 2 * m + 1;
  }

  lemma QuotientBound(d: nat, a: nat, max: nat)
    requires a > 0
    ensures d <= max / a <==> d * a <= max
  {
    var q := max / a;
    assert max == a * q + max % a;
    if d <= q {
      MulMono(d, q, a);
    } else {
      MulMono(q + 1, d, a);
      MulDistribute(a, q, 1);
    }
  }

  /** The check passes exactly if the product fits in a size_t. */
  lemma OverflowCheckExact(dataSize: nat, arraySize: nat, half: nat)
    requires arraySize > 0
    ensures PassesCheck(dataSize, arraySize, half) <==> dataSize * arraySize < Pow2(2 * half)
  {
    Pow2Add(half, half);
    hide Pow2;
    QuotientBound(dataSize, arraySize, Pow2(2 * half) - 1);
    if dataSize < Pow2(half) && arraySize < Pow2(half) {
      MulBelow(dataSize, arraySize, Pow2(half));
    }
  }

  /** allocate_field on a 64-bit target; pb_realloc grants at most `heap` bytes. */
  method AllocateField(items: array<byte>, dataSize: nat, arraySize: nat, heap: nat)
    returns (ok: bool, items': array<byte>)
    ensures ok <==> dataSize > 0 && arraySize > 0 && dataSize * arraySize < TWO64 && dataSize * arraySize <= heap
    ensures !ok ==> items' == items
    ensures ok ==> fresh(items') && items'.Length == dataSize * arraySize
    ensures ok ==> forall k :: 0 <= k < items.Length && k < items'.Length ==> items'[k] == items[k]
  {
    items' := items;
    if dataSize == 0 || arraySize == 0 {
      return false, items';
    }
    OverflowCheckExact(dataSize, arraySize, 32);
    assert Pow2(32) == TWO32 && Pow2(64) == TWO64 by { Pow2Facts(); }
    hide Pow2;
    var checkLimit := TWO32;
    if dataSize >= checkLimit || arraySize >= checkLimit {
      var sizeMax := TWO64 - 1;
      if sizeMax / arraySize < dataSize {
        return false, items';
      }
    }
    var size := arraySize * dataSize;
    if size > heap {
      return false, items';
    }
    MulMono(0, dataSize, arraySize);
    items' := new byte[size](k requires 0 <= k reads items => if k < items.Length then items[k] else 0);
    ok := true;
  }

  // ---- Growth ----

  /** The values of a packed payload one after the other, if all of it decodes. */
  function DecodeAll(f: Field, s: seq<byte>): (r: Option<seq<byte>>)
    requires WellFormedField(f) && f.ltype.Packable()
    decreases |s|
  {
    if s == [] then Some([])
    else
      match DecodeScalar(f, Zeros(f.dataSize), s)
      case Fail(_) => None
      case Ok(d, rest) =>
        match DecodeAll(f, rest)
        case None => None
        case Some(ds) => Some(d + ds)
  }

  /** `done` are the values decoded so far and `s` the unread rest of a payload s0. */
  ghost predicate DecodedSoFar(f: Field, s0: seq<byte>, done: seq<byte>, s: seq<byte>)
    requires WellFormedField(f) && f.ltype.Packable()
  {
    DecodeAll(f, s0) == (if DecodeAll(f, s).Some? then Some(done + DecodeAll(f, s).value) else None)
  }

  lemma NothingDecoded(f: Field, s: seq<byte>)
    requires WellFormedField(f) && f.ltype.Packable()
    ensures DecodedSoFar(f, s, [], s)
  {
    assert DecodeAll(f, s).Some? ==> [] + DecodeAll(f, s).value == DecodeAll(f, s).value;
  }

  lemma OneMoreDecoded(f: Field, s0: seq<byte>, done: seq<byte>, s: seq<byte>, d: seq<byte>)
    requires ItemFor(f, d) && f.ltype.Packable() && s != [] && DecodedSoFar(f, s0, done, s)
    ensures var r := DecodeScalar(f, d, s);
            if r.Ok? then DecodedSoFar(f, s0, done + r.value, r.rest) else DecodeAll(f, s0).None?
  {
    ScalarOverwrites(f, d, Zeros(f.dataSize), s);
    hide DecodeScalar, WellFormedField;
    var r := DecodeScalar(f, d, s);
    if r.Ok? && DecodeAll(f, r.rest).Some? {
      assert done + (r.value + DecodeAll(f, r.rest).value) == done + r.value + DecodeAll(f, r.rest).value;
    }
  }

  lemma AllDecoded(f: Field, s0: seq<byte>, done: seq<byte>, s: seq<byte>)
    requires WellFormedField(f) && f.ltype.Packable() && DecodedSoFar(f, s0, done, s) && s == []
    ensures DecodeAll(f, s0) == Some(done)
  {
    assert done + [] == done;
  }

  lemma ScalarFacts(f: Field)
    requires WellFormedField(f) && f.ltype.Packable()
    ensures 1 <= f.dataSize <= 8
  {
  }

  function Quotient(n: nat, d: nat): nat
    requires d > 0
  {
    n / d
  }

  /** Grows the array if entry `size` does not fit, by the number of entries the rest of the payload
      may hold, as far as PB_SIZE_MAX allows. */
  method MakeRoom(items: array<byte>, dataSize: nat, size: nat, capacity: nat, bytesLeft: nat, heap: nat)
    returns (ok: bool, items': array<byte>, capacity': nat)
    requires 1 <= dataSize <= 8 && size <= capacity <= PB_SIZE_MAX && size < PB_SIZE_MAX && bytesLeft > 0
    requires items.Length == dataSize * capacity
    ensures capacity <= capacity' <= PB_SIZE_MAX && size < capacity'
    ensures ok <==> capacity' == capacity || dataSize * capacity' <= heap
    ensures ok ==> items'.Length == dataSize * capacity'
    ensures if ok && capacity' > capacity then fresh(items') else items' == items
    ensures ok ==> items.Length <= items'.Length && items'[..items.Length] == items[..]
  {
    hide Quotient;
    items', capacity', ok := items, capacity, true;
    if size + 1 > capacity {
      var remain := Quotient(bytesLeft - 1, dataSize) + 1;
      if remain < PB_SIZE_MAX - capacity {
        capacity' := capacity + remain;
      } else {
        capacity' := capacity + 1;
      }
      ProductSmall(dataSize, capacity');
      RoomFor(dataSize, capacity, capacity');
      ok, items' := AllocateField(items, dataSize, capacity', heap);
    }
  }

  lemma PrefixKept(a: seq<byte>, b: seq<byte>, n: nat)
    requires n <= |a| <= |b| && b[..|a|] == a
    ensures b[..n] == a[..n]
  {
    assert b[..n] == b[..|a|][..n];
  }

  /** The packed loop of decode_pointer_field, from an array of size0 entries. The array always has
      room for the entry being stored and never more than PB_SIZE_MAX entries; the loop stops early
      only for a value that does not decode, a full array or a refused allocation. */
  method DecodePackedPointer(stream: IStream, f: Field, items0: array<byte>, size0: nat, heap: nat)
    returns (status: bool, items: array<byte>, size: nat, capacity: nat, refused: bool)
    requires stream.Valid() && stream.buf != items0 && WellFormedField(f) && f.ltype.Packable()
    requires size0 <= PB_SIZE_MAX && items0.Length == f.dataSize * size0
    modifies stream
    ensures stream.Valid() && stream.End() == old(stream.End())
    ensures size0 <= size <= capacity <= PB_SIZE_MAX
    ensures !refused ==> items.Length == f.dataSize * capacity
    ensures status ==> DecodeAll(f, old(stream.Unread())).Some? && stream.Unread() == []
    ensures status ==> f.dataSize * size <= items.Length
                       && items[..f.dataSize * size] == old(items0[..]) + DecodeAll(f, old(stream.Unread())).value
    ensures f.dataSize * size0 <= items.Length && items[..f.dataSize * size0] == old(items0[..])
    ensures !status ==> refused || size == PB_SIZE_MAX || DecodeAll(f, old(stream.Unread())).None?
    ensures refused ==> f.dataSize * capacity > heap
  {
    hide DecodeScalar, WellFormedField, DecodeAll, Leaves, Write, Read, Appended;
    ghost var s0, before, done := stream.Unread(), items0[..], [];
    ScalarFacts(f);
    NothingAppended(f, s0, before, size0);
    items, size, capacity, refused := items0, size0, size0, false;
    while stream.bytesLeft > 0
      invariant stream.Valid() && stream.End() == old(stream.End()) && stream.buf != items
      invariant size0 <= size <= capacity <= PB_SIZE_MAX && items.Length == f.dataSize * capacity
      invariant if capacity > size0 then fresh(items) else items == items0
      invariant Appended(f, s0, before, done, items[..], size, stream.Unread())
      decreases stream.bytesLeft
    {
      AppendedFacts(f, s0, before, done, items[..], size, stream.Unread());
      if size == PB_SIZE_MAX {
        return false, items, size, capacity, refused;
      }
      ghost var kept := items[..];
      var ok;
      ok, items, capacity := MakeRoom(items, f.dataSize, size, capacity, stream.bytesLeft, heap);
      if !ok {
        return false, items, size, capacity, true;
      }
      AppendedGrows(f, s0, before, done, kept, size, stream.Unread(), items[..]);
      ghost var m, s := items[..], stream.Unread();
      RoomFor(f.dataSize, size, capacity);
      ghost var d := Read(m, f.dataSize * size, f.dataSize);
      status := DecScalar(stream, f, items, f.dataSize * size);
      AppendedStored(f, s0, before, done, m, size, s, DecodeScalar(f, d, s), status, items[..], stream.Unread());
      if !status {
        return;
      }
      done := done + DecodeScalar(f, d, s).value;
      size := size + 1;
    }
    AppendedFacts(f, s0, before, done, items[..], size, stream.Unread());
    AppendedAll(f, s0, before, done, items[..], size, stream.Unread());
    status := true;
  }

  /** The array m holds the entries from before the payload s0 and then the values decoded so far, with s
      still to come. */
  ghost predicate Appended(f: Field, s0: seq<byte>, before: seq<byte>, done: seq<byte>, m: seq<byte>, size: nat,
                           s: seq<byte>) {
    && WellFormedField(f) && f.ltype.Packable()
    && f.dataSize * size <= |m| && m[..f.dataSize * size] == before + done
    && |before| <= |m| && m[..|before|] == before
    && DecodedSoFar(f, s0, done, s)
  }

  lemma AppendedFacts(f: Field, s0: seq<byte>, before: seq<byte>, done: seq<byte>, m: seq<byte>, size: nat,
                      s: seq<byte>)
    requires Appended(f, s0, before, done, m, size, s)
    ensures f.dataSize * size <= |m| && m[..f.dataSize * size] == before + done
    ensures |before| <= |m| && m[..|before|] == before
  {
    hide WellFormedField, DecodedSoFar;
  }

  lemma NothingAppended(f: Field, s0: seq<byte>, before: seq<byte>, size: nat)
    requires WellFormedField(f) && f.ltype.Packable() && |before| == f.dataSize * size
    ensures Appended(f, s0, before, [], before, size, s0)
  {
    hide WellFormedField, DecodedSoFar;
    NothingDecoded(f, s0);
    assert before + [] == before && before[..|before|] == before;
  }

  lemma AppendedGrows(f: Field, s0: seq<byte>, before: seq<byte>, done: seq<byte>, m: seq<byte>, size: nat,
                      s: seq<byte>, m': seq<byte>)
    requires Appended(f, s0, before, done, m, size, s) && |m| <= |m'| && m'[..|m|] == m
    ensures Appended(f, s0, before, done, m', size, s)
  {
    hide WellFormedField, DecodedSoFar;
    PrefixKept(m, m', f.dataSize * size);
    PrefixKept(m, m', |before|);
  }

  /** One more value decoded into the entry past the others. */
  lemma AppendedStored(f: Field, s0: seq<byte>, before: seq<byte>, done: seq<byte>, m: seq<byte>, size: nat,
                       s: seq<byte>, r: Result<seq<byte>>, ok: bool, m': seq<byte>, unread: seq<byte>)
    requires Appended(f, s0, before, done, m, size, s) && s != [] && f.dataSize * size + f.dataSize <= |m|
    requires f.dataSize * (size + 1) == f.dataSize * size + f.dataSize
    requires r == DecodeScalar(f, Read(m, f.dataSize * size, f.dataSize), s)
    requires Leaves(m, f.dataSize * size, r, ok, m', unread)
    ensures ok ==> Appended(f, s0, before, done + r.value, m', size + 1, unread) && |unread| < |s|
    ensures !ok ==> DecodeAll(f, s0).None? && |before| <= |m'| && m'[..|before|] == before
  {
    hide WellFormedField, DecodedSoFar, DecodeScalar, Leaves, DecodeAll, Read;
    OneMoreDecoded(f, s0, done, s, Read(m, f.dataSize * size, f.dataSize));
    StoredAfter(m, f.dataSize * size, r, ok, m', unread);
    StillStarts(before, done, r.value, m', f.dataSize * size);
  }

  lemma AppendedAll(f: Field, s0: seq<byte>, before: seq<byte>, done: seq<byte>, m: seq<byte>, size: nat, s: seq<byte>)
    requires Appended(f, s0, before, done, m, size, s) && s == []
    ensures DecodeAll(f, s0) == Some(done)
  {
    hide WellFormedField, DecodedSoFar, DecodeAll;
    AllDecoded(f, s0, done, s);
  }

  /** The entries from before the payload are where they were. */
  lemma StillStarts(before: seq<byte>, done: seq<byte>, d: seq<byte>, m: seq<byte>, n: nat)
    requires n + |d| <= |m| && n == |before + done| && m[..n + |d|] == before + done + d
    ensures m[..|before|] == before && m[..n + |d|] == before + (done + d)
  {
    assert m[..|before|] == m[..n + |d|][..|before|];
  }

  lemma ProductSmall(dataSize: nat, arraySize: nat)
    requires dataSize <= 8 && arraySize <= PB_SIZE_MAX
    ensures dataSize * arraySize < TWO64
  {
    MulMono(arraySize, PB_SIZE_MAX, dataSize);
    MulMono(dataSize, 8, PB_SIZE_MAX);
  }

  lemma RoomFor(dataSize: nat, size: nat, capacity: nat)
    requires size < capacity
    ensures 0 <= dataSize * size && dataSize * (size + 1) == dataSize * size + dataSize <= dataSize * capacity
  {
    MulDistribute(dataSize, size, 1);
    MulMono(size + 1, capacity, dataSize);
  }

  lemma StoredAfter(m: Memory, p: nat, r: Result<seq<byte>>, ok: bool, m': Memory, unread: seq<byte>)
    requires Leaves(m, p, r, ok, m', unread)
    ensures |m'| == |m| && p + |r.value| <= |m| && m'[..p + |r.value|] == m[..p] + r.value
    ensures (ok <==> r.Ok?) && (ok ==> unread == r.rest)
  {
  }
}
