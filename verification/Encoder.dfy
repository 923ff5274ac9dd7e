/** pb_encode.c as it runs: the field and message encoders walk struct memory with a field iterator
    and feed an output stream. Each is shown to emit what module Encoding says. */
module Encoder {
  import opened Bits
  import opened Integers
  import opened Wire
  import opened Descriptor
  import opened StructMemory
  import opened FieldIterator
  import opened Encoding
  import opened SizeBounds
  import opened OutputStream
  import opened WireEncoder

  // ---- Value encoders ----

  /** safe_read_bool on a one-byte bool. */
  method SafeReadBool(src: array<byte>, p: nat) returns (b: bool)
    requires p < src.Length
    ensures b <==> src[p] != 0
  {
    b := src[p] != 0;
  }

  method EncBool(stream: OStream, f: Field, src: array<byte>, p: nat) returns (ok: bool)
    requires Sound(stream.Now()) && stream.buf != src && p + f.dataSize <= src.Length
    requires WellFormedField(f) && f.ltype.Bool?
    modifies stream, stream.buf
    ensures stream.buf == old(stream.buf)
    ensures Emits(old(stream.Now()), ok, Some(EncodeScalar(f, src[p..p + f.dataSize])), stream.Now())
  {
    var b := SafeReadBool(src, p);
    ok := EncodeVarint(stream, if b then 1 else 0);
  }

  method EncVarint(stream: OStream, f: Field, src: array<byte>, p: nat) returns (ok: bool)
    requires Sound(stream.Now()) && stream.buf != src && p + f.dataSize <= src.Length
    requires WellFormedField(f) && f.ltype.Varint?
    modifies stream, stream.buf
    ensures stream.buf == old(stream.buf)
    ensures Emits(old(stream.Now()), ok, Some(EncodeScalar(f, src[p..p + f.dataSize])), stream.Now())
  {
    var value := Signed(FromLittleEndian(src[p..p + f.dataSize]), f.dataSize);
    ok := EncodeVarint(stream, Pattern(value, 8));
  }

  method EncUvarint(stream: OStream, f: Field, src: array<byte>, p: nat) returns (ok: bool)
    requires Sound(stream.Now()) && stream.buf != src && p + f.dataSize <= src.Length
    requires WellFormedField(f) && f.ltype.Uvarint?
    modifies stream, stream.buf
    ensures stream.buf == old(stream.buf)
    ensures Emits(old(stream.Now()), ok, Some(EncodeScalar(f, src[p..p + f.dataSize])), stream.Now())
  {
    ghost var n := Number(f, src[p..p + f.dataSize]);
    var value := FromLittleEndian(src[p..p + f.dataSize]);
    ok := EncodeVarint(stream, value);
  }

  method EncSvarint(stream: OStream, f: Field, src: array<byte>, p: nat) returns (ok: bool)
    requires Sound(stream.Now()) && stream.buf != src && p + f.dataSize <= src.Length
    requires WellFormedField(f) && f.ltype.Svarint?
    modifies stream, stream.buf
    ensures stream.buf == old(stream.buf)
    ensures Emits(old(stream.Now()), ok, Some(EncodeScalar(f, src[p..p + f.dataSize])), stream.Now())
  {
    PatternSigned(Number(f, src[p..p + f.dataSize]), f.dataSize);
    var value := Signed(FromLittleEndian(src[p..p + f.dataSize]), f.dataSize);
    ok := EncodeSvarint(stream, value);
  }

  method EncBytes(stream: OStream, f: Field, src: array<byte>, p: nat) returns (ok: bool)
    requires Sound(stream.Now()) && stream.buf != src && p + f.dataSize <= src.Length
    requires WellFormedField(f) && f.ltype.Bytes?
    modifies stream, stream.buf
    ensures stream.buf == old(stream.buf)
    ensures Emits(old(stream.Now()), ok, EncodeItem(f, src[p..p + f.dataSize]), stream.Now())
  {
    hide Emits, FromLittleEndian, Delimited;
    ghost var d := src[p..p + f.dataSize];
    SubSlice(d, src[..], p, 0, SIZE_BYTES);
    var size := FromLittleEndian(src[p..p + SIZE_BYTES]);
    var allocSize := size + SIZE_BYTES;
    if allocSize < size || allocSize > f.dataSize {
      EmitsNothing(stream.Now());
      return false;
    }
    SubSlice(d, src[..], p, SIZE_BYTES, SIZE_BYTES + size);
    ok := EncodeString(stream, src[p + SIZE_BYTES..p + SIZE_BYTES + size]);
  }

  method EncString(stream: OStream, f: Field, src: array<byte>, p: nat) returns (ok: bool)
    requires Sound(stream.Now()) && stream.buf != src && p + f.dataSize <= src.Length
    requires WellFormedField(f) && f.ltype.String?
    modifies stream, stream.buf
    ensures stream.buf == old(stream.buf)
    ensures Emits(old(stream.Now()), ok, EncodeItem(f, src[p..p + f.dataSize]), stream.Now())
  {
    hide Emits, StringLen, Delimited;
    ghost var d := src[p..p + f.dataSize];
    var size, q := 0, p;
    while size < f.dataSize && src[q] != 0
      invariant size <= f.dataSize && q == p + size
      invariant d == src[p..p + f.dataSize] && forall k :: 0 <= k < size ==> d[k] != 0
      invariant stream.buf == old(stream.buf) && stream.Now() == old(stream.Now())
    {
      size := size + 1;
      q := q + 1;
    }
    StringLenFound(d, size);
    SubSlice(d, src[..], p, 0, size);
    ok := EncodeString(stream, src[p..p + size]);
  }

  lemma SubSlice(d: seq<byte>, m: seq<byte>, p: nat, a: nat, b: nat)
    requires p + |d| <= |m| && d == m[p..p + |d|] && a <= b <= |d|
    ensures d[a..b] == m[p + a..p + b]
  {
    ReadRead(m, p, |d|, a, b - a);
    assert p + a + (b - a) == p + b && a + (b - a) == b;
  }

  lemma EmitsNothing(o: View)
    requires Sound(o)
    ensures Emits(o, false, None, o)
  {
  }

  lemma StringLenFound(d: seq<byte>, n: nat)
    requires n <= |d| && (n < |d| ==> d[n] == 0) && forall k :: 0 <= k < n ==> d[k] != 0
    ensures StringLen(d) == n
  {
  }

  method EncFixed(stream: OStream, f: Field, src: array<byte>, p: nat) returns (ok: bool)
    requires Sound(stream.Now()) && stream.buf != src && p + f.dataSize <= src.Length
    requires WellFormedField(f) && (f.ltype.Fixed32? || f.ltype.Fixed64?)
    modifies stream, stream.buf
    ensures stream.buf == old(stream.buf)
    ensures Emits(old(stream.Now()), ok, Some(EncodeScalar(f, src[p..p + f.dataSize])), stream.Now())
  {
    if f.ltype.Fixed32? {
      ok := EncodeFixed32(stream, src, p);
    } else {
      ok := EncodeFixed64(stream, src, p);
    }
  }

  /** The encoder of the value's type, PB_ENCODERS[ltype]. */
  method EncodeValue(stream: OStream, f: Field, src: array<byte>, p: nat) returns (ok: bool)
    requires Sound(stream.Now()) && stream.buf != src && p + f.dataSize <= src.Length
    requires WellFormedField(f) && MaxItem(f) < TWO64
    modifies stream, stream.buf
    ensures stream.buf == old(stream.buf)
    ensures Emits(old(stream.Now()), ok, EncodeItem(f, src[p..p + f.dataSize]), stream.Now())
    decreases f, 1
  {
    hide Emits, EncodeScalar, Delimited, StringLen, BytesLen, MaxItem, EncodeFrom;
    match f.ltype
    case Bool => ok := EncBool(stream, f, src, p);
    case Varint => ok := EncVarint(stream, f, src, p);
    case Uvarint => ok := EncUvarint(stream, f, src, p);
    case Svarint => ok := EncSvarint(stream, f, src, p);
    case Fixed32 => ok := EncFixed(stream, f, src, p);
    case Fixed64 => ok := EncFixed(stream, f, src, p);
    case Bytes => ok := EncBytes(stream, f, src, p);
    case String => ok := EncString(stream, f, src, p);
    case Submessage => ok := EncodeSubmessage(stream, f, src, p);
    case FixedLengthBytes => ok := EncodeString(stream, src[p..p + f.dataSize]);
  }

  /** pb_encode_submessage: a sizing pass, the length, and a writing pass limited to that length.
      That the second pass fills the limit exactly is part of the proof: the check for a changed
      size never fires. */
  method EncodeSubmessage(stream: OStream, f: Field, src: array<byte>, p: nat) returns (ok: bool)
    requires Sound(stream.Now()) && stream.buf != src && p + f.dataSize <= src.Length
    requires WellFormedField(f) && f.ltype.Submessage? && MaxItem(f) < TWO64
    modifies stream, stream.buf
    ensures stream.buf == old(stream.buf)
    ensures Emits(old(stream.Now()), ok, EncodeItem(f, src[p..p + f.dataSize]), stream.Now())
    decreases f, 0
  {
    hide Emits, WellFormed, EncodeFrom, VarintBytes, Sound, MaxFrom;
    var fields := f.ptr.fields;
    ghost var body := EncodeMessage(fields, src[p..p + f.dataSize]);
    ghost var o := stream.Now();
    EmitsEmpty(o);
    FreshSizing();
    var substream := new OStream.Sizing();
    ghost var s := substream.Now();
    var status := Encode(substream, fields, src, p, f.dataSize);
    Measured(s, status, body, substream.Now());
    if !status {
      EmitsNothing(o);
      return false;
    }
    var size := substream.bytesWritten;
    FromBound(fields, src[p..p + f.dataSize], 0);
    ok := EncodeVarint(stream, size);
    ghost var o1 := stream.Now();
    EmitsSound(o, ok, Some(VarintBytes(size)), o1);
    if !ok {
      EmitsFailure(o, Some(VarintBytes(size)), o1, body);
      return;
    }
    if stream.buf == null {
      ok := stream.Count(size);
      EmitsConcat(o, Some(VarintBytes(size)), o1, ok, body, stream.Now());
      return;
    }
    ok := WriteLimited(stream, fields, src, p, f.dataSize, size);
    EmitsConcat(o, Some(VarintBytes(size)), o1, ok, body, stream.Now());
  }

  /** The writing pass of pb_encode_submessage. */
  method WriteLimited(stream: OStream, fields: seq<Field>, src: array<byte>, p: nat, ghost structSize: nat, size: nat)
    returns (ok: bool)
    requires Sound(stream.Now()) && stream.buf != null && stream.buf != src && p + structSize <= src.Length
    requires WellFormed(fields, structSize) && Bounded(fields)
    requires EncodeMessage(fields, src[p..p + structSize]).Some?
    requires size == |EncodeMessage(fields, src[p..p + structSize]).value|
    modifies stream, stream.buf
    ensures stream.buf == old(stream.buf)
    ensures Emits(old(stream.Now()), ok, EncodeMessage(fields, src[p..p + structSize]), stream.Now())
    decreases fields, |fields| + 2
  {
    hide Emits, WellFormed, EncodeFrom;
    ghost var body := EncodeMessage(fields, src[p..p + structSize]);
    ghost var o := stream.Now();
    if stream.bytesWritten + size > stream.maxSize {
      EmitsNoRoom(o, body);
      return false;
    }
    var substream := new OStream.Limited(stream, size);
    ghost var s := substream.Now();
    var status := Encode(substream, fields, src, p, structSize);
    EmitsThrough(o, s, status, body, substream.Now());
    stream.bytesWritten := stream.bytesWritten + substream.bytesWritten;
    stream.state := substream.state;
    ok := status && substream.bytesWritten == size;
  }

  lemma FreshSizing()
    ensures Sound(View(true, [], 0, 0, 0))
  {
  }

  lemma Measured(o: View, ok: bool, b: Option<seq<byte>>, o': View)
    requires o.sizing && o.written == 0 && Emits(o, ok, b, o')
    ensures ok <==> b.Some?
    ensures ok ==> o'.written == |b.value|
  {
  }

  lemma EmitsSound(o: View, ok: bool, b: Option<seq<byte>>, o': View)
    requires Emits(o, ok, b, o')
    ensures Sound(o') && o'.sizing == o.sizing && o'.maxSize == o.maxSize && |o'.mem| == |o.mem|
  {
  }

  lemma EmitsNoRoom(o: View, body: Option<seq<byte>>)
    requires Sound(o) && body.Some? && !o.sizing && o.written + |body.value| > o.maxSize
    ensures Emits(o, false, body, o)
  {
  }

  /** Writing through a substream limited to the exact size is writing to the parent. */
  lemma EmitsThrough(o: View, s: View, ok: bool, body: Option<seq<byte>>, s': View)
    requires Sound(o) && !o.sizing && body.Some? && o.written + |body.value| <= o.maxSize
    requires s == View(false, o.mem, o.state, |body.value|, 0) && Emits(s, ok, body, s')
    ensures ok && s'.written == |body.value|
    ensures Emits(o, true, body, View(false, s'.mem, s'.state, o.maxSize, o.written + s'.written))
  {
  }

  // ---- Arrays ----

  lemma {:induction false} PackedSplit(f: Field, data: seq<byte>, k: nat, j: nat, count: nat)
    requires WellFormedField(f) && f.ltype.Packable() && |data| == f.dataSize * f.arraySize
    requires k <= j <= count <= f.arraySize
    ensures PackedFrom(f, data, k, count) == PackedFrom(f, data, k, j) + PackedFrom(f, data, j, count)
    decreases j - k
  {
    hide EncodeScalar, WellFormedField, ItemAt;
    if k < j {
      PackedSplit(f, data, k + 1, j, count);
    }
  }

  lemma PackedOne(f: Field, data: seq<byte>, j: nat)
    requires WellFormedField(f) && f.ltype.Packable() && |data| == f.dataSize * f.arraySize && j < f.arraySize
    ensures PackedFrom(f, data, j, j + 1) == EncodeScalar(f, ItemAt(f, data, j))
  {
    hide EncodeScalar, WellFormedField;
    assert PackedFrom(f, data, j + 1, j + 1) == [];
  }

  lemma {:induction false} PackedFixedSize(f: Field, data: seq<byte>, k: nat, count: nat)
    requires WellFormedField(f) && (f.ltype.Fixed32? || f.ltype.Fixed64?) && |data| == f.dataSize * f.arraySize
    requires k <= count <= f.arraySize
    ensures |PackedFrom(f, data, k, count)| == f.dataSize * (count - k)
    decreases count - k
  {
    hide EncodeScalar, WellFormedField, ItemAt;
    if k < count {
      FixedScalarSize(f, ItemAt(f, data, k));
      PackedFixedSize(f, data, k + 1, count);
      MulDistribute(f.dataSize, count - k - 1, 1);
    }
  }

  lemma FixedScalarSize(f: Field, d: seq<byte>)
    requires ItemFor(f, d) && (f.ltype.Fixed32? || f.ltype.Fixed64?)
    ensures |EncodeScalar(f, d)| == f.dataSize
  {
    hide Number;
  }

  lemma {:induction false} ItemsSplit(f: Field, data: seq<byte>, k: nat, j: nat, count: nat)
    requires WellFormedField(f) && |data| == f.dataSize * f.arraySize && k <= j <= count <= f.arraySize
    ensures EncodeItems(f, data, k, count) == Concat(EncodeItems(f, data, k, j), EncodeItems(f, data, j, count))
    decreases j - k
  {
    hide EncodeRecord, WellFormedField, ItemAt;
    if k < j {
      ItemsSplit(f, data, k + 1, j, count);
      ConcatAssoc(EncodeRecord(f, ItemAt(f, data, k)), EncodeItems(f, data, k + 1, j), EncodeItems(f, data, j, count));
    } else {
      ConcatNothing(EncodeItems(f, data, j, count));
    }
  }

  lemma ConcatAssoc(a: Option<seq<byte>>, b: Option<seq<byte>>, c: Option<seq<byte>>)
    ensures Concat(Concat(a, b), c) == Concat(a, Concat(b, c))
  {
    if a.Some? && b.Some? && c.Some? {
      assert a.value + b.value + c.value == a.value + (b.value + c.value);
    }
  }

  lemma ConcatNothing(a: Option<seq<byte>>)
    ensures Concat(Some([]), a) == a == Concat(a, Some([]))
  {
    if a.Some? {
      assert [] + a.value == a.value == a.value + [];
    }
  }

  lemma EmitsEmpty(o: View)
    requires Sound(o)
    ensures Emits(o, true, Some([]), o)
  {
    assert !o.sizing ==> o.mem[o.state..o.state] == [];
  }

  /** Entry i of an array whose data starts at p. */
  lemma ItemPointer(f: Field, m: Memory, p: nat, i: nat)
    requires i < f.arraySize && p + f.dataSize * f.arraySize <= |m| && f.dataSize * f.arraySize >= 0
    ensures 0 <= f.dataSize * i && p + f.dataSize * i + f.dataSize <= |m|
    ensures ItemAt(f, Read(m, p, f.dataSize * f.arraySize), i) == Read(m, p + f.dataSize * i, f.dataSize)
    ensures f.dataSize * (i + 1) == f.dataSize * i + f.dataSize
  {
    ItemInside(f, i);
    MulDistribute(f.dataSize, i, 1);
    ReadRead(m, p, f.dataSize * f.arraySize, f.dataSize * i, f.dataSize);
  }

  ghost predicate ArrayAt(f: Field, src: array<byte>, p: nat) {
    && WellFormedField(f) && f.htype.Repeated? && p + DataLen(f) <= src.Length
    && MaxItem(f) < TWO64
  }

  /** The sizing loop of encode_array. */
  method MeasurePacked(f: Field, src: array<byte>, p: nat, count: nat) returns (size: nat)
    requires ArrayAt(f, src, p) && f.ltype.Packable() && count <= f.arraySize
    ensures size == |PackedFrom(f, src[p..p + DataLen(f)], 0, count)|
    decreases f, 2
  {
    hide WellFormedField, EncodeScalar, MaxItem, PackedFrom;
    ghost var data := src[p..p + DataLen(f)];
    var sizestream := new OStream.Sizing();
    ghost var o := sizestream.Now();
    var i, q := 0, p;
    PackedNone(f, data, 0);
    EmitsEmpty(o);
    assert f.dataSize * 0 == 0;
    while i < count
      invariant i <= count && q == p + f.dataSize * i && fresh(sizestream) && sizestream.buf == null
      invariant data == src[p..p + DataLen(f)] == Read(src[..], p, DataLen(f))
      invariant Emits(o, true, Some(PackedFrom(f, data, 0, i)), sizestream.Now())
    {
      ItemPointer(f, src[..], p, i);
      ghost var o1 := sizestream.Now();
      var ok := EncodeValue(sizestream, f, src, q);
      PackedStep(f, data, o, o1, ok, i, count, sizestream.Now());
      SizingNeverFull(o1, ok, EncodeScalar(f, ItemAt(f, data, i)), sizestream.Now());
      q := q + f.dataSize;
      i := i + 1;
    }
    Measured(o, true, Some(PackedFrom(f, data, 0, count)), sizestream.Now());
    size := sizestream.bytesWritten;
  }

  lemma PackedNone(f: Field, data: seq<byte>, k: nat)
    requires WellFormedField(f) && f.ltype.Packable() && |data| == f.dataSize * f.arraySize && k <= f.arraySize
    ensures PackedFrom(f, data, k, k) == []
  {
  }

  lemma SizingNeverFull(o: View, ok: bool, b: seq<byte>, o': View)
    requires o.sizing && Emits(o, ok, Some(b), o')
    ensures ok
  {
  }

  /** Emitting entry i after the entries before it. */
  lemma PackedStep(f: Field, data: seq<byte>, o: View, o1: View, ok: bool, i: nat, count: nat, o2: View)
    requires WellFormedField(f) && f.ltype.Packable() && |data| == f.dataSize * f.arraySize && i < count <= f.arraySize
    requires Sound(o) && Emits(o, true, Some(PackedFrom(f, data, 0, i)), o1)
    requires Emits(o1, ok, EncodeItem(f, ItemAt(f, data, i)), o2)
    ensures Emits(o1, ok, Some(EncodeScalar(f, ItemAt(f, data, i))), o2)
    ensures Emits(o, ok, Some(PackedFrom(f, data, 0, i + 1)), o2)
    ensures !ok ==> Emits(o, false, Some(PackedFrom(f, data, 0, count)), o2)
  {
    var b := EncodeScalar(f, ItemAt(f, data, i));
    assert EncodeItem(f, ItemAt(f, data, i)) == Some(b);
    hide WellFormedField, EncodeScalar, EncodeItem, PackedFrom, Emits;
    PackedSplit(f, data, 0, i, i + 1);
    PackedOne(f, data, i);
    EmitsConcat(o, Some(PackedFrom(f, data, 0, i)), o1, ok, Some(b), o2);
    if !ok {
      PackedSplit(f, data, 0, i + 1, count);
      EmitsFailure(o, Some(PackedFrom(f, data, 0, i + 1)), o2, Some(PackedFrom(f, data, i + 1, count)));
    }
  }

  /** The writing loop of a packed array. */
  method WritePacked(stream: OStream, f: Field, src: array<byte>, p: nat, count: nat) returns (ok: bool)
    requires Sound(stream.Now()) && stream.buf != src
    requires ArrayAt(f, src, p) && f.ltype.Packable() && count <= f.arraySize
    modifies stream, stream.buf
    ensures stream.buf == old(stream.buf)
    ensures Emits(old(stream.Now()), ok, Some(PackedFrom(f, src[p..p + DataLen(f)], 0, count)), stream.Now())
    decreases f, 2
  {
    hide WellFormedField, EncodeScalar, MaxItem, PackedFrom, Emits;
    ghost var data := src[p..p + DataLen(f)];
    ghost var o := stream.Now();
    var i, q := 0, p;
    PackedNone(f, data, 0);
    EmitsEmpty(o);
    assert f.dataSize * 0 == 0;
    while i < count
      invariant i <= count && q == p + f.dataSize * i && stream.buf == old(stream.buf) && Sound(stream.Now())
      invariant data == src[p..p + DataLen(f)] == Read(src[..], p, DataLen(f))
      invariant Emits(o, true, Some(PackedFrom(f, data, 0, i)), stream.Now())
    {
      ItemPointer(f, src[..], p, i);
      ghost var o1 := stream.Now();
      ok := EncodeValue(stream, f, src, q);
      PackedStep(f, data, o, o1, ok, i, count, stream.Now());
      EmitsSound(o, ok, Some(PackedFrom(f, data, 0, i + 1)), stream.Now());
      if !ok {
        return;
      }
      q := q + f.dataSize;
      i := i + 1;
    }
    ok := true;
  }

  /** The loop of an unpacked array: a key and a value for each entry. */
  method WriteItems(stream: OStream, f: Field, src: array<byte>, p: nat, count: nat) returns (ok: bool)
    requires Sound(stream.Now()) && stream.buf != src && ArrayAt(f, src, p) && count <= f.arraySize
    modifies stream, stream.buf
    ensures stream.buf == old(stream.buf)
    ensures Emits(old(stream.Now()), ok, EncodeItems(f, src[p..p + DataLen(f)], 0, count), stream.Now())
    decreases f, 3
  {
    hide WellFormedField, EncodeRecord, MaxItem, EncodeItems, Emits;
    ghost var data := src[p..p + DataLen(f)];
    ghost var o := stream.Now();
    var i, q := 0, p;
    ItemsNone(f, data, 0);
    EmitsEmpty(o);
    assert f.dataSize * 0 == 0;
    while i < count
      invariant i <= count && q == p + f.dataSize * i && stream.buf == old(stream.buf) && Sound(stream.Now())
      invariant data == src[p..p + DataLen(f)] == Read(src[..], p, DataLen(f))
      invariant Emits(o, true, EncodeItems(f, data, 0, i), stream.Now())
    {
      ItemPointer(f, src[..], p, i);
      ghost var o1 := stream.Now();
      ok := WriteRecord(stream, f, src, q);
      ItemsStep(f, data, o, o1, ok, i, count, stream.Now());
      EmitsSound(o, ok, EncodeItems(f, data, 0, i + 1), stream.Now());
      if !ok {
        return;
      }
      q := q + f.dataSize;
      i := i + 1;
    }
    ok := true;
  }

  lemma ItemsNone(f: Field, data: seq<byte>, k: nat)
    requires WellFormedField(f) && |data| == f.dataSize * f.arraySize && k <= f.arraySize
    ensures EncodeItems(f, data, k, k) == Some([])
  {
  }

  lemma ItemsStep(f: Field, data: seq<byte>, o: View, o1: View, ok: bool, i: nat, count: nat, o2: View)
    requires WellFormedField(f) && |data| == f.dataSize * f.arraySize && i < count <= f.arraySize
    requires Sound(o) && Emits(o, true, EncodeItems(f, data, 0, i), o1)
    requires Emits(o1, ok, EncodeRecord(f, ItemAt(f, data, i)), o2)
    ensures Emits(o, ok, EncodeItems(f, data, 0, i + 1), o2)
    ensures !ok ==> Emits(o, false, EncodeItems(f, data, 0, count), o2)
  {
    var b := EncodeRecord(f, ItemAt(f, data, i));
    assert EncodeItems(f, data, i, i + 1) == b by {
      ItemsNone(f, data, i + 1);
      ConcatNothing(b);
    }
    hide WellFormedField, EncodeRecord, EncodeItems, Emits;
    ItemsSplit(f, data, 0, i, i + 1);
    EmitsConcat(o, EncodeItems(f, data, 0, i), o1, ok, b, o2);
    if !ok {
      ItemsSplit(f, data, 0, i + 1, count);
      EmitsFailure(o, EncodeItems(f, data, 0, i + 1), o2, EncodeItems(f, data, i + 1, count));
    }
  }

  /** pb_encode_tag_for_field, then the value. */
  method WriteRecord(stream: OStream, f: Field, src: array<byte>, p: nat) returns (ok: bool)
    requires Sound(stream.Now()) && stream.buf != src && p + f.dataSize <= src.Length
    requires WellFormedField(f) && MaxItem(f) < TWO64
    modifies stream, stream.buf
    ensures stream.buf == old(stream.buf)
    ensures Emits(old(stream.Now()), ok, EncodeRecord(f, src[p..p + f.dataSize]), stream.Now())
    decreases f, 2
  {
    hide WellFormedField, MaxItem, EncodeItem, Emits, FieldKey;
    ghost var item := EncodeItem(f, src[p..p + f.dataSize]);
    ghost var o := stream.Now();
    ok := EncodeTagForField(stream, f);
    ghost var o1 := stream.Now();
    EmitsSound(o, ok, Some(FieldKey(f)), o1);
    if !ok {
      EmitsFailure(o, Some(FieldKey(f)), o1, item);
      return;
    }
    ok := EncodeValue(stream, f, src, p);
    EmitsConcat(o, Some(FieldKey(f)), o1, ok, item, stream.Now());
  }

  /** encode_array. */
  method EncodeArrayField(stream: OStream, f: Field, src: array<byte>, p: nat, count: nat) returns (ok: bool)
    requires Sound(stream.Now()) && stream.buf != src && p + DataLen(f) <= src.Length
    requires WellFormedField(f) && f.htype.Repeated? && MaxField(f) < TWO64
    modifies stream, stream.buf
    ensures stream.buf == old(stream.buf)
    ensures Emits(old(stream.Now()), ok, EncodeArray(f, src[p..p + DataLen(f)], count), stream.Now())
    decreases f, 5
  {
    ghost var data := src[p..p + DataLen(f)];
    if count == 0 {
      EmitsEmpty(stream.Now());
      return true;
    }
    if count > f.arraySize {
      EmitsNothing(stream.Now());
      return false;
    }
    FieldBoundsItem(f);
    hide WellFormedField, MaxItem, MaxField, Emits, PackedFrom, EncodeItems;
    if f.ltype.Packable() {
      ok := EncodePackedField(stream, f, src, p, count);
    } else {
      ok := WriteItems(stream, f, src, p, count);
    }
  }

  /** The packed case of encode_array: key, total size, then the values. */
  method EncodePackedField(stream: OStream, f: Field, src: array<byte>, p: nat, count: nat) returns (ok: bool)
    requires Sound(stream.Now()) && stream.buf != src
    requires ArrayAt(f, src, p) && f.ltype.Packable() && count <= f.arraySize
    modifies stream, stream.buf
    ensures stream.buf == old(stream.buf)
    ensures Emits(old(stream.Now()), ok,
                  Some(KeyBytes(f.tag, STRING) + Delimited(PackedFrom(f, src[p..p + DataLen(f)], 0, count))),
                   stream.Now())
    decreases f, 4
  {
    ghost var data := src[p..p + DataLen(f)];
    ghost var payload := PackedFrom(f, data, 0, count);
    ghost var key := KeyBytes(f.tag, STRING);
    PackedSizeFits(f, data, count);
    assert f.ltype.Fixed32? || f.ltype.Fixed64? ==> |payload| == f.dataSize * count by {
      if f.ltype.Fixed32? || f.ltype.Fixed64? {
        PackedFixedSize(f, data, 0, count);
      }
    }
    assert f.tag <= MAX_TAG && (f.ltype.Fixed32? ==> f.dataSize == 4) && (f.ltype.Fixed64? ==> f.dataSize == 8);
    hide WellFormedField, MaxItem, Emits, PackedFrom, KeyBytes, VarintBytes;
    ghost var o := stream.Now();
    ok := EncodeTag(stream, STRING, f.tag);
    ghost var o1 := stream.Now();
    EmitsSound(o, ok, Some(key), o1);
    if !ok {
      EmitsFailure(o, Some(key), o1, Some(Delimited(payload)));
      return;
    }
    var size;
    if f.ltype.Fixed32? {
      size := 4 * count;
    } else if f.ltype.Fixed64? {
      size := 8 * count;
    } else {
      size := MeasurePacked(f, src, p, count);
    }
    ok := WriteSized(stream, f, src, p, count, size);
    EmitsConcat(o, Some(key), o1, ok, Some(Delimited(payload)), stream.Now());
  }

  lemma PackedSizeFits(f: Field, data: seq<byte>, count: nat)
    requires WellFormedField(f) && f.ltype.Packable() && |data| == f.dataSize * f.arraySize && count <= f.arraySize
    ensures |PackedFrom(f, data, 0, count)| < TWO64
  {
    PackedBound(f, data, 0, count);
  }

  /** The size of a packed array and then its values, or on a sizing stream only their number. */
  method WriteSized(stream: OStream, f: Field, src: array<byte>, p: nat, count: nat, size: nat) returns (ok: bool)
    requires Sound(stream.Now()) && stream.buf != src
    requires ArrayAt(f, src, p) && f.ltype.Packable() && count <= f.arraySize
    requires size == |PackedFrom(f, src[p..p + DataLen(f)], 0, count)| < TWO64
    modifies stream, stream.buf
    ensures stream.buf == old(stream.buf)
    ensures Emits(old(stream.Now()), ok, Some(Delimited(PackedFrom(f, src[p..p + DataLen(f)], 0, count))), stream.Now())
    decreases f, 3
  {
    hide WellFormedField, MaxItem, Emits, PackedFrom, VarintBytes;
    ghost var payload := PackedFrom(f, src[p..p + DataLen(f)], 0, count);
    ghost var o := stream.Now();
    ok := EncodeVarint(stream, size);
    ghost var o1 := stream.Now();
    EmitsSound(o, ok, Some(VarintBytes(size)), o1);
    if !ok {
      EmitsFailure(o, Some(VarintBytes(size)), o1, Some(payload));
      return;
    }
    if stream.buf == null {
      ok := stream.Count(size);
    } else {
      ok := WritePacked(stream, f, src, p, count);
    }
    EmitsConcat(o, Some(VarintBytes(size)), o1, ok, Some(payload), stream.Now());
  }

  // ---- Fields ----

  /** pb_check_proto3_default_value. */
  method CheckProto3Default(f: Field, src: array<byte>, p: nat) returns (isDefault: bool)
    requires WellFormedField(f) && CellsAt(f, p, src.Length)
    ensures isDefault == IsDefault(f, SlotAt(src[..], f, p))
    decreases f, 1
  {
    ghost var s := SlotAt(src[..], f, p);
    match f.htype
    case Required => return false;
    case Repeated =>
      if f.sizeOffset != 0 {
        return FromLittleEndian(src[p + f.sizeOffset..p + f.sizeOffset + SIZE_BYTES]) == 0;
      }
      return false;
    case Oneof =>
      return FromLittleEndian(src[p + f.sizeOffset..p + f.sizeOffset + SIZE_BYTES]) == 0;
    case Optional =>
      if f.sizeOffset != 0 {
        var has := SafeReadBool(src, p + f.sizeOffset);
        OneByte(src[p + f.sizeOffset..p + f.sizeOffset + 1]);
        return !has;
      }
      isDefault := CheckImplicitDefault(f, src, p);
  }

  lemma OneByte(s: seq<byte>)
    requires |s| == 1
    ensures FromLittleEndian(s) == s[0]
  {
    assert s[1..] == [];
  }

  /** The value comparisons of pb_check_proto3_default_value for a proto3 singular field. */
  method CheckImplicitDefault(f: Field, src: array<byte>, p: nat) returns (isDefault: bool)
    requires WellFormedField(f) && Implicit(f) && p + f.dataSize <= src.Length
    ensures isDefault == IsDefault(f, Slot(0, src[p..p + f.dataSize]))
    decreases f, 0
  {
    ghost var d := src[p..p + f.dataSize];
    if f.ltype.Bytes? {
      SubSlice(d, src[..], p, 0, SIZE_BYTES);
      return FromLittleEndian(src[p..p + SIZE_BYTES]) == 0;
    } else if f.ltype.String? {
      assert d[0] == src[p];
      return src[p] == 0;
    } else if f.ltype.FixedLengthBytes? {
      return f.dataSize == 0;
    } else if f.ltype.Submessage? {
      isDefault := CheckMessageDefault(f.ptr.fields, src, p, f.dataSize);
      return;
    }
    ScalarDefault(f, d);
    isDefault := AllBytesZero(src, p, f.dataSize, d);
  }

  /** The byte loop over the value of a scalar. */
  method AllBytesZero(src: array<byte>, p: nat, size: nat, ghost d: seq<byte>) returns (zero: bool)
    requires p + size <= src.Length && d == src[p..p + size]
    ensures zero <==> forall k :: 0 <= k < |d| ==> d[k] == 0
  {
    var i := 0;
    while i < size
      invariant i <= size && d == src[p..p + size]
      invariant forall k :: 0 <= k < i ==> d[k] == 0
    {
      if src[p + i] != 0 {
        assert d[i] != 0;
        return false;
      }
      i := i + 1;
    }
    zero := true;
  }

  lemma ScalarDefault(f: Field, d: seq<byte>)
    requires ItemFor(f, d) && Implicit(f) && f.ltype.Packable()
    ensures IsDefault(f, Slot(0, d)) <==> forall k :: 0 <= k < |d| ==> d[k] == 0
  {
  }

  /** The field loop of pb_check_proto3_default_value on a submessage. */
  method CheckMessageDefault(fields: seq<Field>, src: array<byte>, p: nat, ghost size: nat) returns (isDefault: bool)
    requires WellFormed(fields, size) && p + size <= src.Length
    ensures isDefault == AllDefault(fields, src[p..p + size], 0)
    decreases fields
  {
    hide IsDefault, WellFormed, GetSlot, AllDefault, PData, PSize, RequiredBefore, SlotAt, CellsAt, WellFormedField,
      Read;
    ghost var m := src[p..p + size];
    ReadSlice(src, p, size);
    var iter := new FieldIter();
    TagsNonzero(fields, size);
    var more := iter.Begin(fields, p);
    while more
      invariant iter.Valid() && iter.start == fields && iter.destStruct == p && fresh(iter)
      invariant more ==> iter.pos < |fields|
      invariant m == Read(src[..], p, size)
      invariant AllDefault(fields, m, 0) == AllDefault(fields, m, if more then iter.pos else |fields|)
      decreases if more then |fields| - iter.pos else 0
    {
      SlotAtEntry(fields, iter.pos, src[..], p, size);
      FieldOf(fields, size, iter.pos);
      AllDefaultStep(fields, m, iter.pos);
      var d := CheckProto3Default(iter.start[iter.pos], src, iter.pData);
      if !d {
        return false;
      }
      more := iter.Next();
    }
    AllDefaultEnd(fields, m);
    isDefault := true;
  }

  lemma AllDefaultStep(fields: seq<Field>, m: Memory, i: nat)
    requires WellFormed(fields, |m|) && i < |fields| && SlotFor(fields[i], GetSlot(fields, i, m))
    ensures AllDefault(fields, m, i) == (IsDefault(fields[i], GetSlot(fields, i, m)) && AllDefault(fields, m, i + 1))
  {
  }

  lemma AllDefaultEnd(fields: seq<Field>, m: Memory)
    requires WellFormed(fields, |m|)
    ensures AllDefault(fields, m, |fields|)
  {
  }

  /** The part of encode_basic_field that decides whether a field that is not repeated is sent. */
  method IsPresent(f: Field, src: array<byte>, p: nat) returns (send: bool)
    requires WellFormedField(f) && !f.htype.Repeated? && CellsAt(f, p, src.Length)
    ensures send == Present(f, SlotAt(src[..], f, p))
    decreases f, 2
  {
    hide IsDefault;
    var implicitHas := true;
    if f.sizeOffset == 0 && f.htype.Optional? {
      var d := CheckProto3Default(f, src, p);
      implicitHas := !d;
    }
    match f.htype
    case Required => send := true;
    case Optional =>
      send := implicitHas;
      if f.sizeOffset != 0 {
        send := SafeReadBool(src, p + f.sizeOffset);
        OneByte(src[p + f.sizeOffset..p + f.sizeOffset + 1]);
      }
    case Oneof =>
      send := FromLittleEndian(src[p + f.sizeOffset..p + f.sizeOffset + SIZE_BYTES]) == f.tag;
  }

  /** The number of entries encode_basic_field passes to encode_array. */
  method ReadCount(f: Field, src: array<byte>, p: nat) returns (count: nat)
    requires f.htype.Repeated? && CellsAt(f, p, src.Length)
    ensures count == CountOf(f, SlotAt(src[..], f, p))
  {
    hide FromLittleEndian, DataLen;
    count := f.arraySize;
    if f.sizeOffset != 0 {
      count := FromLittleEndian(src[p + f.sizeOffset..p + f.sizeOffset + SIZE_BYTES]);
    }
  }

  /** encode_basic_field. */
  method EncodeBasicField(stream: OStream, f: Field, src: array<byte>, p: nat) returns (ok: bool)
    requires Sound(stream.Now()) && stream.buf != src
    requires WellFormedField(f) && CellsAt(f, p, src.Length) && MaxField(f) < TWO64
    modifies stream, stream.buf
    ensures stream.buf == old(stream.buf)
    ensures Emits(old(stream.Now()), ok, EncodeSlot(f, SlotAt(src[..], f, p)), stream.Now())
    decreases f, 6
  {
    BasicFacts(f);
    hide Emits, EncodeRecord, EncodeArray, MaxField, MaxItem, Present, CountOf, WellFormedField, Sound, Read,
      SizeLen, FromLittleEndian;
    ReadSlice(src, p, DataLen(f));
    if f.htype.Repeated? {
      var count := ReadCount(f, src, p);
      ok := EncodeArrayField(stream, f, src, p, count);
      return;
    }
    var send := IsPresent(f, src, p);
    if send {
      ok := WriteRecord(stream, f, src, p);
    } else {
      EmitsEmpty(stream.Now());
      ok := true;
    }
  }

  lemma BasicFacts(f: Field)
    requires WellFormedField(f) && MaxField(f) < TWO64
    ensures f.htype.Oneof? ==> f.sizeOffset != 0
    ensures !f.htype.Repeated? ==> MaxItem(f) < TWO64 && DataLen(f) == f.dataSize
  {
    if !f.htype.Repeated? {
      FieldBoundsItem(f);
    }
  }

  // ---- Messages ----

  /** pb_encode. On a buffer it succeeds exactly if the whole encoding fits, and then has written
      exactly the encoding. */
  method Encode(stream: OStream, fields: seq<Field>, src: array<byte>, base: nat, ghost size: nat) returns (ok: bool)
    requires Sound(stream.Now()) && stream.buf != src && base + size <= src.Length
    requires WellFormed(fields, size) && Bounded(fields)
    modifies stream, stream.buf
    ensures stream.buf == old(stream.buf)
    ensures Emits(old(stream.Now()), ok, EncodeMessage(fields, src[base..base + size]), stream.Now())
    decreases fields, |fields| + 1
  {
    hide Emits, EncodeSlot, MaxField, WellFormed, EncodeFrom, MaxFrom, GetSlot, SlotAt, CellsAt, Concat, Sound,
      PSize, RequiredBefore, WellFormedField;
    ghost var m := src[base..base + size];
    ghost var o := stream.Now();
    ghost var done: seq<byte> := [];
    EmitsEmpty(o);
    var iter := new FieldIter();
    TagsNonzero(fields, size);
    var more := iter.Begin(fields, base);
    ConcatNothing(EncodeFrom(fields, m, 0));
    EncodeEnd(fields, m);
    while more
      invariant iter.Valid() && iter.start == fields && iter.destStruct == base && fresh(iter)
      invariant more ==> iter.pos < |fields|
      invariant stream.buf == old(stream.buf) && Sound(stream.Now())
      invariant m == src[base..base + size] == Read(src[..], base, size)
      invariant Emits(o, true, Some(done), stream.Now())
      invariant EncodeMessage(fields, m)
          == Concat(Some(done), EncodeFrom(fields, m, if more then iter.pos else |fields|))
      decreases if more then |fields| - iter.pos else 0
    {
      var i := iter.pos;
      SlotAtEntry(fields, i, src[..], base, size);
      FieldOf(fields, size, i);
      TableBoundsField(fields, 0, i);
      ghost var o1 := stream.Now();
      ok := EncodeBasicField(stream, fields[i], src, iter.pData);
      MessageStep(fields, m, i, done, o, o1, ok, stream.Now());
      if !ok {
        return;
      }
      done := done + EncodeSlot(fields[i], GetSlot(fields, i, m)).value;
      more := iter.Next();
    }
    ConcatNothing(Some(done));
    ok := true;
  }

  lemma EncodeEnd(fields: seq<Field>, m: Memory)
    requires WellFormed(fields, |m|)
    ensures EncodeFrom(fields, m, |fields|) == Some([])
  {
  }

  /** Emitting entry i after the entries before it. */
  lemma MessageStep(fields: seq<Field>, m: Memory, i: nat, done: seq<byte>, o: View, o1: View, ok: bool, o2: View)
    requires WellFormed(fields, |m|) && i < |fields| && SlotFor(fields[i], GetSlot(fields, i, m))
    requires Sound(o) && Emits(o, true, Some(done), o1)
    requires Emits(o1, ok, EncodeSlot(fields[i], GetSlot(fields, i, m)), o2)
    requires EncodeMessage(fields, m) == Concat(Some(done), EncodeFrom(fields, m, i))
    ensures Sound(o2)
    ensures !ok ==> Emits(o, false, EncodeMessage(fields, m), o2)
    ensures ok ==> EncodeSlot(fields[i], GetSlot(fields, i, m)).Some?
    ensures ok ==> Emits(o, true, Some(done + EncodeSlot(fields[i], GetSlot(fields, i, m)).value), o2)
    ensures ok
        ==> EncodeMessage(fields, m)
            == Concat(Some(done + EncodeSlot(fields[i], GetSlot(fields, i, m)).value), EncodeFrom(fields, m, i + 1))
  {
    var b, rest := EncodeSlot(fields[i], GetSlot(fields, i, m)), EncodeFrom(fields, m, i + 1);
    assert EncodeFrom(fields, m, i) == Concat(b, rest);
    hide Emits, EncodeSlot, EncodeFrom, WellFormed;
    EmitsConcat(o, Some(done), o1, ok, b, o2);
    EmitsSound(o, ok, Concat(Some(done), b), o2);
    ConcatAssoc(Some(done), b, rest);
    if ok {
      EmitsSome(o, Concat(Some(done), b), o2);
    } else {
      EmitsFailure(o, Concat(Some(done), b), o2, rest);
    }
  }

  lemma EmitsSome(o: View, b: Option<seq<byte>>, o': View)
    requires Emits(o, true, b, o')
    ensures b.Some?
  {
  }

  /** pb_get_encoded_size. */
  method GetEncodedSize(fields: seq<Field>, src: array<byte>, base: nat, ghost structSize: nat)
    returns (ok: bool, size: nat)
    requires base + structSize <= src.Length && WellFormed(fields, structSize) && Bounded(fields)
    ensures ok <==> EncodeMessage(fields, src[base..base + structSize]).Some?
    ensures ok ==> size == |EncodeMessage(fields, src[base..base + structSize]).value|
  {
    var stream := new OStream.Sizing();
    ghost var o := stream.Now();
    size := 0;
    ok := Encode(stream, fields, src, base, structSize);
    Measured(o, ok, EncodeMessage(fields, src[base..base + structSize]), stream.Now());
    if ok {
      size := stream.bytesWritten;
    }
  }

  /** The intended use: pb_encode into a stream made from a buffer. It succeeds exactly if the
      encoding fits, then the buffer starts with exactly the encoding and the rest is untouched. */
  method EncodeToBuffer(buf: array<byte>, fields: seq<Field>, src: array<byte>, ghost size: nat)
    returns (ok: bool, written: nat)
    requires buf != src && size <= src.Length && WellFormed(fields, size) && Bounded(fields)
    modifies buf
    ensures ok <==> EncodeMessage(fields, src[..size]).Some? && |EncodeMessage(fields, src[..size]).value| <= buf.Length
    ensures ok ==> written == |EncodeMessage(fields, src[..size]).value|
    ensures ok ==> buf[..] == EncodeMessage(fields, src[..size]).value + old(buf[written..])
  {
    hide EncodeFrom, WellFormed;
    ghost var before := buf[..];
    var stream := new OStream.FromBuffer(buf);
    ghost var o := stream.Now();
    ok := Encode(stream, fields, src, 0, size);
    assert src[0..0 + size] == src[..size];
    written := stream.bytesWritten;
    if ok {
      assert buf[..] == buf[..written] + buf[written..];
    }
  }
}
