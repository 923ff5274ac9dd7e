/** The value decoders of pb_decode.c below submessages: each stores what module Decoding says into
    struct memory and leaves the stream where Decoding says. */
module ValueDecoder {
  import opened Bits
  import opened Integers
  import opened Wire
  import opened Descriptor
  import opened StructMemory
  import opened Encoding
  import opened Decoding
  import opened InputStream

  /** The decoder answered ok and left the struct memory m0 as m with `unread` still to come: the
      specified bytes stand at p, nothing else changed. */
  ghost predicate Leaves(m0: Memory, p: nat, r: Result<seq<byte>>, ok: bool, m: Memory, unread: seq<byte>) {
    && p + |r.value| <= |m0|
    && (ok <==> r.Ok?)
    && m == Write(m0, p, r.value)
    && (ok ==> unread == r.rest)
  }

  lemma LeavesAlone(m: Memory, p: nat, n: nat, unread: seq<byte>)
    requires p + n <= |m|
    ensures Leaves(m, p, Fail(Read(m, p, n)), false, m, unread)
  {
    WriteRead(m, p, n);
  }

  /** An assignment through a pointer, memcpy or memset. */
  method Store(dest: array<byte>, p: nat, b: seq<byte>)
    requires p + |b| <= dest.Length
    modifies dest
    ensures dest[..] == Write(old(dest[..]), p, b)
  {
    var i := 0;
    while i < |b|
      invariant i <= |b|
      invariant forall k :: 0 <= k < dest.Length ==> dest[k] == if p <= k < p + i then b[k - p] else old(dest[..])[k]
    {
      dest[p + i] := b[i];
      i := i + 1;
    }
  }

  // ---- Scalars ----

  method DecBool(stream: IStream, f: Field, dest: array<byte>, p: nat) returns (ok: bool)
    requires stream.Valid() && stream.buf != dest && p + f.dataSize <= dest.Length
    requires WellFormedField(f) && f.ltype.Bool?
    modifies stream, dest
    ensures stream.Valid() && stream.End() == old(stream.End())
    ensures Leaves(old(dest[..]), p, DecodeScalar(f, Read(old(dest[..]), p, f.dataSize), old(stream.Unread())),
                   ok, dest[..], stream.Unread())
  {
    hide DecodeVarint32, Write;
    var value, eof;
    ok, value, eof := stream.DecodeVarint32Eof();
    if !ok {
      LeavesAlone(dest[..], p, f.dataSize, stream.Unread());
      return;
    }
    Store(dest, p, [if value != 0 then 1 else 0]);
  }

  method DecVarint(stream: IStream, f: Field, dest: array<byte>, p: nat) returns (ok: bool)
    requires stream.Valid() && stream.buf != dest && p + f.dataSize <= dest.Length
    requires WellFormedField(f) && f.ltype.Varint?
    modifies stream, dest
    ensures stream.Valid() && stream.End() == old(stream.End())
    ensures Leaves(old(dest[..]), p, DecodeScalar(f, Read(old(dest[..]), p, f.dataSize), old(stream.Unread())),
                   ok, dest[..], stream.Unread())
  {
    hide DecodeVarint, LittleEndian, Write;
    var value;
    ok, value := stream.DecodeVarint64();
    if !ok {
      LeavesAlone(dest[..], p, f.dataSize, stream.Unread());
      return;
    }
    var svalue := if f.dataSize == 8 then Signed(value, 8) else Signed(value % TWO32, 4);
    var stored := Pattern(svalue, f.dataSize);
    var clamped := Signed(stored, f.dataSize);
    Store(dest, p, LittleEndian(stored, f.dataSize));
    ok := clamped == svalue;
  }

  method DecUvarint(stream: IStream, f: Field, dest: array<byte>, p: nat) returns (ok: bool)
    requires stream.Valid() && stream.buf != dest && p + f.dataSize <= dest.Length
    requires WellFormedField(f) && f.ltype.Uvarint?
    modifies stream, dest
    ensures stream.Valid() && stream.End() == old(stream.End())
    ensures Leaves(old(dest[..]), p, DecodeScalar(f, Read(old(dest[..]), p, f.dataSize), old(stream.Unread())),
                   ok, dest[..], stream.Unread())
  {
    hide DecodeVarint, LittleEndian, Write;
    var value;
    ok, value := stream.DecodeVarint64();
    if !ok {
      LeavesAlone(dest[..], p, f.dataSize, stream.Unread());
      return;
    }
    var clamped := value % (2 * Half(f.dataSize));
    Store(dest, p, LittleEndian(clamped, f.dataSize));
    ok := clamped == value;
  }

  /** pb_decode_svarint. */
  method DecodeSvarint(stream: IStream) returns (ok: bool, dest: int)
    requires stream.Valid()
    modifies stream
    ensures stream.Valid() && stream.End() == old(stream.End())
    ensures ok <==> DecodeVarint(old(stream.Unread())).Got?
    ensures ok ==> DecodeVarint(old(stream.Unread())).rest == stream.Unread()
    ensures ok ==> dest == UnZigZag(DecodeVarint(old(stream.Unread())).value)
  {
    hide DecodeVarint;
    var value;
    dest := 0;
    ok, value := stream.DecodeVarint64();
    if !ok {
      return;
    }
    if value % 2 == 1 {
      dest := Signed(TWO64 - 1 - value / 2, 8);
    } else {
      dest := Signed(value / 2, 8);
    }
  }

  method DecSvarint(stream: IStream, f: Field, dest: array<byte>, p: nat) returns (ok: bool)
    requires stream.Valid() && stream.buf != dest && p + f.dataSize <= dest.Length
    requires WellFormedField(f) && f.ltype.Svarint?
    modifies stream, dest
    ensures stream.Valid() && stream.End() == old(stream.End())
    ensures Leaves(old(dest[..]), p, DecodeScalar(f, Read(old(dest[..]), p, f.dataSize), old(stream.Unread())),
                   ok, dest[..], stream.Unread())
  {
    hide DecodeVarint, LittleEndian, UnZigZag, Write;
    var value;
    ok, value := DecodeSvarint(stream);
    if !ok {
      LeavesAlone(dest[..], p, f.dataSize, stream.Unread());
      return;
    }
    var stored := Pattern(value, f.dataSize);
    var clamped := Signed(stored, f.dataSize);
    Store(dest, p, LittleEndian(stored, f.dataSize));
    ok := clamped == value;
  }

  /** C's << on a byte widened far enough. */
  function Shl(b: byte, n: nat): nat {
    b * Pow2(n)
  }

  /** bytes[0] | bytes[1] << 8 | ... up to byte n. */
  lemma OrNextByte(s: seq<byte>, n: nat)
    requires n < |s|
    ensures Or(FromLittleEndian(s[..n]), Shl(s[n], 8 * n)) == FromLittleEndian(s[..n + 1])
  {
    LittleEndianBound(s[..n]);
    OrDisjoint(FromLittleEndian(s[..n]), s[n], 8 * n);
    LittleEndianSnoc(s[..n], s[n]);
    assert s[..n] + [s[n]] == s[..n + 1];
  }

  lemma {:induction false} LittleEndianSnoc(s: seq<byte>, b: byte)
    ensures FromLittleEndian(s + [b]) == FromLittleEndian(s) + b * Pow2(8 * |s|)
  {
    if s == [] {
      assert [b][1..] == [];
    } else {
      assert (s + [b])[1..] == s[1..] + [b];
      LittleEndianSnoc(s[1..], b);
      Pow2Add(8, 8 * |s[1..]|);
      assert Pow2(8) == 256;
      MulAssoc(b, 256, Pow2(8 * |s[1..]|));
      MulAssoc(256, b, Pow2(8 * |s[1..]|));
    }
  }

  lemma FourBytes(s: seq<byte>)
    requires |s| == 4
    ensures Or(Or(Or(s[0], Shl(s[1], 8)), Shl(s[2], 16)), Shl(s[3], 24)) == FromLittleEndian(s)
  {
    hide Or, FromLittleEndian, Shl;
    FirstByte(s);
    OrNextByte(s, 1);
    OrNextByte(s, 2);
    OrNextByte(s, 3);
    assert s[..4] == s;
  }

  lemma FirstByte(s: seq<byte>)
    requires |s| >= 1
    ensures FromLittleEndian(s[..1]) == s[0]
  {
    assert s[..1][1..] == [];
  }

  /** pb_decode_fixed32. */
  method DecodeFixed32(stream: IStream, dest: array<byte>, p: nat) returns (ok: bool)
    requires stream.Valid() && stream.buf != dest && p + 4 <= dest.Length
    modifies stream, dest
    ensures stream.Valid() && stream.End() == old(stream.End())
    ensures ok <==> old(stream.bytesLeft) >= 4
    ensures ok ==> stream.Unread() == old(stream.Unread())[4..]
    ensures dest[..] == if ok then Write(old(dest[..]), p, LittleEndian(FromLittleEndian(old(stream.Unread())[..4]), 4))
                        else old(dest[..])
  {
    hide Or, FromLittleEndian, LittleEndian, Shl;
    ghost var s := stream.Unread();
    var bytes := new byte[4];
    ok := stream.Read(bytes, 0, 4);
    if !ok {
      return;
    }
    assert bytes[..] == s[..4];
    FourBytes(bytes[..]);
    Store(dest, p,
          LittleEndian(Or(Or(Or(bytes[0], Shl(bytes[1], 8)), Shl(bytes[2], 16)), Shl(bytes[3], 24)), 4));
  }

  lemma EightBytes(s: seq<byte>)
    requires |s| == 8
    ensures Or(Or(Or(Or(Or(Or(Or(s[0], Shl(s[1], 8)), Shl(s[2], 16)), Shl(s[3], 24)), Shl(s[4], 32)),
               Shl(s[5], 40)), Shl(s[6], 48)), Shl(s[7], 56)) == FromLittleEndian(s)
  {
    hide Or, FromLittleEndian, Shl;
    FourBytes(s[..4]);
    assert s[..4][..4] == s[..4];
    OrNextByte(s, 4);
    OrNextByte(s, 5);
    OrNextByte(s, 6);
    OrNextByte(s, 7);
    assert s[..8] == s;
  }

  /** pb_decode_fixed64. */
  method DecodeFixed64(stream: IStream, dest: array<byte>, p: nat) returns (ok: bool)
    requires stream.Valid() && stream.buf != dest && p + 8 <= dest.Length
    modifies stream, dest
    ensures stream.Valid() && stream.End() == old(stream.End())
    ensures ok <==> old(stream.bytesLeft) >= 8
    ensures ok ==> stream.Unread() == old(stream.Unread())[8..]
    ensures dest[..] == if ok then Write(old(dest[..]), p, LittleEndian(FromLittleEndian(old(stream.Unread())[..8]), 8))
                        else old(dest[..])
  {
    hide Or, FromLittleEndian, LittleEndian, Shl;
    ghost var s := stream.Unread();
    var bytes := new byte[8];
    ok := stream.Read(bytes, 0, 8);
    if !ok {
      return;
    }
    assert bytes[..] == s[..8];
    EightBytes(bytes[..]);
    var low := Or(Or(Or(bytes[0], Shl(bytes[1], 8)), Shl(bytes[2], 16)), Shl(bytes[3], 24));
    var value := Or(Or(Or(Or(low, Shl(bytes[4], 32)), Shl(bytes[5], 40)), Shl(bytes[6], 48)),
                    Shl(bytes[7], 56));
    Store(dest, p, LittleEndian(value, 8));
  }

  method DecFixed(stream: IStream, f: Field, dest: array<byte>, p: nat) returns (ok: bool)
    requires stream.Valid() && stream.buf != dest && p + f.dataSize <= dest.Length
    requires WellFormedField(f) && (f.ltype.Fixed32? || f.ltype.Fixed64?)
    modifies stream, dest
    ensures stream.Valid() && stream.End() == old(stream.End())
    ensures Leaves(old(dest[..]), p, DecodeScalar(f, Read(old(dest[..]), p, f.dataSize), old(stream.Unread())),
                   ok, dest[..], stream.Unread())
  {
    hide FromLittleEndian, LittleEndian, Write;
    if f.ltype.Fixed32? {
      ok := DecodeFixed32(stream, dest, p);
    } else {
      ok := DecodeFixed64(stream, dest, p);
    }
    if !ok {
      LeavesAlone(dest[..], p, f.dataSize, stream.Unread());
    }
  }

  /** The first six entries of PB_DECODERS. */
  method DecScalar(stream: IStream, f: Field, dest: array<byte>, p: nat) returns (ok: bool)
    requires stream.Valid() && stream.buf != dest && p + f.dataSize <= dest.Length
    requires WellFormedField(f) && f.ltype.Packable()
    modifies stream, dest
    ensures stream.Valid() && stream.End() == old(stream.End())
    ensures Leaves(old(dest[..]), p, DecodeScalar(f, Read(old(dest[..]), p, f.dataSize), old(stream.Unread())),
                   ok, dest[..], stream.Unread())
  {
    hide DecodeScalar, Leaves;
    match f.ltype
    case Bool => ok := DecBool(stream, f, dest, p);
    case Varint => ok := DecVarint(stream, f, dest, p);
    case Uvarint => ok := DecUvarint(stream, f, dest, p);
    case Svarint => ok := DecSvarint(stream, f, dest, p);
    case Fixed32 => ok := DecFixed(stream, f, dest, p);
    case Fixed64 => ok := DecFixed(stream, f, dest, p);
  }

  // ---- Strings and bytes ----

  lemma BytesFit(f: Field, d: seq<byte>, s: seq<byte>, n: nat, rest: seq<byte>)
    requires ItemFor(f, d) && f.ltype.Bytes? && DecodeVarint32(s) == Got(n, rest) && n + SIZE_BYTES <= f.dataSize
    ensures var d1 := Write(d, 0, LittleEndian(n, SIZE_BYTES));
            DecodeBytes(f, d, s) == if |rest| < n then Fail(d1) else Ok(Write(d1, SIZE_BYTES, rest[..n]), rest[n..])
  {
  }

  lemma BytesRefused(f: Field, d: seq<byte>, s: seq<byte>)
    requires ItemFor(f, d) && f.ltype.Bytes?
    requires DecodeVarint32(s).Got? ==> DecodeVarint32(s).value + SIZE_BYTES > f.dataSize
    ensures DecodeBytes(f, d, s) == Fail(d)
  {
  }

  method DecBytes(stream: IStream, f: Field, dest: array<byte>, p: nat) returns (ok: bool)
    requires stream.Valid() && stream.buf != dest && p + f.dataSize <= dest.Length
    requires WellFormedField(f) && f.ltype.Bytes?
    modifies stream, dest
    ensures stream.Valid() && stream.End() == old(stream.End())
    ensures Leaves(old(dest[..]), p, DecodeBytes(f, Read(old(dest[..]), p, f.dataSize), old(stream.Unread())),
                   ok, dest[..], stream.Unread())
  {
    hide DecodeVarint32, LittleEndian, Write, Read, DecodeBytes, WellFormedField;
    ghost var m, d := dest[..], Read(dest[..], p, f.dataSize);
    LeavesAlone(m, p, f.dataSize, []);
    var size, eof;
    ok, size, eof := stream.DecodeVarint32Eof();
    if !ok {
      BytesRefused(f, d, old(stream.Unread()));
      return;
    }
    if size > PB_SIZE_MAX {
      return false;
    }
    var allocSize := size + SIZE_BYTES;
    if size > allocSize || allocSize > f.dataSize {
      BytesRefused(f, d, old(stream.Unread()));
      return false;
    }
    ghost var rest := stream.Unread();
    var cell := LittleEndian(size, SIZE_BYTES);
    BytesFit(f, d, old(stream.Unread()), size, rest);
    Store(dest, p, cell);
    WriteInside(m, p, f.dataSize, 0, cell);
    ok := stream.Read(dest, p + SIZE_BYTES, size);
    if ok {
      WriteTwiceInside(m, p, f.dataSize, 0, cell, SIZE_BYTES, rest[..size]);
    }
  }

  method DecString(stream: IStream, f: Field, dest: array<byte>, p: nat) returns (ok: bool)
    requires stream.Valid() && stream.buf != dest && p + f.dataSize <= dest.Length
    requires WellFormedField(f) && f.ltype.String?
    modifies stream, dest
    ensures stream.Valid() && stream.End() == old(stream.End())
    ensures Leaves(old(dest[..]), p, DecodeString(f, Read(old(dest[..]), p, f.dataSize), old(stream.Unread())),
                   ok, dest[..], stream.Unread())
  {
    hide DecodeVarint32, Write, Read;
    ghost var m := dest[..];
    LeavesAlone(m, p, f.dataSize, []);
    var size, eof;
    ok, size, eof := stream.DecodeVarint32Eof();
    if !ok {
      return;
    }
    var allocSize := (size + 1) % TWO32;
    if allocSize < size || allocSize > f.dataSize {
      return false;
    }
    ghost var rest := stream.Unread();
    ok := stream.Read(dest, p, size);
    Store(dest, p + size, [0]);
    if ok {
      WriteTwiceInside(m, p, f.dataSize, 0, rest[..size], size, [0]);
    } else {
      WriteInside(m, p, f.dataSize, size, [0]);
    }
  }

  method DecFixedLengthBytes(stream: IStream, f: Field, dest: array<byte>, p: nat) returns (ok: bool)
    requires stream.Valid() && stream.buf != dest && p + f.dataSize <= dest.Length
    requires WellFormedField(f) && f.ltype.FixedLengthBytes?
    modifies stream, dest
    ensures stream.Valid() && stream.End() == old(stream.End())
    ensures Leaves(old(dest[..]), p,
                   DecodeFixedLengthBytes(f, Read(old(dest[..]), p, f.dataSize), old(stream.Unread())),
                   ok, dest[..], stream.Unread())
  {
    hide DecodeVarint32, Write;
    LeavesAlone(dest[..], p, f.dataSize, []);
    var size, eof;
    ok, size, eof := stream.DecodeVarint32Eof();
    if !ok {
      return;
    }
    if size > PB_SIZE_MAX {
      return false;
    }
    if size == 0 {
      Store(dest, p, Zeros(f.dataSize));
      return true;
    }
    if size != f.dataSize {
      return false;
    }
    ok := stream.Read(dest, p, f.dataSize);
  }
}
