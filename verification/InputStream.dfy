/** pb_istream_t on a memory buffer, with its primitive readers and length-limited substreams. A
    substream is a copy of the stream's fields that shares the buffer. */
module InputStream {
  import opened Bits
  import opened Wire
  import opened Varint32
  import StructMemory

  class IStream {
    const buf: array<byte>
    var state: nat
    var bytesLeft: nat

    ghost predicate Valid()
      reads this
    {
      state + bytesLeft <= buf.Length
    }

    ghost function Unread(): (s: seq<byte>)
      requires Valid()
      reads this, buf
      ensures |s| == bytesLeft
    {
      buf[state..state + bytesLeft]
    }

    /** The position where the stream's budget ends. */
    ghost function End(): nat
      reads this
    {
      state + bytesLeft
    }

    /** pb_istream_from_buffer, and the copy pb_make_string_substream starts from. */
    constructor (b: array<byte>, start: nat, size: nat)
      requires start + size <= b.Length
      ensures Valid() && buf == b && state == start && bytesLeft == size
    {
      buf, state, bytesLeft := b, start, size;
    }

    /** pb_readbyte. */
    method ReadByte() returns (ok: bool, b: byte)
      requires Valid()
      modifies this
      ensures Valid() && End() == old(End())
      ensures ok <==> old(bytesLeft) > 0
      ensures ok ==> b == old(Unread())[0] && Unread() == old(Unread())[1..]
      ensures !ok ==> bytesLeft == old(bytesLeft) && state == old(state)
    {
      if bytesLeft == 0 {
        return false, 0;
      }
      b := buf[state];
      state := state + 1;
      bytesLeft := bytesLeft - 1;
      ok := true;
    }

    /** pb_read into struct memory. */
    method Read(dest: array<byte>, p: nat, count: nat) returns (ok: bool)
      requires Valid() && dest != buf && p + count <= dest.Length
      modifies this, dest
      ensures Valid() && End() == old(End())
      ensures ok <==> count <= old(bytesLeft)
      ensures ok ==> dest[..] == StructMemory.Write(old(dest[..]), p, old(Unread())[..count])
      ensures ok ==> Unread() == old(Unread())[count..]
      ensures !ok ==> dest[..] == old(dest[..]) && Unread() == old(Unread())
    {
      if count == 0 {
        assert StructMemory.Write(dest[..], p, Unread()[..0]) == dest[..];
        return true;
      }
      if bytesLeft < count {
        return false;
      }
      BufRead(dest, p, count);
      bytesLeft := bytesLeft - count;
      ok := true;
    }

    /** buf_read. */
    method BufRead(dest: array<byte>, p: nat, count: nat)
      requires dest != buf && p + count <= dest.Length && state + count <= buf.Length
      modifies this, dest
      ensures state == old(state) + count && bytesLeft == old(bytesLeft)
      ensures dest[..] == StructMemory.Write(old(dest[..]), p, buf[old(state)..old(state) + count])
    {
      var source := state;
      state := state + count;
      var i := 0;
      while i < count
        invariant i <= count && state == old(state) + count && bytesLeft == old(bytesLeft)
        invariant forall k :: 0 <= k < dest.Length ==>
          dest[k] == if p <= k < p + i then buf[source + (k - p)] else old(dest[..])[k]
      {
        dest[p + i] := buf[source + i];
        i := i + 1;
      }
    }

    /** pb_read(stream, NULL, count). */
    method Skip(count: nat) returns (ok: bool)
      requires Valid()
      modifies this
      ensures Valid() && End() == old(End())
      ensures ok <==> count <= old(bytesLeft)
      ensures ok ==> Unread() == old(Unread())[count..] && bytesLeft == old(bytesLeft) - count
      ensures !ok ==> state == old(state) && bytesLeft == old(bytesLeft)
    {
      if count == 0 {
        return true;
      }
      if bytesLeft < count {
        return false;
      }
      state := state + count;
      bytesLeft := bytesLeft - count;
      ok := true;
    }

    /** pb_decode_varint32_eof; `eof` says that there was no byte at all. */
    method DecodeVarint32Eof() returns (ok: bool, dest: nat, eof: bool)
      requires Valid()
      modifies this
      ensures Valid() && End() == old(End())
      ensures ok <==> DecodeVarint32(old(Unread())).Got?
      ensures ok ==> DecodeVarint32(old(Unread())) == Got(dest, Unread())
      ensures eof <==> old(bytesLeft) == 0
    {
      hide Or, Varint32Merge;
      eof, dest := false, 0;
      var b;
      ok, b := ReadByte();
      if !ok {
        eof := bytesLeft == 0;
        return;
      }
      if b < 128 {
        dest := b;
        return;
      }
      var bitpos: nat, result: nat := 7, b % 128;
      while true
        invariant Valid() && End() == old(End()) && result < TWO32 && bitpos < 256
        invariant DecodeVarint32(old(Unread())) == Varint32Loop(Unread(), result, bitpos)
        decreases bytesLeft
      {
        ok, b := ReadByte();
        if !ok {
          return;
        }
        if bitpos >= 32 {
          var signExtension := if bitpos < 63 then 0xFF else 0x01;
          if b % 128 != 0 && (result / 0x8000_0000 == 0 || b != signExtension) {
            return false, 0, false;
          }
        }
        result := Varint32Merge(result, b, bitpos);
        bitpos := (bitpos + 7) % 256;
        if b < 128 {
          break;
        }
      }
      if bitpos == 35 && b / 16 % 8 != 0 {
        return false, 0, false;
      }
      return true, result, false;
    }

    /** pb_decode_varint: at most ten bytes, OR-ed together and truncated to 64 bits. */
    method DecodeVarint64() returns (ok: bool, dest: nat)
      requires Valid()
      modifies this
      ensures Valid() && End() == old(End())
      ensures ok <==> DecodeVarint(old(Unread())).Got?
      ensures ok ==> DecodeVarint(old(Unread())) == Got(dest, Unread())
    {
      hide Or, Base128, VarintLen;
      var bitpos, result := 0, 0;
      ghost var all := Unread();
      var k := 0;
      dest := 0;
      assert Base128(all[..0]) == 0 by { Base128Nothing(all[..0]); }
      while true
        invariant Valid() && End() == old(End()) && bitpos == 7 * k && k <= 10 && k <= |all|
        invariant Unread() == all[k..] && result == Base128(all[..k]) % TWO64
        invariant forall j :: 0 <= j < k ==> all[j] >= 128
        decreases bytesLeft
      {
        if bitpos >= 64 {
          TooLong(all);
          return false, 0;
        }
        var b;
        ok, b := ReadByte();
        if !ok {
          NoLastByte(all);
          return;
        }
        MergeKeepsLow64(all[..k], b);
        assert all[..k] + [b] == all[..k + 1];
        result := Or(result, b % 128 * Pow2(bitpos) % TWO64);
        bitpos := bitpos + 7;
        k := k + 1;
        if b < 128 {
          VarintLenUnique(all, k);
          return true, result;
        }
      }
    }

    /** pb_skip_varint. */
    method SkipVarintBytes() returns (ok: bool)
      requires Valid()
      modifies this
      ensures Valid() && End() == old(End())
      ensures ok <==> SkipVarint(old(Unread())).Got?
      ensures ok ==> SkipVarint(old(Unread())) == Got((), Unread())
    {
      hide VarintLen;
      ghost var all := Unread();
      ghost var k := 0;
      while true
        invariant Valid() && End() == old(End()) && k <= |all| && Unread() == all[k..]
        invariant forall j :: 0 <= j < k ==> all[j] >= 128
        decreases bytesLeft
      {
        var b;
        ok, b := ReadByte();
        if !ok {
          NoLastByte(all);
          return;
        }
        k := k + 1;
        if b < 128 {
          VarintLenUnique(all, k);
          return;
        }
      }
    }

    /** pb_make_string_substream: the substream takes the announced bytes out of this stream's
        budget; this stream's position follows when the substream is closed. */
    method MakeStringSubstream() returns (ok: bool, substream: IStream)
      requires Valid()
      modifies this
      ensures Valid() && fresh(substream) && substream.Valid() && substream.buf == buf
      ensures ok <==> Substream(old(Unread())).Got?
      ensures ok ==> substream.Unread() == Substream(old(Unread())).value
      ensures ok ==> substream.state == state && substream.End() + bytesLeft == old(End())
      ensures !ok ==> End() == old(End())
      ensures ok ==> buf[substream.End()..old(End())] == Substream(old(Unread())).rest
    {
      hide DecodeVarint32;
      var size, eof;
      ok, size, eof := DecodeVarint32Eof();
      substream := new IStream(buf, state, bytesLeft);
      if !ok {
        return;
      }
      if substream.bytesLeft < size {
        ok := false;
        return;
      }
      ghost var rest := Unread();
      substream.bytesLeft := size;
      bytesLeft := bytesLeft - size;
      assert rest[..size] == buf[state..state + size] && rest[size..] == buf[state + size..old(End())];
    }

    /** pb_close_string_substream: whatever the substream did not read is skipped. */
    method CloseStringSubstream(substream: IStream) returns (ok: bool)
      requires Valid() && substream.Valid() && substream != this && substream.buf == buf
      requires substream.End() + bytesLeft <= buf.Length
      modifies this, substream
      ensures ok && Valid() && state == old(substream.End()) && bytesLeft == old(bytesLeft)
    {
      if substream.bytesLeft > 0 {
        var skipped := substream.Skip(substream.bytesLeft);
      }
      state := substream.state;
      ok := true;
    }

    /** pb_skip_string. */
    method SkipString() returns (ok: bool)
      requires Valid()
      modifies this
      ensures Valid() && End() == old(End())
      ensures ok <==> SkipField(STRING, old(Unread())).Got?
      ensures ok ==> SkipField(STRING, old(Unread())) == Got((), Unread())
    {
      hide DecodeVarint32;
      var length, eof;
      ok, length, eof := DecodeVarint32Eof();
      if !ok {
        return;
      }
      ok := Skip(length);
    }

    /** pb_skip_field. */
    method SkipFieldBytes(wireType: nat) returns (ok: bool)
      requires Valid()
      modifies this
      ensures Valid() && End() == old(End())
      ensures ok <==> SkipField(wireType, old(Unread())).Got?
      ensures ok ==> SkipField(wireType, old(Unread())) == Got((), Unread())
    {
      hide VarintLen, DecodeVarint32;
      if wireType == VARINT {
        ok := SkipVarintBytes();
      } else if wireType == BITS64 {
        ok := Skip(8);
      } else if wireType == STRING {
        ok := SkipString();
      } else if wireType == BITS32 {
        ok := Skip(4);
      } else {
        ok := false;
      }
    }

    /** pb_decode_tag. A zero key, or no byte at all, ends the message. */
    method DecodeTag() returns (ok: bool, wireType: nat, tag: nat, eof: bool)
      requires Valid()
      modifies this
      ensures Valid() && End() == old(End())
      ensures ok <==> DecodeVarint32(old(Unread())).Got? && DecodeVarint32(old(Unread())).value != 0
      ensures ok ==> DecodeVarint32(old(Unread())) == Got(tag * 8 + wireType, Unread()) && wireType < 8
      ensures !ok && DecodeVarint32(old(Unread())).Got? ==> Unread() == DecodeVarint32(old(Unread())).rest
      ensures !ok ==> (eof <==> old(bytesLeft) == 0 || DecodeVarint32(old(Unread())).Got?)
    {
      hide DecodeVarint32;
      var temp;
      wireType, tag := 0, 0;
      ok, temp, eof := DecodeVarint32Eof();
      if !ok {
        return;
      }
      if temp == 0 {
        return false, 0, 0, true;
      }
      tag := temp / 8;
      wireType := temp % 8;
    }
  }

  lemma Base128Nothing(s: seq<byte>)
    requires s == []
    ensures Base128(s) == 0
  {
  }

  lemma TooLong(s: seq<byte>)
    requires |s| >= 10 && forall j :: 0 <= j < 10 ==> s[j] >= 128
    ensures DecodeVarint(s).Bad?
  {
  }

  lemma NoLastByte(s: seq<byte>)
    requires forall j :: 0 <= j < |s| ==> s[j] >= 128
    ensures VarintLen(s) == 0
  {
  }

  lemma MergeKeepsLow64(s: seq<byte>, b: byte)
    requires |s| <= 9
    ensures Or(Base128(s) % TWO64, b % 128 * Pow2(7 * |s|) % TWO64) == Base128(s + [b]) % TWO64
  {
    hide Or, Base128;
    Base128Snoc(s, b);
    Base128Bound(s);
    Low64(Base128(s), b % 128, 7 * |s|);
  }

  lemma Low64(a: nat, d: nat, p: nat)
    requires a < Pow2(p) && p <= 63
    ensures Or(a % TWO64, d * Pow2(p) % TWO64) == (a + Pow2(p) * d) % TWO64
  {
    hide Or;
    Pow2Facts();
    Pow2Mono(p, 63);
    ModSmall(a, TWO64);
    OrShifted(a, d, p, 64);
  }
}
