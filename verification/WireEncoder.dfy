/** The wire primitives of pb_encode.c as they run: varints built in a local buffer, fixed-width
    integers, keys and strings, each shown to emit what module Wire says. */
module WireEncoder {
  import opened Bits
  import opened Integers
  import opened Wire
  import opened Descriptor
  import opened Encoding
  import opened OutputStream

  // ---- Wire primitives ----

  /** The loop of pb_encode_varint: fills a ten-byte buffer, seven bits at a time. */
  method VarintBuffer(value: nat) returns (buffer: array<byte>, i: nat)
    requires 0x7F < value < TWO64
    ensures fresh(buffer) && i <= buffer.Length && buffer[..i] == VarintBytes(value)
  {
    hide VarintBytes;
    buffer := new byte[10];
    i := 0;
    var v := value;
    ghost var all := VarintBytes(value);
    VarintBytesAtMostTen(value);
    while v != 0
      invariant i <= 10 == buffer.Length && |all| <= 10
      invariant v != 0 ==> all == buffer[..i] + VarintBytes(v)
      invariant v == 0 ==> AllButLast(buffer[..], i, all)
    {
      DigitStored(buffer[..], i, all, v);
      buffer[i] := v % 128 + 128;
      v := v / 128;
      i := i + 1;
    }
    LastDigit(buffer[..], i, all);
    buffer[i - 1] := buffer[i - 1] % 128;
  }

  /** The first i bytes of the buffer are the encoding, but for the top bit of the last one. */
  predicate AllButLast(s: seq<byte>, i: nat, all: seq<byte>) {
    0 < i <= |s| && s[i - 1] >= 128 && all == s[..i - 1] + [s[i - 1] - 128]
  }

  /** Storing the low digit of what is still to be encoded. */
  lemma DigitStored(s: seq<byte>, i: nat, all: seq<byte>, left: nat)
    requires i <= |s| && |all| <= |s| && all == s[..i] + VarintBytes(left)
    ensures i < |s|
    ensures var s' := s[i := left % 128 + 128];
            if left >= 128 then all == s'[..i + 1] + VarintBytes(left / 128) else AllButLast(s', i + 1, all)
    ensures left / 128 == 0 <==> left < 128
  {
    VarintStep(left);
    hide VarintBytes;
    var s' := s[i := left % 128 + 128];
    assert s'[..i] == s[..i] && s'[..i + 1] == s[..i] + [left % 128 + 128];
  }

  lemma LastDigit(s: seq<byte>, i: nat, all: seq<byte>)
    requires i <= |s| && AllButLast(s, i, all)
    ensures i > 0 && s[i - 1 := s[i - 1] % 128][..i] == all
  {
  }

  /** pb_encode_varint. */
  method EncodeVarint(stream: OStream, value: nat) returns (ok: bool)
    requires Sound(stream.Now()) && value < TWO64
    modifies stream, stream.buf
    ensures stream.buf == old(stream.buf) && Emits(old(stream.Now()), ok, Some(VarintBytes(value)), stream.Now())
  {
    if value <= 0x7F {
      ok := stream.Write([value]);
      return;
    }
    var buffer, i := VarintBuffer(value);
    ok := stream.Write(buffer[..i]);
  }

  lemma VarintStep(v: nat)
    ensures v >= 128 ==> VarintBytes(v) == [v % 128 + 128] + VarintBytes(v / 128)
    ensures v < 128 ==> VarintBytes(v) == [v] && v % 128 == v && v / 128 == 0
  {
  }

  /** pb_encode_svarint. */
  method EncodeSvarint(stream: OStream, value: int) returns (ok: bool)
    requires Sound(stream.Now()) && FitsSigned(value, 8)
    modifies stream, stream.buf
    ensures stream.buf == old(stream.buf)
    ensures Emits(old(stream.Now()), ok, Some(VarintBytes(ZigZag(value))), stream.Now())
  {
    var zigzagged := value % TWO64 * 2 % TWO64;
    if value < 0 {
      zigzagged := TWO64 - 1 - zigzagged;
    }
    ok := EncodeVarint(stream, zigzagged);
  }

  /** pb_encode_fixed32. */
  method EncodeFixed32(stream: OStream, src: array<byte>, p: nat) returns (ok: bool)
    requires Sound(stream.Now()) && stream.buf != src && p + 4 <= src.Length
    modifies stream, stream.buf
    ensures stream.buf == old(stream.buf)
    ensures Emits(old(stream.Now()), ok, Some(LittleEndian(FromLittleEndian(src[p..p + 4]), 4)), stream.Now())
  {
    var val := FromLittleEndian(src[p..p + 4]);
    ghost var o := stream.Now();
    ok := stream.Write([val % 256, val / 0x100 % 256, val / 0x1_0000 % 256, val / 0x100_0000 % 256]);
    FourBytes(val);
  }

  lemma FourBytes(n: nat)
    ensures LittleEndian(n, 4) == [n % 256, n / 0x100 % 256, n / 0x1_0000 % 256, n / 0x100_0000 % 256]
  {
    hide LittleEndian;
    LowByte(n, 4);
    LowByte(n / 0x100, 3);
    TwoDivisions(n, 0x100);
    LowByte(n / 0x1_0000, 2);
    TwoDivisions(n, 0x1_0000);
    LowByte(n / 0x100_0000, 1);
    TwoDivisions(n, 0x100_0000);
    NoBytes(n / 0x1_0000_0000);
  }

  lemma LowByte(q: nat, w: nat)
    requires w > 0
    ensures LittleEndian(q, w) == [q % 256] + LittleEndian(q / 256, w - 1)
  {
  }

  lemma TwoDivisions(n: nat, c: nat)
    requires c > 0
    ensures n / c / 256 == n / (256 * c)
  {
    var q, r := n / c, n % c;
    Reassembled(c, q / 256, q % 256, r);
    ModUnique(n, 256 * c, q / 256, c * (q % 256) + r);
  }

  lemma Reassembled(c: nat, a: nat, b: nat, r: nat)
    requires b < 256 && r < c
    ensures 0 <= c * b + r < 256 * c
    ensures c * (256 * a + b) + r == 256 * c * a + (c * b + r)
  {
    MulDistribute(c, 256 * a, b);
    MulMono(b, 255, c);
    MulMono(0, b, c);
    assert c * (256 * a) == 256 * c * a;
  }

  /** pb_encode_fixed64. */
  method EncodeFixed64(stream: OStream, src: array<byte>, p: nat) returns (ok: bool)
    requires Sound(stream.Now()) && stream.buf != src && p + 8 <= src.Length
    modifies stream, stream.buf
    ensures stream.buf == old(stream.buf)
    ensures Emits(old(stream.Now()), ok, Some(LittleEndian(FromLittleEndian(src[p..p + 8]), 8)), stream.Now())
  {
    var val := FromLittleEndian(src[p..p + 8]);
    EightBytes(val);
    ok := stream.Write([val % 256, val / 0x100 % 256, val / 0x1_0000 % 256, val / 0x100_0000 % 256,
                        val / 0x1_0000_0000 % 256, val / 0x100_0000_0000 % 256,
                        val / 0x1_0000_0000_0000 % 256, val / 0x100_0000_0000_0000 % 256]);
  }

  lemma NoBytes(n: nat)
    ensures LittleEndian(n, 0) == []
  {
  }

  lemma EightBytes(n: nat)
    ensures LittleEndian(n, 8) == [n % 256, n / 0x100 % 256, n / 0x1_0000 % 256, n / 0x100_0000 % 256,
                                   n / 0x1_0000_0000 % 256, n / 0x100_0000_0000 % 256,
                                   n / 0x1_0000_0000_0000 % 256, n / 0x100_0000_0000_0000 % 256]
  {
    hide LittleEndian;
    LowByte(n, 8);
    LowByte(n / 0x100, 7);
    TwoDivisions(n, 0x100);
    LowByte(n / 0x1_0000, 6);
    TwoDivisions(n, 0x1_0000);
    LowByte(n / 0x100_0000, 5);
    TwoDivisions(n, 0x100_0000);
    LowByte(n / 0x1_0000_0000, 4);
    TwoDivisions(n, 0x1_0000_0000);
    LowByte(n / 0x100_0000_0000, 3);
    TwoDivisions(n, 0x100_0000_0000);
    LowByte(n / 0x1_0000_0000_0000, 2);
    TwoDivisions(n, 0x1_0000_0000_0000);
    LowByte(n / 0x100_0000_0000_0000, 1);
    TwoDivisions(n, 0x100_0000_0000_0000);
    NoBytes(n / 0x1_0000_0000_0000_0000);
  }

  /** pb_encode_tag. */
  method EncodeTag(stream: OStream, wireType: nat, tag: nat) returns (ok: bool)
    requires Sound(stream.Now()) && wireType < 8 && tag <= MAX_TAG
    modifies stream, stream.buf
    ensures stream.buf == old(stream.buf) && Emits(old(stream.Now()), ok, Some(KeyBytes(tag, wireType)), stream.Now())
  {
    ok := EncodeVarint(stream, tag * 8 + wireType);
  }

  /** pb_encode_tag_for_field. */
  method EncodeTagForField(stream: OStream, f: Field) returns (ok: bool)
    requires Sound(stream.Now()) && WellFormedField(f)
    modifies stream, stream.buf
    ensures stream.buf == old(stream.buf) && Emits(old(stream.Now()), ok, Some(FieldKey(f)), stream.Now())
  {
    ok := EncodeTag(stream, WireType(f.ltype), f.tag);
  }

  /** pb_encode_string. */
  method EncodeString(stream: OStream, b: seq<byte>) returns (ok: bool)
    requires Sound(stream.Now()) && |b| < TWO64
    modifies stream, stream.buf
    ensures stream.buf == old(stream.buf) && Emits(old(stream.Now()), ok, Some(Delimited(b)), stream.Now())
  {
    ghost var o := stream.Now();
    ok := EncodeVarint(stream, |b|);
    ghost var o1 := stream.Now();
    if !ok {
      EmitsFailure(o, Some(VarintBytes(|b|)), o1, Some(b));
      return;
    }
    ok := stream.Write(b);
    EmitsConcat(o, Some(VarintBytes(|b|)), o1, ok, Some(b), stream.Now());
  }
}
