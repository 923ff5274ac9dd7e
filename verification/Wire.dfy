/** The wire integers of the Protocol Buffers encoding as pb_encode.c writes them and pb_decode.c
    reads them: varints in 64-bit and 32-bit forms, zig-zag, keys and length prefixes. */
module Wire {
  import opened Bits

  /** What a reader made of its input: a value and the unread bytes, or an error. */
  datatype Parse<+T> = Got(value: T, rest: seq<byte>) | Bad

  datatype Option<+T> = None | Some(value: T)

  const VARINT: nat := 0
  const BITS64: nat := 1
  const STRING: nat := 2
  const BITS32: nat := 5

  // ---- Base 128 varints ----

  /** The canonical encoding: low seven bits first, top bit set on every byte but the last. */
  function VarintBytes(v: nat): (s: seq<byte>)
    ensures |s| >= 1
  {
    if v < 128 then [v] else [v % 128 + 128] + VarintBytes(v / 128)
  }

  /** The number of bytes up to and including the first byte without a continuation bit; 0 if there
      is no such byte. */
  function VarintLen(s: seq<byte>): (n: nat)
    ensures n <= |s|
    ensures n > 0 ==> s[n - 1] < 128 && forall i :: 0 <= i < n - 1 ==> s[i] >= 128
    ensures n == 0 ==> forall i :: 0 <= i < |s| ==> s[i] >= 128
  {
    if s == [] then 0
    else if s[0] < 128 then 1
    else
      var n := VarintLen(s[1..]);
      assert forall i :: 1 <= i < |s| ==> s[i] == s[1..][i - 1];
      if n == 0 then 0 else n + 1
  }

  /** The value of a run of base-128 digits. */
  function Base128(s: seq<byte>): nat {
    if s == [] then 0 else s[0] % 128 + 128 * Base128(s[1..])
  }

  /** What pb_decode_varint accepts and returns: at most ten bytes, reduced modulo 2^64. */
  function DecodeVarint(s: seq<byte>): (r: Parse<nat>)
    ensures r.Got? ==> r.value < TWO64 && |r.rest| < |s|
  {
    var n := VarintLen(s);
    if n == 0 || n > 10 then Bad else Got(Base128(s[..n]) % TWO64, s[n..])
  }

  function SkipVarint(s: seq<byte>): (r: Parse<()>)
    ensures r.Got? ==> |r.rest| < |s|
  {
    var n := VarintLen(s);
    if n == 0 then Bad else Got((), s[n..])
  }

  lemma VarintLenUnique(s: seq<byte>, n: nat)
    requires 0 < n <= |s| && s[n - 1] < 128 && forall i :: 0 <= i < n - 1 ==> s[i] >= 128
    ensures VarintLen(s) == n
  {
  }

  lemma SplitAt(s: seq<byte>, t: seq<byte>)
    ensures (s + t)[..|s|] == s && (s + t)[|s|..] == t
  {
  }

  lemma VarintLenExtends(s: seq<byte>, t: seq<byte>)
    requires VarintLen(s) > 0
    ensures VarintLen(s + t) == VarintLen(s)
  {
    VarintLenUnique(s + t, VarintLen(s));
  }

  lemma {:induction false} Base128Bound(s: seq<byte>)
    ensures Base128(s) < Pow2(7 * |s|)
  {
    if s != [] {
      Base128Bound(s[1..]);
      Pow2Add(7, 7 * |s[1..]|);
      Pow2Facts();
    }
  }

  lemma Pow2Times128(n: nat, b: nat)
    ensures Pow2(n + 7) * b == 128 * (Pow2(n) * b)
  {
    Pow2Add(n, 7);
    assert Pow2(7) == 128;
    assert (Pow2(n) * 128) * b == 128 * (Pow2(n) * b);
  }

  lemma {:induction false} Base128Concat(s: seq<byte>, t: seq<byte>)
    ensures Base128(s + t) == Base128(s) + Pow2(7 * |s|) * Base128(t)
  {
    if s == [] {
      assert s + t == t;
    } else {
      Base128Concat(s[1..], t);
      assert (s + t)[1..] == s[1..] + t && (s + t)[0] == s[0];
      Pow2Times128(7 * |s[1..]|, Base128(t));
    }
  }

  lemma {:induction false} VarintBytesShape(v: nat)
    ensures VarintLen(VarintBytes(v)) == |VarintBytes(v)|
  {
    if v >= 128 {
      VarintBytesShape(v / 128);
      assert VarintBytes(v)[1..] == VarintBytes(v / 128);
    }
  }

  lemma {:induction false} VarintBytesValue(v: nat)
    ensures Base128(VarintBytes(v)) == v
  {
    var s := VarintBytes(v);
    if v >= 128 {
      VarintBytesValue(v / 128);
      assert s[1..] == VarintBytes(v / 128);
      assert s[0] % 128 == v % 128;
    } else {
      assert s[1..] == [];
    }
  }

  /** Byte k of the encoding holds digit k of v in base 128, and says whether more follow. */
  lemma {:induction false} VarintDigit(v: nat, k: nat)
    requires k < |VarintBytes(v)|
    ensures VarintBytes(v)[k] == v / Pow2(7 * k) % 128 + if k == |VarintBytes(v)| - 1 then 0 else 128
    decreases k
  {
    if v >= 128 {
      assert VarintBytes(v)[1..] == VarintBytes(v / 128);
      if k > 0 {
        VarintDigit(v / 128, k - 1);
        Pow2Add(7, 7 * (k - 1));
        Pow2Facts();
        DivTwice(v, 128, Pow2(7 * (k - 1)));
      }
    }
  }

  lemma {:induction false} VarintBytesLength(v: nat, n: nat)
    requires n >= 1 && v < Pow2(7 * n)
    ensures |VarintBytes(v)| <= n
  {
    if v >= 128 {
      if n == 1 {
        Pow2Facts();
      } else {
        Pow2Add(7, 7 * (n - 1));
        Pow2Facts();
        VarintBytesLength(v / 128, n - 1);
      }
    }
  }

  lemma VarintBytesAtMostTen(v: nat)
    requires v < TWO64
    ensures |VarintBytes(v)| <= 10
  {
    Pow2Facts();
    Pow2Mono(64, 70);
    VarintBytesLength(v, 10);
  }

  lemma DecodeWholeVarint(s: seq<byte>, t: seq<byte>)
    requires 0 < VarintLen(s) == |s| <= 10 && Base128(s) < TWO64
    ensures DecodeVarint(s + t) == Got(Base128(s), t)
  {
    VarintLenExtends(s, t);
    SplitAt(s, t);
    ModSmall(Base128(s), TWO64);
  }

  /** Decoding undoes encoding for every 64-bit value and leaves whatever follows unread. */
  lemma VarintRoundTrip(v: nat, t: seq<byte>)
    requires v < TWO64
    ensures DecodeVarint(VarintBytes(v) + t) == Got(v, t)
  {
    VarintBytesShape(v);
    VarintBytesValue(v);
    VarintBytesAtMostTen(v);
    DecodeWholeVarint(VarintBytes(v), t);
  }

  /** No byte string that spells v is shorter than its canonical encoding. */
  lemma {:induction false} VarintMinimal(v: nat, s: seq<byte>)
    requires s != [] && Base128(s) == v
    ensures |VarintBytes(v)| <= |s|
  {
    Base128Bound(s);
    VarintBytesLength(v, |s|);
  }

  lemma WholeVarintsPrefixFree(s: seq<byte>, t: seq<byte>)
    requires 0 < VarintLen(s) == |s| && VarintLen(t) == |t| && s <= t
    ensures s == t
  {
    VarintLenExtends(s, t[|s|..]);
    assert s + t[|s|..] == t;
  }

  /** No encoding is a proper prefix of another. */
  lemma VarintPrefixFree(v: nat, w: nat)
    requires VarintBytes(v) <= VarintBytes(w)
    ensures v == w
  {
    VarintBytesShape(v);
    VarintBytesShape(w);
    WholeVarintsPrefixFree(VarintBytes(v), VarintBytes(w));
    VarintBytesValue(v);
    VarintBytesValue(w);
  }

  /** The reader depends only on the bytes it consumes. */
  lemma DecodeVarintExtends(s: seq<byte>, t: seq<byte>)
    requires DecodeVarint(s).Got?
    ensures DecodeVarint(s + t) == Got(DecodeVarint(s).value, DecodeVarint(s).rest + t)
  {
    var n := VarintLen(s);
    VarintLenExtends(s, t);
    assert (s + t)[..n] == s[..n] && (s + t)[n..] == s[n..] + t;
  }

  lemma SkipVarintExtends(s: seq<byte>, t: seq<byte>)
    requires SkipVarint(s).Got?
    ensures SkipVarint(s + t) == Got((), SkipVarint(s).rest + t)
  {
    var n := VarintLen(s);
    VarintLenExtends(s, t);
    assert (s + t)[n..] == s[n..] + t;
  }

  // ---- 32-bit varints ----

  /** One pass of the multi-byte loop of pb_decode_varint32_eof and everything after it. `bitpos` is
      a uint_fast8_t, eight bits wide on the targets, so it wraps at 256. */
  function Varint32Loop(s: seq<byte>, result: nat, bitpos: nat): (r: Parse<nat>)
    requires result < TWO32
    ensures r.Got? ==> r.value < TWO32 && |r.rest| < |s|
    decreases |s|
  {
    if s == [] then Bad
    else
      var b := s[0];
      var signExtension := if bitpos < 63 then 0xFF else 0x01;
      if bitpos >= 32 && b % 128 != 0 && (result / 0x8000_0000 == 0 || b != signExtension) then Bad
      else
        var result' := Varint32Merge(result, b, bitpos);
        var bitpos' := (bitpos + 7) % 256;
        if b >= 128 then Varint32Loop(s[1..], result', bitpos')
        else if bitpos' == 35 && b / 16 % 8 != 0 then Bad
        else Got(result', s[1..])
  }

  function Varint32Merge(result: nat, b: byte, bitpos: nat): (r: nat)
    requires result < TWO32
    ensures r < TWO32
  {
    if bitpos >= 32 then result
    else
      Pow2Facts();
      OrBound(result, b % 128 * Pow2(bitpos) % TWO32, 32);
      Or(result, b % 128 * Pow2(bitpos) % TWO32)
  }

  /** What pb_decode_varint32 accepts and returns. */
  function DecodeVarint32(s: seq<byte>): (r: Parse<nat>)
    ensures r.Got? ==> r.value < TWO32 && |r.rest| < |s|
  {
    if s == [] then Bad
    else if s[0] < 128 then Got(s[0], s[1..])
    else Varint32Loop(s[1..], s[0] % 128, 7)
  }

  lemma {:induction false} Varint32LoopExtends(s: seq<byte>, result: nat, bitpos: nat, t: seq<byte>)
    requires result < TWO32 && Varint32Loop(s, result, bitpos).Got?
    ensures Varint32Loop(s + t, result, bitpos)
         == Got(Varint32Loop(s, result, bitpos).value, Varint32Loop(s, result, bitpos).rest + t)
    decreases |s|
  {
    assert (s + t)[0] == s[0] && (s + t)[1..] == s[1..] + t;
    if s[0] >= 128 {
      Varint32LoopExtends(s[1..], Varint32Merge(result, s[0], bitpos), (bitpos + 7) % 256, t);
    }
  }

  lemma DecodeVarint32Extends(s: seq<byte>, t: seq<byte>)
    requires DecodeVarint32(s).Got?
    ensures DecodeVarint32(s + t) == Got(DecodeVarint32(s).value, DecodeVarint32(s).rest + t)
  {
    assert (s + t)[0] == s[0] && (s + t)[1..] == s[1..] + t;
    if s[0] >= 128 {
      Varint32LoopExtends(s[1..], s[0] % 128, 7, t);
    }
  }

  /** Once the input holds the last byte of the varint, what follows does not matter, not even for
      a rejection. */
  lemma {:induction false} Varint32LoopComplete(s: seq<byte>, result: nat, bitpos: nat, t: seq<byte>)
    requires result < TWO32 && VarintLen(s) > 0 && Varint32Loop(s, result, bitpos).Bad?
    ensures Varint32Loop(s + t, result, bitpos).Bad?
    decreases |s|
  {
    assert (s + t)[0] == s[0] && (s + t)[1..] == s[1..] + t;
    if s[0] >= 128 && Varint32Loop(s + t, result, bitpos).Got? {
      Varint32LoopComplete(s[1..], Varint32Merge(result, s[0], bitpos), (bitpos + 7) % 256, t);
    }
  }

  lemma DecodeVarint32Complete(s: seq<byte>, t: seq<byte>)
    requires VarintLen(s) > 0 && DecodeVarint32(s).Bad?
    ensures DecodeVarint32(s + t).Bad?
  {
    assert (s + t)[0] == s[0] && (s + t)[1..] == s[1..] + t;
    Varint32LoopComplete(s[1..], s[0] % 128, 7, t);
  }

  lemma {:induction false} Varint32LoopConsumes(s: seq<byte>, result: nat, bitpos: nat)
    requires result < TWO32 && Varint32Loop(s, result, bitpos).Got?
    ensures VarintLen(s) > 0 && Varint32Loop(s, result, bitpos).rest == s[VarintLen(s)..]
    decreases |s|
  {
    if s[0] >= 128 {
      Varint32LoopConsumes(s[1..], Varint32Merge(result, s[0], bitpos), (bitpos + 7) % 256);
      assert s[1..][VarintLen(s[1..])..] == s[VarintLen(s)..];
    }
  }

  /** The 32-bit reader stops at the same byte as the other two readers. */
  lemma DecodeVarint32Consumes(s: seq<byte>)
    requires DecodeVarint32(s).Got?
    ensures VarintLen(s) > 0 && DecodeVarint32(s).rest == s[VarintLen(s)..]
  {
    if s[0] >= 128 {
      Varint32LoopConsumes(s[1..], s[0] % 128, 7);
      assert s[1..][VarintLen(s[1..])..] == s[VarintLen(s)..];
    }
  }

  // ---- Keys, lengths and skipping ----

  /** A field key: the number above the three bits of the wire type. */
  function KeyBytes(tag: nat, wireType: nat): seq<byte> {
    VarintBytes(tag * 8 + wireType)
  }

  /** pb_encode_string: a length prefix, then the bytes. */
  function Delimited(b: seq<byte>): seq<byte> {
    VarintBytes(|b|) + b
  }

  /** pb_make_string_substream: the length-limited part of the input, and what follows it. */
  function Substream(s: seq<byte>): (r: Parse<seq<byte>>)
    ensures r.Got? ==> |r.value| + |r.rest| < |s|
  {
    match DecodeVarint32(s)
    case Bad => Bad
    case Got(n, rest) => if |rest| < n then Bad else Got(rest[..n], rest[n..])
  }

  function SkipBytes(n: nat, s: seq<byte>): (r: Parse<()>)
    ensures r.Got? ==> |r.rest| <= |s|
  {
    if |s| < n then Bad else Got((), s[n..])
  }

  /** pb_skip_field. */
  function SkipField(wireType: nat, s: seq<byte>): (r: Parse<()>)
    ensures r.Got? ==> |r.rest| <= |s|
  {
    if wireType == VARINT then SkipVarint(s)
    else if wireType == BITS64 then SkipBytes(8, s)
    else if wireType == STRING then
      (match Substream(s)
       case Bad => Bad
       case Got(_, rest) => Got((), rest))
    else if wireType == BITS32 then SkipBytes(4, s)
    else Bad
  }

  lemma SubstreamExtends(s: seq<byte>, t: seq<byte>)
    requires Substream(s).Got?
    ensures Substream(s + t) == Got(Substream(s).value, Substream(s).rest + t)
  {
    DecodeVarint32Extends(s, t);
    var n, rest := DecodeVarint32(s).value, DecodeVarint32(s).rest;
    hide DecodeVarint32;
    assert (rest + t)[..n] == rest[..n] && (rest + t)[n..] == rest[n..] + t;
  }

  lemma SkipFieldExtends(wireType: nat, s: seq<byte>, t: seq<byte>)
    requires SkipField(wireType, s).Got?
    ensures SkipField(wireType, s + t) == Got((), SkipField(wireType, s).rest + t)
  {
    if wireType == VARINT {
      SkipVarintExtends(s, t);
    } else if wireType == STRING {
      SubstreamExtends(s, t);
    } else {
      var n := if wireType == BITS64 then 8 else 4;
      assert (s + t)[n..] == s[n..] + t;
    }
  }
}
