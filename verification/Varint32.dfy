/** The 32-bit varint reader against the 64-bit one. */
module Varint32 {
  import opened Bits
  import opened Wire

  /** Base128 of one more digit. */
  lemma Base128Snoc(s: seq<byte>, b: byte)
    ensures Base128(s + [b]) == Base128(s) + Pow2(7 * |s|) * (b % 128)
  {
    Base128Concat(s, [b]);
    Base128One(b);
  }

  lemma Base128One(b: byte)
    ensures Base128([b]) == b % 128
  {
    assert [b][1..] == [];
  }

  lemma MergeLow(a: nat, b: byte, p: nat)
    requires a < Pow2(p) && p <= 28
    ensures Varint32Merge(a % TWO32, b, p) == (a + Pow2(p) * (b % 128)) % TWO32
  {
    Pow2Facts();
    Pow2Mono(p, 28);
    ModSmall(a, TWO32);
    OrShifted(a, b % 128, p, 32);
  }

  lemma MergeHigh(a: nat, d: nat, p: nat)
    requires p >= 32
    ensures (a + Pow2(p) * d) % TWO32 == a % TWO32
  {
    Pow2Add(32, p - 32);
    assert Pow2(32) == TWO32 by { Pow2Facts(); }
    MulAssoc(TWO32, Pow2(p - 32), d);
    ModAddMultiple(a, TWO32, Pow2(p - 32) * d);
  }

  /** One pass of the loop keeps the low 32 bits of the digits read so far. */
  lemma MergeKeepsLow32(s: seq<byte>, b: byte)
    requires 1 <= |s| <= 9
    ensures Varint32Merge(Base128(s) % TWO32, b, 7 * |s|) == Base128(s + [b]) % TWO32
  {
    hide Base128, Pow2;
    Base128Snoc(s, b);
    Base128Bound(s);
    if 7 * |s| < 32 {
      MergeLow(Base128(s), b, 7 * |s|);
    } else {
      MergeHigh(Base128(s), b % 128, 7 * |s|);
    }
  }

  lemma PrefixStep(done: seq<byte>, s: seq<byte>, n: nat)
    requires 1 <= n <= |s|
    ensures done + [s[0]] + s[1..][..n - 1] == done + s[..n]
  {
  }

  lemma {:induction false} LoopAgrees(done: seq<byte>, s: seq<byte>)
    requires 1 <= |done| && |done| + VarintLen(s) <= 10
    requires Varint32Loop(s, Base128(done) % TWO32, 7 * |done|).Got?
    ensures VarintLen(s) > 0
    ensures Varint32Loop(s, Base128(done) % TWO32, 7 * |done|).value
         == Base128(done + s[..VarintLen(s)]) % TWO32
    decreases |s|
  {
    hide Base128, Varint32Merge;
    Varint32LoopConsumes(s, Base128(done) % TWO32, 7 * |done|);
    MergeKeepsLow32(done, s[0]);
    if s[0] >= 128 {
      LoopAgrees(done + [s[0]], s[1..]);
      PrefixStep(done, s, VarintLen(s));
    } else {
      assert s[..1] == [s[0]];
    }
  }

  /** On any varint of at most ten bytes that the 32-bit reader accepts, the 64-bit reader succeeds
      too, stops at the same byte, and the 32-bit result is the low half of its result. */
  lemma Varint32Agrees(s: seq<byte>)
    requires VarintLen(s) <= 10 && DecodeVarint32(s).Got?
    ensures DecodeVarint(s).Got?
    ensures DecodeVarint(s).rest == DecodeVarint32(s).rest
    ensures DecodeVarint(s).value % TWO32 == DecodeVarint32(s).value
  {
    hide Base128, VarintLen, Varint32Loop;
    DecodeVarint32Consumes(s);
    LowHalf(Base128(s[..VarintLen(s)]));
    Base128One(s[0]);
    if s[0] < 128 {
      assert s[..1] == [s[0]];
    } else {
      LoopAgrees([s[0]], s[1..]);
      PrefixStep([], s, VarintLen(s));
      assert [] + [s[0]] == [s[0]] && [] + s[..VarintLen(s)] == s[..VarintLen(s)];
    }
  }

  lemma LowHalf(v: nat)
    ensures v % TWO64 % TWO32 == v % TWO32
  {
    ModAddMultiple(v % TWO64, TWO32, TWO32 * (v / TWO64));
  }

  // ---- Which varints the 32-bit reader accepts ----

  /** Digit k of a varint, above the low 32 bits: zero, or the sign extension of a value with bit 31
      set, 0xFF up to the ninth byte and 0x01 in the tenth. */
  predicate HighDigitAllowed(s: seq<byte>, k: nat)
    requires 5 <= k < |s|
  {
    s[k] % 128 == 0
    || (s[k] == (if k < 9 then 0xFF else 0x01) && Base128(s[..5]) % TWO32 >= 0x8000_0000)
  }

  /** A varint of five bytes may not reach past bit 31 in its last byte. The fifth byte of a longer
      one is not looked at. */
  predicate Accepted32(s: seq<byte>) {
    && (|s| == 5 ==> s[4] < 16)
    && forall k :: 5 <= k < |s| ==> HighDigitAllowed(s, k)
  }

  /** Digits five and up leave the low half alone. */
  lemma {:induction false} LowHalfFixed(s: seq<byte>, j: nat)
    requires 5 <= j <= |s| && j <= 10
    ensures Base128(s[..j]) % TWO32 == Base128(s[..5]) % TWO32
  {
    if j > 5 {
      hide Base128;
      LowHalfFixed(s, j - 1);
      MergeKeepsLow32(s[..j - 1], s[j - 1]);
      assert s[..j - 1] + [s[j - 1]] == s[..j];
    }
  }

  /** One pass of the loop, on digit j. */
  lemma PassAccepts(s: seq<byte>, j: nat)
    requires 1 <= j < |s| <= 10
    ensures var low := Base128(s[..j]) % TWO32;
            Varint32Loop(s[j..], low, 7 * j).Got?
            <==> && (j >= 5 ==> HighDigitAllowed(s, j))
                 && (j == 4 && s[4] < 128 ==> s[4] < 16)
                 && (s[j] >= 128 ==> Varint32Loop(s[j + 1..], Base128(s[..j + 1]) % TWO32, 7 * (j + 1)).Got?)
  {
    hide Base128, Varint32Merge;
    if j >= 5 {
      LowHalfFixed(s, j);
    }
    assert s[j..][0] == s[j] && s[j..][1..] == s[j + 1..];
    MergeKeepsLow32(s[..j], s[j]);
    assert s[..j] + [s[j]] == s[..j + 1];
  }

  /** The loop's answer, with j digits read. */
  lemma {:induction false} LoopAcceptsExactly(s: seq<byte>, j: nat)
    requires 1 <= j < VarintLen(s) == |s| <= 10
    ensures Varint32Loop(s[j..], Base128(s[..j]) % TWO32, 7 * j).Got?
       <==> (|s| == 5 ==> s[4] < 16) && forall k :: 5 <= k < |s| && j <= k ==> HighDigitAllowed(s, k)
    decreases |s| - j
  {
    hide Base128, Varint32Loop, HighDigitAllowed;
    PassAccepts(s, j);
    if s[j] >= 128 {
      LoopAcceptsExactly(s, j + 1);
    }
  }

  /** The 32-bit reader accepts a varint of up to ten bytes if and only if every digit above bit 31 is
      zero or sign extension; but of a fifth byte that is not the last it ignores bits 32 to 34. */
  lemma Varint32AcceptsExactly(s: seq<byte>)
    requires 0 < VarintLen(s) <= 10
    ensures DecodeVarint32(s).Got? <==> Accepted32(s[..VarintLen(s)])
  {
    hide Base128, Varint32Loop, HighDigitAllowed;
    var n := VarintLen(s);
    var v, t := s[..n], s[n..];
    assert v + t == s;
    VarintLenUnique(v, n);
    if DecodeVarint32(v).Got? {
      DecodeVarint32Extends(v, t);
    } else {
      DecodeVarint32Complete(v, t);
    }
    if n > 1 {
      Base128One(v[0]);
      assert v[..1] == [v[0]];
      LoopAcceptsExactly(v, 1);
    }
  }

  /** The result is the varint's value or, with bit 31 set, the low half of its 64-bit sign extension. */
  predicate ReadsTrue(s: seq<byte>)
    requires DecodeVarint(s).Got? && DecodeVarint32(s).Got?
  {
    var value, result := DecodeVarint(s).value, DecodeVarint32(s).value;
    value == result || (result >= 0x8000_0000 && value == TWO64 - TWO32 + result)
  }

  /** No bits above bit 31. */
  predicate NoHighBits(s: seq<byte>) {
    |s| > 5 ==> s[4] / 16 % 8 == 0 && forall k :: 5 <= k < |s| ==> s[k] % 128 == 0
  }

  /** All bits above bit 31, up to bit 63. */
  predicate AllHighBits(s: seq<byte>) {
    |s| == 10 && s[4] / 16 % 8 == 7 && (forall k :: 5 <= k < 9 ==> s[k] == 0xFF) && s[9] == 1
  }

  lemma {:induction false} ZeroDigits(t: seq<byte>)
    ensures Base128(t) == 0 <==> forall k :: 0 <= k < |t| ==> t[k] % 128 == 0
  {
    if t != [] {
      ZeroDigits(t[1..]);
      assert forall k :: 1 <= k < |t| ==> t[k] == t[1..][k - 1];
    }
  }

  function Digit(s: seq<byte>, k: nat): (d: nat)
    requires k < |s|
  {
    s[k] % 128
  }

  lemma FiveDigits(t: seq<byte>)
    requires |t| == 5
    ensures Base128(t) == Digit(t, 0) + 128 * Digit(t, 1) + 0x4000 * Digit(t, 2) + 0x20_0000 * Digit(t, 3)
                          + 0x1000_0000 * Digit(t, 4)
  {
    hide Base128;
    assert Pow2(7 * 1) == 128 && Pow2(7 * 2) == 0x4000 && Pow2(7 * 3) == 0x20_0000 && Pow2(7 * 4) == 0x1000_0000 by {
      Pow2Facts();
    }
    hide Pow2;
    NextDigit(t, 4);
    NextDigit(t, 3);
    NextDigit(t, 2);
    NextDigit(t, 1);
    assert t[..5] == t && t[..1] == [t[0]];
    Base128One(t[0]);
  }

  lemma NextDigit(t: seq<byte>, k: nat)
    requires k < |t|
    ensures Base128(t[..k + 1]) == Base128(t[..k]) + Pow2(7 * k) * Digit(t, k)
  {
    hide Base128, Pow2;
    assert t[..k] + [t[k]] == t[..k + 1];
    Base128Snoc(t[..k], t[k]);
  }

  lemma AllOnes(t: seq<byte>)
    requires |t| <= 5 && (|t| == 5 ==> t[4] <= 1)
    ensures Base128(t) <= 0x1FFF_FFFF
    ensures Base128(t) == 0x1FFF_FFFF <==> |t| == 5 && (forall k :: 0 <= k < 4 ==> t[k] % 128 == 127) && t[4] == 1
  {
    hide Base128;
    if |t| == 5 {
      FiveDigits(t);
    } else {
      Base128Bound(t);
      Pow2Mono(7 * |t|, 28);
      Pow2Facts();
    }
  }

  /** The bits above the low half: three from the fifth digit, the rest from the digits after it. */
  lemma HighHalf(s: seq<byte>)
    requires 6 <= |s| <= 10
    ensures Base128(s) / TWO32 == s[4] / 16 % 8 + 8 * Base128(s[5..])
  {
    hide Base128;
    Base128Concat(s[..5], s[5..]);
    assert s[..5] + s[5..] == s;
    FifthDigit(s[..5]);
    assert Pow2(7 * 5) == 8 * TWO32 by { Pow2Facts(); }
    hide Pow2;
    Carry(Base128(s[..5]), s[4] / 16 % 8, Base128(s[5..]));
  }

  lemma Carry(low: nat, c: nat, high: nat)
    requires TWO32 * c <= low < TWO32 * c + TWO32
    ensures (low + 8 * TWO32 * high) / TWO32 == c + 8 * high
  {
    ModUnique(low + 8 * TWO32 * high, TWO32, c + 8 * high, low - TWO32 * c);
  }

  /** The fifth digit reaches three bits past the low half. */
  lemma FifthDigit(t: seq<byte>)
    requires |t| == 5
    ensures 0 <= Base128(t) - TWO32 * (t[4] / 16 % 8) < TWO32
  {
    FiveDigits(t);
    hide Base128;
    DigitBounds(t[4]);
  }

  lemma DigitBounds(b: byte)
    ensures b % 128 == 16 * (b / 16 % 8) + b % 16
  {
  }

  lemma TenthDigit(s: seq<byte>)
    requires 6 <= VarintLen(s) == |s| <= 10 && Accepted32(s)
    ensures |s| == 10 ==> s[9] <= 1
    ensures forall k :: 5 <= k < |s| && s[k] % 128 == 127 ==> s[k] == 0xFF
  {
    hide Base128;
    forall k | 5 <= k < |s|
      ensures (k == 9 ==> s[k] <= 1) && (s[k] % 128 == 127 ==> s[k] == 0xFF)
    {
      assert HighDigitAllowed(s, k);
      hide VarintLen, Accepted32;
      DigitOf(s, k);
    }
  }

  lemma DigitOf(s: seq<byte>, k: nat)
    requires 5 <= k < |s| <= 10 && HighDigitAllowed(s, k) && (k == 9 ==> s[k] < 128)
    ensures (k == 9 ==> s[k] <= 1) && (s[k] % 128 == 127 ==> s[k] == 0xFF)
  {
    hide Base128;
  }

  lemma ShortReadsTrue(s: seq<byte>)
    requires 0 < VarintLen(s) == |s| <= 5 && Accepted32(s)
    ensures Base128(s) < TWO32
  {
    hide Base128;
    if |s| == 5 {
      FiveDigits(s);
    } else {
      Base128Bound(s);
      Pow2Mono(7 * |s|, 28);
      Pow2Facts();
    }
  }

  lemma LongReadsTrue(s: seq<byte>)
    requires 6 <= VarintLen(s) == |s| <= 10 && Accepted32(s)
    ensures Base128(s) < TWO64
    ensures Base128(s) / TWO32 == 0 <==> NoHighBits(s)
    ensures Base128(s) / TWO32 == TWO32 - 1 <==> AllHighBits(s)
  {
    hide Base128, VarintLen, Accepted32;
    var t := s[5..];
    TenthDigit(s);
    HighHalf(s);
    ZeroDigits(t);
    AllOnes(t);
    assert forall k :: 5 <= k < |s| ==> s[k] == t[k - 5];
  }

  lemma {:induction false} SignBit(s: seq<byte>)
    requires 6 <= |s| <= 10 && Accepted32(s) && AllHighBits(s)
    ensures Base128(s) % TWO32 >= 0x8000_0000
  {
    hide Base128;
    assert HighDigitAllowed(s, 5);
    LowHalfFixed(s, 10);
    assert s[..10] == s;
  }

  /** An accepted varint is read as its value, or as the low half of its sign extension, if and only if
      its bits above bit 31 are all zero or all one. */
  lemma ReadsTrueExactly(s: seq<byte>)
    requires 0 < VarintLen(s) <= 10 && DecodeVarint32(s).Got?
    ensures DecodeVarint(s).Got?
    ensures ReadsTrue(s) <==> NoHighBits(s[..VarintLen(s)]) || AllHighBits(s[..VarintLen(s)])
  {
    hide Base128, Varint32Loop, Accepted32, NoHighBits, AllHighBits, DecodeVarint32;
    var v := s[..VarintLen(s)];
    VarintLenUnique(v, |v|);
    Varint32Agrees(s);
    Varint32AcceptsExactly(s);
    if |v| <= 5 {
      ShortReadsTrue(v);
      ShortBits(v);
      ModSmall(Base128(v), TWO64);
      ModSmall(Base128(v), TWO32);
    } else {
      LongReadsTrue(v);
      ModSmall(Base128(v), TWO64);
      if AllHighBits(v) {
        SignBit(v);
      }
      Halves(Base128(v));
    }
  }

  lemma ShortBits(s: seq<byte>)
    requires |s| <= 5
    ensures NoHighBits(s)
  {
  }

  lemma Halves(v: nat)
    ensures v / TWO32 == 0 <==> v == v % TWO32
    ensures v / TWO32 == TWO32 - 1 <==> v == TWO64 - TWO32 + v % TWO32
  {
  }

  /** A key of value 7 * 2^32 is read as zero, which ends the message. */
  lemma TruncatedKey(v: seq<byte>, t: seq<byte>)
    requires v == [0x80, 0x80, 0x80, 0x80, 0xF0, 0x00]
    ensures DecodeVarint(v + t) == Got(7 * TWO32, t) && DecodeVarint32(v + t) == Got(0, t)
  {
    KeyBytesValue(v);
    KeyBytesRead(v, t);
  }

  lemma KeyBytesRead(v: seq<byte>, t: seq<byte>)
    requires VarintLen(v) == |v| == 6 && DecodeVarint(v) == Got(7 * TWO32, []) && Accepted32(v)
    ensures DecodeVarint(v + t) == Got(7 * TWO32, t) && DecodeVarint32(v + t) == Got(0, t)
  {
    hide VarintLen, DecodeVarint, DecodeVarint32, Accepted32;
    assert v[..6] == v && v[6..] == [];
    Varint32AcceptsExactly(v);
    Varint32Agrees(v);
    DecodeVarintExtends(v, t);
    DecodeVarint32Extends(v, t);
    assert [] + t == t;
  }

  lemma KeyBytesValue(v: seq<byte>)
    requires v == [0x80, 0x80, 0x80, 0x80, 0xF0, 0x00]
    ensures VarintLen(v) == |v| == 6 && DecodeVarint(v) == Got(7 * TWO32, []) && Accepted32(v)
  {
    VarintLenUnique(v, 6);
    hide Base128, VarintLen;
    KeyDigits(v[..5]);
    LastDigitZero(v);
  }

  lemma LastDigitZero(v: seq<byte>)
    requires VarintLen(v) == |v| == 6 && Base128(v[..5]) == 7 * TWO32 && v[5] == 0
    ensures DecodeVarint(v) == Got(7 * TWO32, []) && Accepted32(v)
  {
    hide Base128, VarintLen, Pow2;
    assert v[..6] == v && v[6..] == [];
    NextDigit(v, 5);
    MulZero(Pow2(7 * 5));
  }

  lemma MulZero(a: nat)
    ensures a * 0 == 0
  {
  }

  lemma KeyDigits(t: seq<byte>)
    requires t == [0x80, 0x80, 0x80, 0x80, 0xF0]
    ensures Base128(t) == 7 * TWO32
  {
    hide Base128;
    FiveDigits(t);
    assert Digit(t, 0) == 0 && Digit(t, 1) == 0 && Digit(t, 2) == 0 && Digit(t, 3) == 0 && Digit(t, 4) == 0x70;
  }

  lemma MergeFits(done: nat, d: nat, p: nat, b: byte)
    requires done < Pow2(p) && p <= 28 && d == b % 128 && done + Pow2(p) * d < TWO32
    ensures Varint32Merge(done, b, p) == done + Pow2(p) * d
  {
    Pow2Facts();
    hide Pow2;
    Pow2Mono(p, 28);
    OrShifted(done, d, p, 32);
    MulMono(0, d, Pow2(p));
    ModSmall(done + Pow2(p) * d, TWO32);
  }

  /** The value splits into its low digit and the rest, seven bits up. */
  lemma DigitSplit(v: nat, p: nat)
    ensures Pow2(p) * v == Pow2(p) * (v % 128) + Pow2(p + 7) * (v / 128)
  {
    hide Pow2;
    Pow2Times128(p, v / 128);
    MulDistribute(Pow2(p), v % 128, 128 * (v / 128));
    MulSwap(Pow2(p), v / 128);
  }

  lemma MulSwap(a: nat, c: nat)
    ensures a * (128 * c) == 128 * (a * c)
  {
  }

  /** The pass for a digit that lands in the low 32 bits. */
  lemma LowLoopStep(s: seq<byte>, result: nat, p: nat)
    requires s != [] && result < TWO32 && p <= 28
    ensures Varint32Loop(s, result, p)
         == var r := Varint32Merge(result, s[0], p);
            if s[0] >= 128 then Varint32Loop(s[1..], r, p + 7)
            else if p == 28 && s[0] / 16 % 8 != 0 then Bad
            else Got(r, s[1..])
  {
    hide Varint32Merge;
  }

  /** The accumulator after one digit, and what is left above it. */
  lemma DigitCarry(done: nat, p: nat, v: nat)
    requires done < Pow2(p) && p <= 28 && done + Pow2(p) * v < TWO32
    ensures done + Pow2(p) * (v % 128) >= 0
    ensures done + Pow2(p) * (v % 128) < Pow2(p + 7)
    ensures done + Pow2(p) * v == done + Pow2(p) * (v % 128) + Pow2(p + 7) * (v / 128)
    ensures done + Pow2(p) * (v % 128) < TWO32
  {
    hide Pow2;
    DigitSplit(v, p);
    MulMono(0, v % 128, Pow2(p));
    MulMono(0, v / 128, Pow2(p + 7));
    MulMono(v % 128, 127, Pow2(p));
    Pow2Times128(p, 1);
  }

  lemma FifthDigitSmall(done: nat, v: nat)
    requires done + Pow2(28) * v < TWO32
    ensures v < 16
  {
    assert Pow2(28) == 0x1000_0000 by { Pow2Facts(); }
    hide Pow2;
  }

  lemma {:induction false} LoopAcceptsCanonical(done: nat, k: nat, v: nat, t: seq<byte>)
    requires 1 <= k <= 4 && done < Pow2(7 * k) && done + Pow2(7 * k) * v < TWO32
    ensures done < TWO32
    ensures Varint32Loop(VarintBytes(v) + t, done, 7 * k) == Got(done + Pow2(7 * k) * v, t)
    decreases 4 - k
  {
    hide Pow2, Varint32Merge, VarintBytes, Varint32Loop;
    MulMono(0, v, Pow2(7 * k));
    VarintBytesStep(v, t);
    DigitCarry(done, 7 * k, v);
    if k == 4 {
      FifthDigitSmall(done, v);
    }
    LowLoopStep(VarintBytes(v) + t, done, 7 * k);
    MergeFits(done, v % 128, 7 * k, VarintBytes(v)[0]);
    if v >= 128 {
      LoopAcceptsCanonical(done + Pow2(7 * k) * (v % 128), k + 1, v / 128, t);
    }
  }

  lemma VarintBytesStep(v: nat, t: seq<byte>)
    ensures VarintBytes(v)[0] % 128 == v % 128
    ensures v < 128 <==> VarintBytes(v)[0] < 128
    ensures v < 128 ==> v % 128 == v && v / 128 == 0
    ensures v < 16 ==> VarintBytes(v)[0] / 16 % 8 == 0
    ensures (VarintBytes(v) + t)[0] == VarintBytes(v)[0]
    ensures (VarintBytes(v) + t)[1..] == if v < 128 then t else VarintBytes(v / 128) + t
  {
  }

  /** Every canonical encoding of a uint32 is accepted: keys, lengths and packed sizes. */
  lemma Varint32RoundTrip(v: nat, t: seq<byte>)
    requires v < TWO32
    ensures DecodeVarint32(VarintBytes(v) + t) == Got(v, t)
  {
    VarintBytesStep(v, t);
    if v >= 128 {
      assert Pow2(7) == 128;
      LoopAcceptsCanonical(v % 128, 1, v / 128, t);
    }
  }

  // ---- Keys and length prefixes read back ----

  lemma KeyRoundTrip(tag: nat, wireType: nat, t: seq<byte>)
    requires tag < 0x2000_0000 && wireType < 8
    ensures DecodeVarint32(KeyBytes(tag, wireType) + t) == Got(tag * 8 + wireType, t)
    ensures (tag * 8 + wireType) / 8 == tag && (tag * 8 + wireType) % 8 == wireType
  {
    Varint32RoundTrip(tag * 8 + wireType, t);
  }

  lemma DelimitedRoundTrip(b: seq<byte>, t: seq<byte>)
    requires |b| < TWO32
    ensures DecodeVarint32(Delimited(b) + t) == Got(|b|, b + t)
    ensures Substream(Delimited(b) + t) == Got(b, t)
  {
    Varint32RoundTrip(|b|, b + t);
    assert Delimited(b) + t == VarintBytes(|b|) + (b + t);
    SplitAt(b, t);
    hide VarintBytes, DecodeVarint32;
  }
}
