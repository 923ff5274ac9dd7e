/** Negative 32-bit numbers: the encoder of the PB_WITHOUT_64BIT build, which slides 32 compensation
    bits through a 32-bit word, against the 64-bit encoder; and what the 32-bit reader makes of the
    ten bytes. */
module NegativeVarint {
  import opened Bits
  import opened Integers
  import opened Wire
  import opened Varint32
  import opened OutputStream
  import opened WireEncoder

  /** The pattern of a negative int32, as the uint32 it is cast to. */
  predicate NegativePattern(value: nat) {
    TWO32 / 2 <= value < TWO32
  }

  /** The 64-bit sign extension. */
  function SignExtension(value: nat): (x: nat)
    requires NegativePattern(value)
    ensures x < TWO64
  {
    Pattern(Signed(value, 4), 8)
  }

  lemma SignExtensionValue(value: nat)
    requires NegativePattern(value)
    ensures SignExtension(value) == value + TWO32 * (TWO32 - 1)
  {
    EuclidUnique(value - TWO32, TWO64, -1, value - TWO32 + TWO64);
  }

  /** C's `^` on unsigned values. */
  function Xor(a: nat, b: nat): nat {
    if a == 0 then b
    else if b == 0 then a
    else (if a % 2 != b % 2 then 1 else 0) + 2 * Xor(a / 2, b / 2)
  }

  lemma XorHalf(bit: nat, a: nat, b: nat)
    requires bit <= 1
    ensures Xor(bit + 2 * a, 2 * b) == bit + 2 * Xor(a, b)
  {
    assert (bit + 2 * a) / 2 == a && (bit + 2 * a) % 2 == bit && 2 * b / 2 == b;
  }

  /** Flipping bits above everything already set is addition. */
  lemma {:induction false} XorDisjoint(a: nat, d: nat, p: nat)
    requires a < Pow2(p)
    ensures Xor(a, d * Pow2(p)) == a + d * Pow2(p)
  {
    if p != 0 {
      XorDisjoint(a / 2, d, p - 1);
      XorHalf(a % 2, a / 2, d * Pow2(p - 1));
      MulSwap2(d, Pow2(p - 1));
    }
    hide Xor;
  }

  lemma MulSwap2(a: nat, b: nat)
    ensures a * (2 * b) == 2 * (a * b)
  {
  }

  /** 0xFF >> (8 - bits). */
  function Mask(bits: nat): nat
    requires bits <= 8
  {
    0xFF / Pow2(8 - bits)
  }

  lemma MaskOnes(bits: nat)
    requires bits <= 7
    ensures Mask(bits) == Pow2(bits) - 1
  {
    hide Pow2;
    Pow2Facts();
    Pow2Add(bits, 8 - bits);
    MulDistribute(Pow2(8 - bits), Pow2(bits), -1);
    ModUnique(0xFF, Pow2(8 - bits), Pow2(bits) - 1, Pow2(8 - bits) - 1);
  }

  /** What the loop still has to send: the word, and the compensation bits above it. */
  function Remaining(value: nat, compensation: nat): nat {
    value + TWO32 * (Pow2(compensation) - 1)
  }

  /** One pass: the low digit of the word is the low digit of the number, and shifting the word and
      feeding in up to seven compensation bits divides the number by 128. */
  lemma SlideStep(value: nat, c: nat)
    requires value < TWO32
    ensures var bits := if c > 7 then 7 else c;
            var value' := Xor(value / 128, Mask(bits) * Pow2(25));
            && value' < TWO32
            && (c > 0 ==> value' > 0)
            && Remaining(value, c) % 128 == value % 128
            && Remaining(value, c) / 128 == Remaining(value', c - bits)
  {
    hide Pow2, Xor, Mask;
    var bits := if c > 7 then 7 else c;
    Pow2Facts();
    Power25();
    MaskOnes(bits);
    Pow2Mono(bits, 7);
    AtLeastTwo(bits);
    XorDisjoint(value / 128, Mask(bits), 25);
    var shifted := value / 128 + 0x200_0000 * (Pow2(c) - 1);
    EuclidUnique(Remaining(value, c), 128, shifted, value % 128);
    if c > 7 {
      Pow2Add(7, c - 7);
    }
  }

  lemma Power25()
    ensures Pow2(25) == 0x200_0000
  {
    Pow2Facts();
    Pow2Add(21, 4);
    assert Pow2(4) == 16;
  }

  lemma AtLeastTwo(n: nat)
    ensures n > 0 ==> Pow2(n) >= 2
  {
  }

  /** The loop of pb_encode_negative_varint builds the bytes that pb_encode_varint builds for the
      64-bit sign extension. */
  method NegativeVarintBuffer(value: nat) returns (buffer: array<byte>, i: nat)
    requires NegativePattern(value)
    ensures fresh(buffer) && i <= buffer.Length && buffer[..i] == VarintBytes(SignExtension(value))
  {
    hide VarintBytes, SignExtension, Remaining, Xor, Mask, Pow2, AllButLast;
    buffer := new byte[10];
    i := 0;
    var compensation: nat, v: nat := 32, value;
    ghost var all := VarintBytes(SignExtension(value));
    VarintBytesAtMostTen(SignExtension(value));
    WholeExtension(value);
    while v != 0
      invariant i <= 10 == buffer.Length && |all| <= 10 && v < TWO32 && compensation <= 32
      invariant compensation > 0 ==> v != 0
      invariant v != 0 ==> all == buffer[..i] + VarintBytes(Remaining(v, compensation))
      invariant v == 0 ==> AllButLast(buffer[..], i, all)
      decreases Remaining(v, compensation)
    {
      ghost var left := Remaining(v, compensation);
      SlideStep(v, compensation);
      LeftPositive(v, compensation);
      DigitStored(buffer[..], i, all, left);
      buffer[i] := v % 128 + 128;
      v := v / 128;
      if compensation != 0 {
        var bits := if compensation > 7 then 7 else compensation;
        v := Xor(v, Mask(bits) * Pow2(25));
        compensation := compensation - bits;
      } else {
        NoMask(v);
      }
      NothingLeft(v, compensation);
      i := i + 1;
    }
    LastDigit(buffer[..], i, all);
    buffer[i - 1] := buffer[i - 1] % 128;
  }

  lemma WholeExtension(value: nat)
    requires NegativePattern(value)
    ensures Remaining(value, 32) == SignExtension(value)
  {
    SignExtensionValue(value);
    Pow2Facts();
  }

  lemma LeftPositive(v: nat, c: nat)
    requires v > 0
    ensures Remaining(v, c) > 0 && Remaining(v, c) / 128 < Remaining(v, c)
  {
  }

  lemma NoMask(v: nat)
    ensures Xor(v, Mask(0) * Pow2(25)) == v
  {
    MaskOnes(0);
    assert Xor(v, 0) == v;
    Pow2Facts();
    hide Pow2, Mask;
  }

  lemma NothingLeft(v: nat, c: nat)
    ensures Remaining(v, 0) == v
    ensures v > 0 ==> Remaining(v, c) > 0
  {
  }

  /** pb_encode_negative_varint. */
  method EncodeNegativeVarint(stream: OStream, value: nat) returns (ok: bool)
    requires Sound(stream.Now()) && NegativePattern(value)
    modifies stream, stream.buf
    ensures stream.buf == old(stream.buf)
    ensures Emits(old(stream.Now()), ok, Some(VarintBytes(SignExtension(value))), stream.Now())
  {
    var buffer, i := NegativeVarintBuffer(value);
    ok := stream.Write(buffer[..i]);
  }

  // ---- Reading them back ----

  /** Above the low n digits stand exactly 29 ones. */
  predicate OnesAbove(x: nat, n: nat) {
    x / Pow2(7 * n) == 0x1FFF_FFFF
  }

  predicate EndsInOnes(s: seq<byte>, n: nat) {
    && |s| == n + 5
    && (forall j :: 0 <= j < n + 4 ==> s[j] >= 128)
    && s[n..] == [0xFF, 0xFF, 0xFF, 0xFF, 0x01]
  }

  lemma {:induction false} HighDigits(x: nat, n: nat)
    requires OnesAbove(x, n)
    ensures EndsInOnes(VarintBytes(x), n)
    decreases n
  {
    hide VarintBytes, OnesAbove;
    if n == 0 {
      NoDigitsBelow(x);
      OnesBytes();
    } else {
      OneDigitLess(x, n - 1);
      HighDigits(x / 128, n - 1);
      VarintStep(x);
      LongerByOne(VarintBytes(x), VarintBytes(x / 128), n - 1);
    }
  }

  lemma NoDigitsBelow(x: nat)
    requires OnesAbove(x, 0)
    ensures x == 0x1FFF_FFFF
  {
    assert Pow2(0) == 1;
  }

  lemma OneDigitLess(x: nat, n: nat)
    requires OnesAbove(x, n + 1)
    ensures x >= 128 && OnesAbove(x / 128, n)
  {
    var q := Pow2(7 * n);
    Pow2Add(7, 7 * n);
    Pow2Facts();
    hide Pow2;
    MulAssoc(128, q, 0x1FFF_FFFF);
    DivideLow(x, q, x % (128 * q));
  }

  lemma LongerByOne(s: seq<byte>, r: seq<byte>, n: nat)
    requires EndsInOnes(r, n) && |s| == |r| + 1 && s[1..] == r && s[0] >= 128
    ensures EndsInOnes(s, n + 1)
  {
    assert forall j :: 1 <= j < |s| ==> s[j] == r[j - 1];
    assert s[n + 1..] == r[n..];
  }

  lemma DivideLow(x: nat, q: nat, low: nat)
    requires q > 0 && x == 128 * (q * 0x1FFF_FFFF) + low && low < 128 * q
    ensures x / 128 / q == 0x1FFF_FFFF && x >= 128
  {
    EuclidUnique(x, 128, q * 0x1FFF_FFFF + low / 128, low % 128);
    ModUnique(x / 128, q, 0x1FFF_FFFF, low / 128);
  }

  lemma OnesBytes()
    ensures VarintBytes(0x1FFF_FFFF) == [0xFF, 0xFF, 0xFF, 0xFF, 0x01]
  {
    VarintStep(0x1FFF_FFFF);
    VarintStep(0x3F_FFFF);
    VarintStep(0x7FFF);
    VarintStep(0xFF);
    hide VarintBytes;
    assert VarintBytes(1) == [1] by { VarintStep(1); }
  }

  lemma ExtensionDigits(value: nat)
    requires NegativePattern(value)
    ensures EndsInOnes(VarintBytes(SignExtension(value)), 5)
  {
    SignExtensionValue(value);
    Pow2Facts();
    hide Pow2, VarintBytes, SignExtension;
    ModUnique(SignExtension(value), Pow2(35), 0x1FFF_FFFF, value + 7 * TWO32);
    HighDigits(SignExtension(value), 5);
  }

  /** The low 32 bits are settled by the first five digits. */
  lemma LowBitsSettled(s: seq<byte>, k: nat)
    requires 5 <= k <= |s|
    ensures Base128(s[..k]) % TWO32 == Base128(s) % TWO32
  {
    Base128Concat(s[..k], s[k..]);
    assert s[..k] + s[k..] == s;
    MergeHigh(Base128(s[..k]), Base128(s[k..]), 7 * k);
  }

  lemma ExtensionDigit(s: seq<byte>, k: nat)
    requires EndsInOnes(s, 5) && k < 10
    ensures |s| == 10 && (k < 9 <==> s[k] >= 128)
    ensures k >= 5 ==> s[k] == if k < 9 then 0xFF else 0x01
  {
    assert k >= 5 ==> s[k] == s[5..][k - 5];
  }

  /** A pass of the reader's loop over a digit that it takes or a sign bit that it lets by. */
  lemma LoopPass(done: seq<byte>, b: byte, rest: seq<byte>)
    requires 1 <= |done| <= 9
    requires |done| >= 5 ==> Base128(done) % TWO32 >= TWO32 / 2 && b == if |done| < 9 then 0xFF else 0x01
    requires |done| < 9 <==> b >= 128
    ensures Varint32Loop([b] + rest, Base128(done) % TWO32, 7 * |done|)
         == var r := Base128(done + [b]) % TWO32;
            if |done| < 9 then Varint32Loop(rest, r, 7 * (|done| + 1)) else Got(r, rest)
  {
    hide Base128, Varint32Merge, Varint32Loop;
    MergeKeepsLow32(done, b);
    PassAccepted(b, rest, Base128(done) % TWO32, 7 * |done|);
  }

  lemma PassAccepted(b: byte, rest: seq<byte>, result: nat, p: nat)
    requires result < TWO32 && p <= 63 && (b < 128 ==> p != 28)
    requires p >= 32 ==> result >= TWO32 / 2 && b == if p < 63 then 0xFF else 0x01
    ensures Varint32Loop([b] + rest, result, p)
         == var r := Varint32Merge(result, b, p); if b >= 128 then Varint32Loop(rest, r, p + 7) else Got(r, rest)
  {
    hide Varint32Merge;
    assert ([b] + rest)[0] == b && ([b] + rest)[1..] == rest;
  }

  lemma {:induction false} LoopAcceptsExtension(s: seq<byte>, k: nat, t: seq<byte>)
    requires EndsInOnes(s, 5) && 1 <= k <= 9 && Base128(s) % TWO32 >= TWO32 / 2
    ensures Varint32Loop(s[k..] + t, Base128(s[..k]) % TWO32, 7 * k) == Got(Base128(s) % TWO32, t)
    decreases 10 - k
  {
    hide Base128, Varint32Loop, EndsInOnes;
    ExtensionDigit(s, k);
    if k >= 5 {
      LowBitsSettled(s, k);
    }
    LoopPass(s[..k], s[k], s[k + 1..] + t);
    assert s[k..] + t == [s[k]] + (s[k + 1..] + t);
    assert s[..k] + [s[k]] == s[..k + 1];
    if k < 9 {
      LoopAcceptsExtension(s, k + 1, t);
    } else {
      assert s[..10] == s && s[10..] + t == t;
    }
  }

  /** The 32-bit reader accepts the ten bytes of every negative int32 and returns its pattern. */
  lemma NegativeReadBack(value: nat, t: seq<byte>)
    requires NegativePattern(value)
    ensures DecodeVarint32(VarintBytes(SignExtension(value)) + t) == Got(value, t)
  {
    var x := SignExtension(value);
    var s := VarintBytes(x);
    ExtensionDigits(value);
    VarintBytesValue(x);
    SignExtensionValue(value);
    hide VarintBytes, SignExtension, Varint32Loop, Base128;
    ModAddMultiple(value, TWO32, TWO32 - 1);
    ModSmall(value, TWO32);
    LoopAcceptsExtension(s, 1, t);
    assert s[..1] == [s[0]];
    Base128One(s[0]);
    ModSmall(s[0] % 128, TWO32);
    assert (s + t)[0] == s[0] && (s + t)[1..] == s[1..] + t;
  }
}
