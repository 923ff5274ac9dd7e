/** Typed integers on the wire: how a field of 1, 2, 4 or 8 bytes becomes a varint and back, with
    the width checks of pb_dec_varint, pb_dec_uvarint and pb_dec_svarint. A field's bytes are read
    as an unsigned little-endian number; signedness is explicit. */
module Integers {
  import opened Bits

  predicate IntWidth(w: nat) {
    w == 1 || w == 2 || w == 4 || w == 8
  }

  /** 2^(8w - 1): one past the largest value of a signed w-byte integer. */
  function Half(w: nat): (h: int)
    requires IntWidth(w)
    ensures h > 0
  {
    if w == 1 then 0x80 else if w == 2 then 0x8000 else if w == 4 then 0x8000_0000 else 0x8000_0000_0000_0000
  }

  /** The signed value of a w-byte pattern, and the pattern a C cast to w bytes keeps. */
  function Signed(n: nat, w: nat): int
    requires IntWidth(w)
  {
    if n < Half(w) then n else n - 2 * Half(w)
  }

  function Pattern(x: int, w: nat): (n: nat)
    requires IntWidth(w)
    ensures n < 2 * Half(w)
  {
    if w == 1 then x % 0x100
    else if w == 2 then x % 0x1_0000
    else if w == 4 then x % TWO32
    else x % TWO64
  }

  predicate FitsSigned(x: int, w: nat)
    requires IntWidth(w)
  {
    -Half(w) <= x < Half(w)
  }

  lemma PatternSigned(n: nat, w: nat)
    requires IntWidth(w) && n < 2 * Half(w)
    ensures FitsSigned(Signed(n, w), w) && Pattern(Signed(n, w), w) == n
  {
    EuclidUnique(Signed(n, w), 2 * Half(w), if n < Half(w) then 0 else -1, n);
  }

  lemma SignedPattern(x: int, w: nat)
    requires IntWidth(w)
    ensures FitsSigned(Signed(Pattern(x, w), w), w)
    ensures Signed(Pattern(x, w), w) == x <==> FitsSigned(x, w)
  {
    if 0 <= x < Half(w) {
      EuclidUnique(x, 2 * Half(w), 0, x);
    } else if -Half(w) <= x < 0 {
      EuclidUnique(x, 2 * Half(w), -1, x + 2 * Half(w));
    }
  }

  lemma EuclidUnique(x: int, m: nat, q: int, r: nat)
    requires r < m && x == m * q + r
    ensures x % m == r && x / m == q
  {
    assert x == m * (x / m) + x % m && 0 <= x % m < m;
    var d := x / m - q;
    assert m * d == m * (x / m) - m * q;
    MulSign(m, d);
  }

  // ---- Zig-zag ----

  /** pb_encode_svarint: shift left on uint64, complement for negative values. */
  function ZigZag(x: int): (u: nat)
    requires FitsSigned(x, 8)
    ensures u < TWO64
  {
    var shifted := x % TWO64 * 2 % TWO64;
    if x < 0 then TWO64 - 1 - shifted else shifted
  }

  /** pb_decode_svarint: shift right, complement for odd values, reinterpret as int64. */
  function UnZigZag(u: nat): (x: int)
    requires u < TWO64
  {
    if u % 2 == 1 then Signed(TWO64 - 1 - u / 2, 8) else Signed(u / 2, 8)
  }

  lemma ZigZagValue(x: int)
    requires FitsSigned(x, 8)
    ensures ZigZag(x) == if x < 0 then -2 * x - 1 else 2 * x
  {
    if x < 0 {
      EuclidUnique(x, TWO64, -1, x + TWO64);
      EuclidUnique((x + TWO64) * 2, TWO64, 1, 2 * x + TWO64);
    } else {
      EuclidUnique(x, TWO64, 0, x);
      EuclidUnique(2 * x, TWO64, 0, 2 * x);
    }
  }

  /** Zig-zag is a bijection between int64 and uint64. */
  lemma ZigZagInverse(x: int)
    requires FitsSigned(x, 8)
    ensures UnZigZag(ZigZag(x)) == x
  {
    ZigZagValue(x);
    var u := ZigZag(x);
    hide ZigZag;
    if x < 0 {
      assert u == 2 * (-x - 1) + 1;
    }
  }

  lemma UnZigZagInverse(u: nat)
    requires u < TWO64
    ensures FitsSigned(UnZigZag(u), 8) && ZigZag(UnZigZag(u)) == u
  {
    assert u == 2 * (u / 2) + u % 2;
    ZigZagValue(UnZigZag(u));
    hide ZigZag;
  }

  // ---- Narrowing on decode ----

  /** The pattern a decoder stores and whether it reports success. On failure the truncated pattern
      has been stored all the same. */
  datatype Narrowed = Narrowed(stored: nat, fits: bool)

  /** pb_dec_varint on the wire value u: fields narrower than eight bytes go through int32. */
  function NarrowVarint(u: nat, w: nat): (r: Narrowed)
    requires IntWidth(w)
    ensures r.stored < 2 * Half(w)
  {
    var svalue := if w == 8 then Signed(u, 8) else Signed(u % TWO32, 4);
    var stored := Pattern(svalue, w);
    Narrowed(stored, Signed(stored, w) == svalue)
  }

  function NarrowUvarint(u: nat, w: nat): (r: Narrowed)
    requires IntWidth(w)
    ensures r.stored < 2 * Half(w)
  {
    var stored := u % (2 * Half(w));
    Narrowed(stored, stored == u)
  }

  function NarrowSvarint(u: nat, w: nat): (r: Narrowed)
    requires IntWidth(w) && u < TWO64
    ensures r.stored < 2 * Half(w)
  {
    var value := UnZigZag(u);
    var stored := Pattern(value, w);
    Narrowed(stored, Signed(stored, w) == value)
  }

  /** A signed varint field accepts exactly the wire values that fit after the int32 reduction. */
  lemma NarrowVarintExact(u: nat, w: nat)
    requires IntWidth(w) && u < TWO64
    ensures NarrowVarint(u, w).fits <==> w == 8 || FitsSigned(Signed(u % TWO32, 4), w)
  {
    SignedPattern(Signed(u % TWO32, 4), w);
    PatternSigned(u, 8);
    SignedPattern(Signed(u, 8), 8);
  }

  /** An unsigned field accepts exactly the wire values below 2^(8w), a zig-zag field exactly those
      whose signed value fits. */
  lemma NarrowExact(u: nat, w: nat)
    requires IntWidth(w) && u < TWO64
    ensures NarrowUvarint(u, w).fits <==> u < 2 * Half(w)
    ensures NarrowSvarint(u, w).fits <==> FitsSigned(UnZigZag(u), w)
  {
    if u < 2 * Half(w) {
      ModSmall(u, 2 * Half(w));
    }
    SignedPattern(UnZigZag(u), w);
  }

  /** For each width, decoding what the encoder sends for pattern n stores n again. */
  lemma NarrowInverse(n: nat, w: nat)
    requires IntWidth(w) && n < 2 * Half(w)
    ensures FitsSigned(Signed(n, w), 8)
    ensures NarrowVarint(Pattern(Signed(n, w), 8), w) == Narrowed(n, true)
    ensures NarrowUvarint(n, w) == Narrowed(n, true)
    ensures NarrowSvarint(ZigZag(Signed(n, w)), w) == Narrowed(n, true)
  {
    var x := Signed(n, w);
    PatternSigned(n, w);
    SignedPattern(x, 8);
    SignExtended(x);
    SignedPattern(x, 4);
    ModSmall(n, 2 * Half(w));
    ZigZagInverse(x);
    hide Pattern, ZigZag, UnZigZag;
  }

  /** The low 32 bits of a sign-extended value are its 32-bit pattern. */
  lemma SignExtended(x: int)
    requires FitsSigned(x, 8)
    ensures Pattern(x, 8) % TWO32 == Pattern(x, 4)
  {
    var p := Pattern(x, 8);
    assert p == x - TWO64 * (x / TWO64);
    EuclidUnique(x, TWO32, TWO32 * (x / TWO64) + p / TWO32, p % TWO32);
  }
}
