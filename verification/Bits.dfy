/** Bytes, powers of two, bitwise OR and little-endian numbers, written on unbounded integers so
    that every truncation the C code performs is explicit. */
module Bits {

  type byte = b: int | 0 <= b < 256

  const TWO32: nat := 0x1_0000_0000
  const TWO64: nat := 0x1_0000_0000_0000_0000

  function Pow2(n: nat): (r: nat)
    ensures r > 0
  {
    if n == 0 then 1 else 2 * Pow2(n - 1)
  }

  lemma {:induction false} Pow2Add(a: nat, b: nat)
    ensures Pow2(a + b) == Pow2(a) * Pow2(b)
  {
    if a != 0 {
      Pow2Add(a - 1, b);
      assert Pow2(a + b) == 2 * (Pow2(a - 1) * Pow2(b));
    }
  }

  lemma {:induction false} Pow2Mono(a: nat, b: nat)
    requires a <= b
    ensures Pow2(a) <= Pow2(b)
  {
    if a < b {
      Pow2Mono(a, b - 1);
    }
  }

  lemma Pow2Facts()
    ensures Pow2(0) == 1 && Pow2(7) == 128 && Pow2(8) == 256 && Pow2(14) == 0x4000
    ensures Pow2(16) == 0x1_0000 && Pow2(21) == 0x20_0000 && Pow2(28) == 0x1000_0000
    ensures Pow2(32) == TWO32 && Pow2(35) == 8 * TWO32
    ensures Pow2(63) == TWO64 / 2 && Pow2(64) == TWO64
  {
    Pow2Add(16, 16);
    Pow2Add(32, 3);
    Pow2Add(32, 31);
    Pow2Add(32, 32);
  }

  lemma ModSmall(a: nat, m: nat)
    requires a < m
    ensures a % m == a
  {
  }

  /** C's `|` on unsigned values. */
  function Or(a: nat, b: nat): nat {
    if a == 0 then b
    else if b == 0 then a
    else (if a % 2 == 1 || b % 2 == 1 then 1 else 0) + 2 * Or(a / 2, b / 2)
  }

  /** OR-ing in bits above everything already set is addition. */
  lemma {:induction false} OrDisjoint(a: nat, d: nat, p: nat)
    requires a < Pow2(p)
    ensures Or(a, d * Pow2(p)) == a + d * Pow2(p)
  {
    if p != 0 {
      var b := d * Pow2(p);
      assert b == 2 * (d * Pow2(p - 1)) by {
        assert d * (2 * Pow2(p - 1)) == 2 * (d * Pow2(p - 1));
      }
      OrDisjoint(a / 2, d, p - 1);
    }
  }

  lemma MulSign(m: nat, q: int)
    ensures q >= 1 ==> m * q >= m
    ensures q <= -1 ==> m * q + m <= 0
  {
  }

  lemma ModUnique(a: nat, m: nat, c: nat, r: nat)
    requires r < m && a == m * c + r
    ensures a % m == r && a / m == c
  {
    var q := a / m - c;
    assert m * q == m * (a / m) - m * c;
    MulSign(m, q);
  }

  lemma MulAssoc(a: int, b: int, c: int)
    ensures a * b * c == a * (b * c)
  {
  }

  lemma MulDistribute(a: int, b: int, c: int)
    ensures a * (b + c) == a * b + a * c
  {
  }

  lemma MulMono(a: nat, b: nat, c: nat)
    requires a <= b
    ensures c * a <= c * b
  {
  }

  lemma Remainders(a: nat, b: nat, q: nat, r: nat, t: nat)
    requires r < b && t < a
    ensures 0 <= a * r + t < a * b && a * (b * q + r) + t == a * b * q + (a * r + t)
  {
    MulMono(0, r, a);
    MulMono(r + 1, b, a);
    MulDistribute(a, r, 1);
    MulDistribute(a, b * q, r);
    MulAssoc(a, b, q);
  }

  lemma DivTwice(n: nat, a: nat, b: nat)
    requires a > 0 && b > 0
    ensures a * b > 0 && n / a / b == n / (a * b)
  {
    var q, r, t := n / a / b, n / a % b, n % a;
    Remainders(a, b, q, r, t);
    var m, e := a * b, a * r + t;
    assert n == m * q + e;
    ModUnique(n, m, q, e);
  }

  lemma ModSplit(r: nat, d: nat, m: nat, q: nat)
    requires r < m && q > 0
    ensures m * q > 0 && r + m * d >= 0 && (r + m * d) % (m * q) == r + m * (d % q)
  {
    MulSign(m, q);
    MulMono(0, d, m);
    var c, e := d / q, d % q;
    MulDistribute(m, q * c, e);
    MulAssoc(m, q, c);
    MulMono(e, q - 1, m);
    MulDistribute(m, q, -1);
    MulMono(0, e, m);
    ModUnique(r + m * d, m * q, c, r + m * e);
  }

  lemma ModAddMultiple(a: nat, m: nat, c: nat)
    requires m > 0
    ensures m * c >= 0 && (a + m * c) % m == a % m
  {
    MulDistribute(m, a / m, c);
    ModUnique(a + m * c, m, a / m + c, a % m);
  }

  /** OR-ing seven new bits in at position p of a W-bit word: addition modulo 2^W. */
  lemma OrShifted(r: nat, d: nat, p: nat, w: nat)
    requires r < Pow2(p) && p <= w
    ensures Or(r, d * Pow2(p) % Pow2(w)) == (r + Pow2(p) * d) % Pow2(w)
  {
    hide Pow2, Or;
    var m, q := Pow2(p), Pow2(w - p);
    Pow2Add(p, w - p);
    ModSplit(0, d, m, q);
    ModSplit(r, d, m, q);
    Swapped(m, d);
    Swapped(m, d % q);
    OrDisjoint(r, d % q, p);
  }

  lemma Swapped(a: nat, b: nat)
    ensures a * b == b * a
  {
  }

  lemma {:induction false} OrBound(a: nat, b: nat, p: nat)
    requires a < Pow2(p) && b < Pow2(p)
    ensures Or(a, b) < Pow2(p)
  {
    if a != 0 && b != 0 {
      OrBound(a / 2, b / 2, p - 1);
    }
  }

  /** The `w` low-order bytes of n, least significant first: how the target CPUs store integers. */
  function LittleEndian(n: nat, w: nat): (s: seq<byte>)
    ensures |s| == w
  {
    if w == 0 then [] else [n % 256] + LittleEndian(n / 256, w - 1)
  }

  function FromLittleEndian(s: seq<byte>): nat {
    if s == [] then 0 else s[0] + 256 * FromLittleEndian(s[1..])
  }

  lemma {:induction false} LittleEndianBound(s: seq<byte>)
    ensures FromLittleEndian(s) < Pow2(8 * |s|)
  {
    if s != [] {
      LittleEndianBound(s[1..]);
      Pow2Add(8, 8 * |s[1..]|);
      Pow2Facts();
    }
  }

  /** Byte k is digit k in base 256, the lowest first. */
  lemma {:induction false} LittleEndianDigit(n: nat, w: nat, k: nat)
    requires k < w
    ensures LittleEndian(n, w)[k] == n / Pow2(8 * k) % 256
    decreases k
  {
    if k > 0 {
      assert LittleEndian(n, w)[1..] == LittleEndian(n / 256, w - 1);
      LittleEndianDigit(n / 256, w - 1, k - 1);
      Pow2Add(8, 8 * (k - 1));
      Pow2Facts();
      DivTwice(n, 256, Pow2(8 * (k - 1)));
    }
  }

  lemma {:induction false} LittleEndianInverse(s: seq<byte>)
    ensures LittleEndian(FromLittleEndian(s), |s|) == s
  {
    if s != [] {
      LittleEndianInverse(s[1..]);
      assert FromLittleEndian(s) % 256 == s[0] && FromLittleEndian(s) / 256 == FromLittleEndian(s[1..]);
    }
  }

  lemma {:induction false} FromLittleEndianInverse(n: nat, w: nat)
    requires n < Pow2(8 * w)
    ensures FromLittleEndian(LittleEndian(n, w)) == n
  {
    if w != 0 {
      Pow2Add(8, 8 * (w - 1));
      Pow2Facts();
      FromLittleEndianInverse(n / 256, w - 1);
      assert LittleEndian(n, w)[1..] == LittleEndian(n / 256, w - 1);
    }
  }

  function Zeros(n: nat): (s: seq<byte>)
    ensures |s| == n && forall i :: 0 <= i < n ==> s[i] == 0
  {
    seq(n, i => 0)
  }

  lemma {:induction false} ZeroBytes(n: nat)
    ensures LittleEndian(0, n) == Zeros(n)
  {
    if n > 0 {
      ZeroBytes(n - 1);
    }
  }
}
