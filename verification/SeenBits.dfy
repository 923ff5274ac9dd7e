/** fields_seen, the bitset of required fields: two 32-bit words, set one bit at a time and compared
    with whole and partial masks. */
module SeenBits {
  import opened Bits

  /** The word whose bit k says whether lo + k is in the set. */
  function Word(seen: set<nat>, lo: nat, n: nat): nat
    decreases n
  {
    if n == 0 then 0 else (if lo in seen then 1 else 0) + 2 * Word(seen, lo + 1, n - 1)
  }

  lemma {:induction false} WordEmpty(lo: nat, n: nat)
    ensures Word({}, lo, n) == 0
    decreases n
  {
    if n > 0 {
      WordEmpty(lo + 1, n - 1);
    }
  }

  /** OR-ing in 1 << k adds lo + k to the set. */
  lemma {:induction false} WordSet(seen: set<nat>, lo: nat, n: nat, k: nat)
    requires k < n
    ensures Or(Word(seen, lo, n), Pow2(k)) == Word(seen + {lo + k}, lo, n)
    decreases n
  {
    hide Or;
    var bit, rest := if lo in seen then 1 else 0, Word(seen, lo + 1, n - 1);
    if k == 0 {
      WordOutside(seen, lo + 1, n - 1, lo);
      OrOne(bit, rest);
    } else {
      WordSet(seen, lo + 1, n - 1, k - 1);
      assert lo + 1 + (k - 1) == lo + k;
      HalfOr(bit, rest, Pow2(k - 1));
    }
  }

  lemma OrOne(bit: nat, a: nat)
    requires bit <= 1
    ensures Or(bit + 2 * a, 1) == 1 + 2 * a
  {
    assert Or(a, 0) == a;
  }

  lemma HalfOr(bit: nat, a: nat, b: nat)
    requires bit <= 1 && b > 0
    ensures Or(bit + 2 * a, 2 * b) == bit + 2 * Or(a, b)
  {
    if bit + 2 * a == 0 {
    } else {
      assert (bit + 2 * a) / 2 == a && (bit + 2 * a) % 2 == bit && 2 * b / 2 == b;
    }
  }

  lemma {:induction false} WordOutside(seen: set<nat>, lo: nat, n: nat, x: nat)
    requires x < lo || lo + n <= x
    ensures Word(seen + {x}, lo, n) == Word(seen, lo, n)
    decreases n
  {
    if n > 0 {
      WordOutside(seen, lo + 1, n - 1, x);
    }
  }

  predicate AllIn(seen: set<nat>, lo: nat, n: nat) {
    forall x :: lo <= x < lo + n ==> x in seen
  }

  predicate NoneIn(seen: set<nat>, lo: nat, n: nat) {
    forall x :: lo <= x < lo + n ==> x !in seen
  }

  lemma {:induction false} WordNone(seen: set<nat>, lo: nat, n: nat)
    requires NoneIn(seen, lo, n)
    ensures Word(seen, lo, n) == 0
    decreases n
  {
    if n > 0 {
      WordNone(seen, lo + 1, n - 1);
    }
  }

  /** With no bit set from r on, the word is the mask of r ones exactly if the first r are all set. */
  lemma {:induction false} WordIsMask(seen: set<nat>, lo: nat, n: nat, r: nat)
    requires r <= n && NoneIn(seen, lo + r, n - r)
    ensures Word(seen, lo, n) == Pow2(r) - 1 <==> AllIn(seen, lo, r)
    decreases n
  {
    if r == 0 {
      WordNone(seen, lo, n);
    } else {
      WordIsMask(seen, lo + 1, n - 1, r - 1);
      assert AllIn(seen, lo, r) <==> lo in seen && AllIn(seen, lo + 1, r - 1);
    }
  }

  /** allbits >> (32 - r) is the mask of r ones. */
  lemma MaskValue(r: nat)
    requires r <= 32
    ensures Pow2(32 - r) > 0 && (TWO32 - 1) / Pow2(32 - r) == Pow2(r) - 1
  {
    Pow2Facts();
    hide Pow2;
    Pow2Add(r, 32 - r);
    MulDistribute(Pow2(32 - r), Pow2(r), -1);
    ModUnique(TWO32 - 1, Pow2(32 - r), Pow2(r) - 1, Pow2(32 - r) - 1);
  }

  /** The local array fields_seen[2] and the set it stands for. */
  class FieldsSeen {
    var w0: nat
    var w1: nat
    ghost var seen: set<nat>

    ghost predicate Valid()
      reads this
    {
      w0 == Word(seen, 0, 32) && w1 == Word(seen, 32, 32)
    }

    constructor ()
      ensures Valid() && seen == {}
    {
      w0, w1, seen := 0, 0, {};
      new;
      WordEmpty(0, 32);
      WordEmpty(32, 32);
    }

    /** fields_seen[index >> 5] |= 1 << (index & 31). */
    method Set(index: nat)
      requires Valid() && index < 64
      modifies this
      ensures Valid() && seen == old(seen) + {index}
    {
      hide Word, Or, Pow2;
      var tmp := Pow2(index % 32);
      if index / 32 == 0 {
        WordSet(seen, 0, 32, index);
        WordOutside(seen, 32, 32, index);
        w0 := Or(w0, tmp);
      } else {
        WordSet(seen, 32, 32, index - 32);
        WordOutside(seen, 0, 32, index);
        w1 := Or(w1, tmp);
      }
      seen := seen + {index};
    }

    /** The check at the end of pb_decode_noinit: whole words against all ones, then the remaining
        bits against a shorter mask. Exact because no bit from `count` on was ever set. */
    method CheckAll(count: nat) returns (ok: bool)
      requires Valid() && count <= 64 && (count > 0 ==> NoneIn(seen, count, 64 - count))
      ensures ok <==> AllIn(seen, 0, count)
    {
      hide Word, Or, Pow2;
      var i := 0;
      while i < count / 32
        invariant i <= count / 32 && AllIn(seen, 0, 32 * i)
      {
        WordIsMask(seen, 32 * i, 32, 32);
        MaskValue(32);
        Pow2Facts();
        if (if i == 0 then w0 else w1) != TWO32 - 1 {
          return false;
        }
        i := i + 1;
      }
      if count % 32 != 0 {
        WordIsMask(seen, 32 * i, 32, count % 32);
        MaskValue(count % 32);
        if (if i == 0 then w0 else w1) != (TWO32 - 1) / Pow2(32 - count % 32) {
          return false;
        }
      }
      ok := true;
    }
  }
}
