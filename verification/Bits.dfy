/** Fixed-width words as natural numbers.

    A `uint8_t`, `uint32_t` or `uint64_t` of the C sources is a natural number below the
    matching power of two.  The bitwise operators are defined by recursion on the binary
    digits, with laws that say what a single bit of the result is.  Equalities between words
    are then proved bit by bit (`SameBits`). */
module Bits {
  import Residues

  const U32: nat := 0x1_0000_0000
  const U64: nat := 0x1_0000_0000_0000_0000

  type u32 = x: nat | x < 0x1_0000_0000
  type u64 = x: nat | x < 0x1_0000_0000_0000_0000
  type i64 = x: int | -0x8000_0000_0000_0000 <= x < 0x8000_0000_0000_0000

  /** `1 << n`. */
  function Pow2(n: nat): (p: nat)
    ensures p >= 1
  {
    if n == 0 then 1 else 2 * Pow2(n - 1)
  }

  /** `(v >> i) & 1`. */
  predicate Bit(v: nat, i: nat) {
    if i == 0 then v % 2 == 1 else Bit(v / 2, i - 1)
  }

  /** `a & b`. */
  function And(a: nat, b: nat): nat {
    if a == 0 then 0 else (if a % 2 == 1 && b % 2 == 1 then 1 else 0) + 2 * And(a / 2, b / 2)
  }

  /** `a | b`. */
  function Or(a: nat, b: nat): nat {
    if a == 0 then b else (if a % 2 == 1 || b % 2 == 1 then 1 else 0) + 2 * Or(a / 2, b / 2)
  }

  /** `a ^ b`. */
  function Xor(a: nat, b: nat): nat {
    if a == 0 then b else (if a % 2 != b % 2 then 1 else 0) + 2 * Xor(a / 2, b / 2)
  }

  /** `a & ~b`. */
  function AndNot(a: nat, b: nat): nat {
    if a == 0 then 0 else (if a % 2 == 1 && b % 2 == 0 then 1 else 0) + 2 * AndNot(a / 2, b / 2)
  }

  /** `v << k` in a word wide enough to hold the result. */
  function Shl(v: nat, k: nat): nat {
    if k == 0 then v else 2 * Shl(v, k - 1)
  }

  /** `v >> k`. */
  function Shr(v: nat, k: nat): nat {
    if k == 0 then v else Shr(v / 2, k - 1)
  }

  /** The low `n` bits of `v`, which is what a cast to an `n`-bit unsigned type keeps. */
  function Low(v: nat, n: nat): nat {
    if n == 0 then 0 else v % 2 + 2 * Low(v / 2, n - 1)
  }

  /** `n` one bits. */
  function Ones(n: nat): nat {
    Pow2(n) - 1
  }

  // ---- one bit of each operator

  lemma BitZero(i: nat)
    ensures !Bit(0, i)
  {
  }

  lemma {:induction false} BitAnd(a: nat, b: nat, i: nat)
    ensures Bit(And(a, b), i) <==> Bit(a, i) && Bit(b, i)
    decreases i
  {
    if a == 0 {
      BitZero(i);
    } else if i > 0 {
      BitAnd(a / 2, b / 2, i - 1);
    }
  }

  lemma {:induction false} BitOr(a: nat, b: nat, i: nat)
    ensures Bit(Or(a, b), i) <==> Bit(a, i) || Bit(b, i)
    decreases i
  {
    if a == 0 {
      BitZero(i);
    } else if i > 0 {
      BitOr(a / 2, b / 2, i - 1);
    }
  }

  lemma {:induction false} BitAndNot(a: nat, b: nat, i: nat)
    ensures Bit(AndNot(a, b), i) <==> Bit(a, i) && !Bit(b, i)
    decreases i
  {
    if a == 0 {
      BitZero(i);
    } else if i > 0 {
      BitAndNot(a / 2, b / 2, i - 1);
    }
  }

  lemma {:induction false} BitShl(v: nat, k: nat, i: nat)
    ensures Bit(Shl(v, k), i) <==> i >= k && Bit(v, i - k)
    decreases k
  {
    if k > 0 && i > 0 {
      BitShl(v, k - 1, i - 1);
    }
  }

  lemma {:induction false} BitShr(v: nat, k: nat, i: nat)
    ensures Bit(Shr(v, k), i) <==> Bit(v, i + k)
    decreases k
  {
    if k > 0 {
      BitShr(v / 2, k - 1, i);
    }
  }

  lemma {:induction false} BitLow(v: nat, n: nat, i: nat)
    ensures Bit(Low(v, n), i) <==> i < n && Bit(v, i)
    decreases n
  {
    if n == 0 {
      BitZero(i);
    } else if i > 0 {
      BitLow(v / 2, n - 1, i - 1);
    }
  }

  lemma {:induction false} BitPow2(k: nat, i: nat)
    ensures Bit(Pow2(k), i) <==> i == k
    decreases k
  {
    if k == 0 {
      if i > 0 { BitZero(i - 1); }
    } else if i > 0 {
      BitPow2(k - 1, i - 1);
    }
  }

  lemma {:induction false} BitOnes(n: nat, i: nat)
    ensures Bit(Ones(n), i) <==> i < n
    decreases n
  {
    if n == 0 {
      BitZero(i);
    } else if i > 0 {
      assert Ones(n) / 2 == Ones(n - 1);
      BitOnes(n - 1, i - 1);
    }
  }

  // ---- the same laws for every bit at once

  lemma AndBits(a: nat, b: nat)
    ensures forall i: nat :: Bit(And(a, b), i) <==> Bit(a, i) && Bit(b, i)
  {
    forall i: nat { BitAnd(a, b, i); }
  }

  lemma OrBits(a: nat, b: nat)
    ensures forall i: nat :: Bit(Or(a, b), i) <==> Bit(a, i) || Bit(b, i)
  {
    forall i: nat { BitOr(a, b, i); }
  }

  lemma AndNotBits(a: nat, b: nat)
    ensures forall i: nat :: Bit(AndNot(a, b), i) <==> Bit(a, i) && !Bit(b, i)
  {
    forall i: nat { BitAndNot(a, b, i); }
  }

  lemma ShlBits(v: nat, k: nat)
    ensures forall i: nat :: Bit(Shl(v, k), i) <==> i >= k && Bit(v, i - k)
  {
    forall i: nat { BitShl(v, k, i); }
  }

  lemma ShrBits(v: nat, k: nat)
    ensures forall i: nat :: Bit(Shr(v, k), i) <==> Bit(v, i + k)
  {
    forall i: nat { BitShr(v, k, i); }
  }

  lemma LowBits(v: nat, n: nat)
    ensures forall i: nat :: Bit(Low(v, n), i) <==> i < n && Bit(v, i)
  {
    forall i: nat { BitLow(v, n, i); }
  }

  lemma OnesBits(n: nat)
    ensures forall i: nat :: Bit(Ones(n), i) <==> i < n
  {
    forall i: nat { BitOnes(n, i); }
  }

  lemma Pow2Bits(k: nat)
    ensures forall i: nat :: Bit(Pow2(k), i) <==> i == k
  {
    forall i: nat { BitPow2(k, i); }
  }

  // ---- bits determine the word

  /** Two words with the same bits are equal. */
  lemma {:induction false} SameBits(a: nat, b: nat)
    requires forall i: nat :: Bit(a, i) == Bit(b, i)
    ensures a == b
    decreases a + b
  {
    assert Bit(a, 0) == Bit(b, 0);
    if a != 0 || b != 0 {
      forall i: nat ensures Bit(a / 2, i) == Bit(b / 2, i) {
        assert Bit(a, i + 1) == Bit(b, i + 1);
      }
      SameBits(a / 2, b / 2);
    }
  }

  /** `(v & (1 << k)) != 0` as a test of one bit. */
  lemma TestPow2(v: nat, k: nat)
    ensures And(v, Pow2(k)) != 0 <==> Bit(v, k)
  {
    hide Pow2;
    AndBits(v, Pow2(k));
    Pow2Bits(k);
    BitZero(k);
    if !Bit(v, k) {
      forall i: nat ensures Bit(And(v, Pow2(k)), i) == Bit(0, i) { BitZero(i); }
      SameBits(And(v, Pow2(k)), 0);
    }
  }

  lemma {:induction false} BitAbove(v: nat, n: nat, i: nat)
    requires v < Pow2(n) && i >= n
    ensures !Bit(v, i)
    decreases n
  {
    if n == 0 {
      BitZero(i);
    } else {
      BitAbove(v / 2, n - 1, i - 1);
    }
  }

  /** A word with no bit at or above `n` is below `2^n`. */
  lemma {:induction false} BelowPow2(v: nat, n: nat)
    requires forall i: nat :: i >= n ==> !Bit(v, i)
    ensures v < Pow2(n)
    decreases n
  {
    if n == 0 {
      forall i: nat ensures Bit(v, i) == Bit(0, i) { BitZero(i); }
      SameBits(v, 0);
    } else {
      forall i: nat | i >= n - 1 ensures !Bit(v / 2, i) {
        assert !Bit(v, i + 1);
      }
      BelowPow2(v / 2, n - 1);
    }
  }

  // ---- arithmetic readings

  lemma WordSizes()
    ensures Pow2(8) == 0x100 && Pow2(12) == 0x1000 && Pow2(16) == 0x1_0000
    ensures Pow2(32) == U32 && Pow2(64) == U64
  {
    assert Pow2(8) == 0x100;
    Pow2Add(4, 8);
    Pow2Add(8, 8);
    Pow2Add(16, 16);
    Pow2Add(32, 32);
  }

  lemma {:induction false} Pow2Add(m: nat, n: nat)
    ensures Pow2(m + n) == Pow2(m) * Pow2(n)
    decreases m
  {
    if m > 0 { Pow2Add(m - 1, n); }
  }

  lemma {:induction false} Pow2Monotone(m: nat, n: nat)
    requires m <= n
    ensures Pow2(m) <= Pow2(n)
    decreases n
  {
    if m < n { Pow2Monotone(m, n - 1); }
  }

  /** A left shift multiplies. */
  lemma {:induction false} ShlIsTimes(v: nat, k: nat)
    ensures Shl(v, k) == v * Pow2(k)
    decreases k
  {
    if k > 0 { ShlIsTimes(v, k - 1); }
  }

  /** `Low(v, n)` is the remainder and `Shr(v, n)` the quotient of `v` by `2^n`. */
  lemma {:induction false} LowShr(v: nat, n: nat)
    ensures v == Low(v, n) + Pow2(n) * Shr(v, n)
    ensures Low(v, n) < Pow2(n)
    decreases n
  {
    if n > 0 { LowShr(v / 2, n - 1); }
  }

  lemma {:induction false} LowAtMost(v: nat, n: nat)
    ensures Low(v, n) < Pow2(n) && Low(v, n) <= v
    decreases n
  {
    if n > 0 { LowAtMost(v / 2, n - 1); }
  }

  lemma LowIsMod(v: nat, n: nat)
    ensures Low(v, n) == v % Pow2(n) && Shr(v, n) == v / Pow2(n)
  {
    LowShr(v, n);
    Residues.Unique(v, Shr(v, n), Low(v, n), Pow2(n));
  }

  lemma {:induction false} LowSmall(v: nat, n: nat)
    requires v < Pow2(n)
    ensures Low(v, n) == v && Shr(v, n) == 0
    decreases n
  {
    if n > 0 { LowSmall(v / 2, n - 1); }
  }

  lemma HalfPlus(v: nat, x: nat)
    ensures (v + 2 * x) / 2 == v / 2 + x && (v + 2 * x) % 2 == v % 2
  {
  }

  lemma DoubledProduct(p: nat, q: nat)
    ensures (2 * p) * q == 2 * (p * q)
  {
  }

  /** Adding multiples of `2^n` does not change the low `n` bits. */
  lemma {:induction false} LowPlusMultiple(v: nat, n: nat, q: nat)
    ensures Low(v + Pow2(n) * q, n) == Low(v, n)
    decreases n
  {
    if n > 0 {
      var p := Pow2(n - 1);
      LowPlusMultiple(v / 2, n - 1, q);
      DoubledProduct(p, q);
      HalfPlus(v, p * q);
      assert Pow2(n) * q == 2 * (p * q);
      hide Pow2;
    }
  }

  /** One more low bit. */
  lemma {:induction false} LowTop(v: nat, n: nat)
    ensures Low(v, n + 1) == Low(v, n) + (if Bit(v, n) then Pow2(n) else 0)
    decreases n
  {
    if n > 0 { LowTop(v / 2, n - 1); }
  }

  /** The low `m + n` bits are the low `m` bits and the next `n` bits. */
  lemma {:induction false} LowSplit(v: nat, m: nat, n: nat)
    ensures Low(v, m + n) == Low(v, m) + Shl(Low(Shr(v, m), n), m)
    decreases m
  {
    if m > 0 { LowSplit(v / 2, m - 1, n); }
  }

  /** Masking with `2^n - 1` keeps the low `n` bits. */
  lemma {:induction false} AndOnes(v: nat, n: nat)
    ensures And(v, Ones(n)) == Low(v, n)
    decreases n
  {
    if n == 0 {
      AndZero(v);
    } else if v == 0 {
      LowSmall(0, n);
    } else {
      assert Ones(n) / 2 == Ones(n - 1) && Ones(n) % 2 == 1;
      AndOnes(v / 2, n - 1);
    }
  }

  lemma {:induction false} AndZero(v: nat)
    ensures And(v, 0) == 0
    decreases v
  {
    if v > 0 { AndZero(v / 2); }
  }

  lemma {:induction false} OrZero(v: nat)
    ensures Or(v, 0) == v
    decreases v
  {
    if v > 0 { OrZero(v / 2); }
  }

  lemma {:induction false} AndAtMost(v: nat, mask: nat)
    ensures And(v, mask) <= mask
    decreases v
  {
    if v > 0 { AndAtMost(v / 2, mask / 2); }
  }

  /** `v` has no bit outside `m`: then it is at most `m`, and masking with `m` keeps it. */
  lemma {:induction false} Within(v: nat, m: nat)
    requires AndNot(v, m) == 0
    ensures v <= m && And(v, m) == v
    decreases v
  {
    if v > 0 { Within(v / 2, m / 2); }
  }

  /** Fields that do not overlap: `or` is addition. */
  lemma {:induction false} OrDisjoint(lo: nat, hi: nat, n: nat)
    requires lo < Pow2(n)
    ensures Or(lo, Shl(hi, n)) == lo + Shl(hi, n) == Or(Shl(hi, n), lo)
    decreases n
  {
    if n == 0 {
      OrZero(hi);
    } else {
      OrDisjoint(lo / 2, hi, n - 1);
      OrUnfold(lo, Shl(hi, n));
      OrUnfold(Shl(hi, n), lo);
    }
  }

  /** Two joined fields come apart again. */
  lemma Joined(lo: nat, hi: nat, n: nat)
    requires lo < Pow2(n)
    ensures Or(Shl(hi, n), lo) == lo + Shl(hi, n) == Or(lo, Shl(hi, n))
    ensures Low(lo + Shl(hi, n), n) == lo && Shr(lo + Shl(hi, n), n) == hi
  {
    OrDisjoint(lo, hi, n);
    JoinedParts(lo, hi, n);
  }

  lemma {:induction false} JoinedParts(lo: nat, hi: nat, n: nat)
    requires lo < Pow2(n)
    ensures Low(lo + Shl(hi, n), n) == lo && Shr(lo + Shl(hi, n), n) == hi
    decreases n
  {
    if n > 0 {
      var v := lo + Shl(hi, n);
      assert v / 2 == lo / 2 + Shl(hi, n - 1) && v % 2 == lo % 2;
      JoinedParts(lo / 2, hi, n - 1);
    }
  }

  lemma OrUnfold(a: nat, b: nat)
    ensures Or(a, b) == (if a % 2 == 1 || b % 2 == 1 then 1 else 0) + 2 * Or(a / 2, b / 2)
  {
  }

  /** Flipping bit `k` of a `(k+1)`-bit word adds or subtracts `2^k`. */
  lemma {:induction false} XorTopBit(v: nat, k: nat)
    requires v < Pow2(k + 1)
    ensures Xor(v, Pow2(k)) == if v < Pow2(k) then v + Pow2(k) else v - Pow2(k)
    decreases k
  {
    if k > 0 {
      XorTopBit(v / 2, k - 1);
      if v == 0 {
      } else {
        assert Pow2(k) / 2 == Pow2(k - 1) && Pow2(k) % 2 == 0;
      }
    }
  }

  /** The highest bit of a word in `[2^k, 2^(k+1))` is bit `k`. */
  lemma {:induction false} TopBit(v: nat, k: nat)
    requires v < Pow2(k + 1)
    ensures Bit(v, k) <==> v >= Pow2(k)
    decreases k
  {
    if k > 0 { TopBit(v / 2, k - 1); }
  }

  /** A mask of `m` bits at position `n` selects a field. */
  lemma FieldAt(v: nat, n: nat, m: nat)
    ensures And(v, Shl(Ones(m), n)) == Shl(Low(Shr(v, n), m), n)
  {
    hide Bit, And, Shl, Shr, Low, Ones;
    forall i: nat ensures Bit(And(v, Shl(Ones(m), n)), i) == Bit(Shl(Low(Shr(v, n), m), n), i) {
      BitAnd(v, Shl(Ones(m), n), i);
      BitShl(Ones(m), n, i);
      BitShl(Low(Shr(v, n), m), n, i);
      if i >= n {
        BitOnes(m, i - n);
        BitLow(Shr(v, n), m, i - n);
        BitShr(v, n, i - n);
      }
    }
    SameBits(And(v, Shl(Ones(m), n)), Shl(Low(Shr(v, n), m), n));
  }

  lemma {:induction false} ShrShr(v: nat, a: nat, b: nat)
    ensures Shr(Shr(v, a), b) == Shr(v, a + b)
    decreases a
  {
    if a > 0 { ShrShr(v / 2, a - 1, b); }
  }
}
