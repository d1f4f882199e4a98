/** Remainders by a variable positive modulus, defined by repeated subtraction so that reasoning
    about them stays linear. */
module Residues {

  function Rem(a: nat, w: nat): (r: nat)
    requires w > 0
    ensures r < w
  {
    if a < w then a else Rem(a - w, w)
  }

  /** One full turn does not change the remainder. */
  lemma Turn(a: nat, w: nat)
    requires w > 0
    ensures Rem(a + w, w) == Rem(a, w)
  {
  }

  lemma NoSmallMultiple(d: int, w: int)
    requires w > 0 && -w < d * w < w
    ensures d == 0
  {
  }

  /** Quotient and remainder are unique. */
  lemma Unique(a: int, q: int, m: int, w: int)
    requires w > 0 && a == q * w + m && 0 <= m < w
    ensures a % w == m && a / w == q
  {
    var d := q - a / w;
    assert d * w == a % w - m;
    NoSmallMultiple(d, w);
  }

  /** `Rem` is the remainder operator. */
  lemma {:induction false} RemIsMod(a: nat, w: nat)
    requires w > 0
    ensures Rem(a, w) == a % w
    decreases a
  {
    if a < w {
      Unique(a, 0, a, w);
    } else {
      RemIsMod(a - w, w);
      var b := a - w;
      assert a == (b / w + 1) * w + b % w;
      Unique(a, b / w + 1, b % w, w);
    }
  }

  lemma {:induction false} Succ(a: nat, w: nat)
    requires w > 0
    ensures Rem(a + 1, w) == if Rem(a, w) == w - 1 then 0 else Rem(a, w) + 1
    decreases a
  {
    if a >= w { Succ(a - w, w); }
  }

  /** The remainder may be taken before adding. */
  lemma {:induction false} RemOfSum(a: nat, b: nat, w: nat)
    requires w > 0
    ensures Rem(Rem(a, w) + b, w) == Rem(a + b, w)
    decreases a
  {
    if a >= w { RemOfSum(a - w, b, w); }
  }

  /** Two places a nonnegative distance below `w` apart with the same remainder coincide. */
  lemma {:induction false} SameRem(a: nat, d: nat, w: nat)
    requires w > 0 && d < w && Rem(a, w) == Rem(a + d, w)
    ensures d == 0
    decreases a
  {
    if a >= w {
      SameRem(a - w, d, w);
    }
  }

  lemma {:induction false} RemAtMost(a: nat, w: nat)
    requires w > 0
    ensures Rem(a, w) <= a
    decreases a
  {
    if a >= w { RemAtMost(a - w, w); }
  }
}
