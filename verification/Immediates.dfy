/** The immediate readings shared by the AArch64 and ARM codecs: the width of a source mask, sign
    extension, and the plain unsigned and signed fields. */
module Immediates {
  import opened Bits
  import opened Wrappers
  import Residues

  /** Position of the highest set bit plus one. */
  function SourceWidth(mask: nat): nat {
    if mask == 0 then 0 else 1 + SourceWidth(mask / 2)
  }

  method SourceWidthLoop(mask: u32) returns (width: nat)
    ensures width == SourceWidth(mask)
  {
    var m: nat := mask;
    width := 0;
    while m != 0
      invariant width + SourceWidth(m) == SourceWidth(mask)
    {
      width := width + 1;
      m := m / 2;
    }
  }

  lemma {:induction false} SourceWidthBounds(mask: nat)
    ensures mask < Pow2(SourceWidth(mask))
    ensures mask > 0 ==> SourceWidth(mask) > 0 && Pow2(SourceWidth(mask) - 1) <= mask
    decreases mask
  {
    if mask > 1 { SourceWidthBounds(mask / 2); }
  }

  lemma WidthOfWord(mask: u32)
    ensures SourceWidth(mask) <= 32
  {
    SourceWidthBounds(mask);
    if SourceWidth(mask) > 32 {
      WordSizes();
      Pow2Monotone(32, SourceWidth(mask) - 1);
    }
  }

  /** `(value ^ sign) - sign`. */
  function SignExtend(value: nat, bits: nat): int
    requires bits > 0
  {
    Xor(value, Pow2(bits - 1)) - Pow2(bits - 1)
  }

  lemma SignExtendValue(value: nat, bits: nat)
    requires bits > 0 && value < Pow2(bits)
    ensures SignExtend(value, bits) == if value < Pow2(bits - 1) then value else value - Pow2(bits)
  {
    XorTopBit(value, bits - 1);
  }

  /** `imm` is in the range of a signed `bits`-bit field. */
  predicate FitsSigned(imm: int, bits: nat)
    requires bits > 0
  {
    -(Pow2(bits - 1) as int) <= imm < Pow2(bits - 1)
  }

  /** The two's-complement field of `imm` in `bits` bits sign-extends back to `imm`. */
  lemma SignExtendOfMod(imm: int, bits: nat)
    requires bits > 0 && FitsSigned(imm, bits)
    ensures imm % Pow2(bits) == if imm >= 0 then imm else imm + Pow2(bits)
    ensures SignExtend(imm % Pow2(bits), bits) == imm
  {
    var p := Pow2(bits);
    if imm >= 0 {
      Residues.Unique(imm, 0, imm, p);
    } else {
      Residues.Unique(imm, -1, imm + p, p);
    }
    SignExtendValue(imm % p, bits);
  }

  /** A field value always sign-extends into the signed range of its width. */
  lemma SignExtendRange(value: nat, bits: nat)
    requires bits > 0 && value < Pow2(bits)
    ensures FitsSigned(SignExtend(value, bits), bits)
    ensures SignExtend(value, bits) % Pow2(bits) == value
  {
    SignExtendValue(value, bits);
    SignExtendOfMod(SignExtend(value, bits), bits);
  }

  /** The low bits of a 64-bit two's-complement number. */
  lemma LowOfSigned(imm: i64, bits: nat)
    requires bits <= 64
    ensures Low(imm % U64, bits) == imm % Pow2(bits)
  {
    hide Pow2, Low;
    WordSizes();
    if imm >= 0 {
      LowIsMod(imm, bits);
    } else {
      Pow2Add(bits, 64 - bits);
      assert imm % U64 == imm + U64;
      LowIsMod(imm + U64, bits);
      ModShift(imm, Pow2(64 - bits), Pow2(bits));
    }
  }

  lemma ModShift(a: int, k: int, p: int)
    requires p > 0
    ensures (a + p * k) % p == a % p
  {
    assert a + p * k == (a / p + k) * p + a % p;
    Residues.Unique(a + p * k, a / p + k, a % p, p);
  }

  // ---- plain fields

  /** `a64_bf_raw_unsigned`, `arm_bf_raw_unsigned`. */
  function RawUnsigned(imm: i64, sourceMask: u32): (r: Option<u32>)
    ensures r.Some? ==> imm >= 0 && r.value == imm && AndNot(r.value, sourceMask) == 0
  {
    if imm < 0 then None
    else if AndNot(imm, sourceMask) != 0 then None
    else
      Within(imm, sourceMask);
      Some(imm)
  }

  /** `a64_bf_raw_signed`. */
  function RawSigned(imm: i64, sourceMask: u32): (r: Option<u32>)
    ensures r.Some? ==> AndNot(r.value, sourceMask) == 0
  {
    var width := SourceWidth(sourceMask);
    if width == 0 then
      if imm != 0 then None else Some(0)
    else
      var min, max := -(Pow2(width - 1) as int), Pow2(width - 1) - 1;
      if imm < min || imm > max then None
      else if imm >= 0 && AndNot(imm, Ones(width)) != 0 then None
      else
        var out := And(imm % U64, Ones(width));
        WidthOfWord(sourceMask);
        SignedFieldFits(imm, width);
        if AndNot(out, sourceMask) == 0 then Some(out) else None
  }

  lemma SignedFieldFits(imm: i64, width: nat)
    requires 0 < width <= 32
    ensures And(imm % U64, Ones(width)) == imm % Pow2(width) < U32
  {
    AndOnes(imm % U64, width);
    LowOfSigned(imm, width);
    Pow2Monotone(width, 32);
    WordSizes();
  }

  /** The signed field accepts an immediate exactly when its two's-complement digits lie inside the
      mask, and then reads it back. */
  lemma RawSignedRoundTrip(imm: i64, sourceMask: u32)
    requires sourceMask != 0
    ensures var w := SourceWidth(sourceMask);
            && w > 0
            && (RawSigned(imm, sourceMask).Some? <==>
                  FitsSigned(imm, w) && AndNot(imm % Pow2(w), sourceMask) == 0)
            && (RawSigned(imm, sourceMask).Some? ==>
                  && RawSigned(imm, sourceMask).value == imm % Pow2(w)
                  && SignExtend(RawSigned(imm, sourceMask).value, w) == imm)
  {
    var w := SourceWidth(sourceMask);
    WidthOfWord(sourceMask);
    SourceWidthBounds(sourceMask);
    if FitsSigned(imm, w) {
      SignedFieldFits(imm, w);
      SignExtendOfMod(imm, w);
      if imm >= 0 {
        InOnes(imm, w);
      }
    }
  }

  lemma InOnes(v: nat, n: nat)
    requires v < Pow2(n)
    ensures AndNot(v, Ones(n)) == 0
  {
    AndNotBits(v, Ones(n));
    OnesBits(n);
    forall i: nat ensures Bit(AndNot(v, Ones(n)), i) == Bit(0, i) {
      BitZero(i);
      if i >= n { BitAbove(v, n, i); }
    }
    SameBits(AndNot(v, Ones(n)), 0);
  }

  /** A field value inside the mask is taken back after sign extension. */
  lemma SignedAccepted(value: u32, mask: u32)
    requires mask != 0 && AndNot(value, mask) == 0
    ensures SourceWidth(mask) > 0
    ensures var imm := SignExtend(value, SourceWidth(mask));
            -0x8000_0000_0000_0000 <= imm < 0x8000_0000_0000_0000 && RawSigned(imm, mask) == Some(value)
  {
    var w := SourceWidth(mask);
    Within(value, mask);
    SourceWidthBounds(mask);
    WidthOfWord(mask);
    SignExtendRange(value, w);
    Pow2Monotone(w - 1, 32);
    WordSizes();
    RawSignedRoundTrip(SignExtend(value, w), mask);
  }

  /** A contiguous mask `2^w - 1` holds the whole signed range. */
  lemma RawSignedContiguous(imm: i64, w: nat)
    requires 0 < w <= 32
    ensures Ones(w) < U32 && SourceWidth(Ones(w)) == w
    ensures RawSigned(imm, Ones(w)).Some? <==> FitsSigned(imm, w)
  {
    Pow2Monotone(w, 32);
    WordSizes();
    WidthOfOnes(w);
    RawSignedRoundTrip(imm, Ones(w));
    InOnes(imm % Pow2(w), w);
  }

  lemma {:induction false} WidthOfOnes(w: nat)
    ensures SourceWidth(Ones(w)) == w
    decreases w
  {
    if w > 0 {
      assert Ones(w) / 2 == Ones(w - 1);
      WidthOfOnes(w - 1);
    }
  }

  // ---- C division

  function TruncDiv(a: int, b: int): int
    requires b > 0
  {
    if a >= 0 then a / b else -((-a) / b)
  }

  function TruncMod(a: int, b: int): int
    requires b > 0
  {
    a - b * TruncDiv(a, b)
  }
}
