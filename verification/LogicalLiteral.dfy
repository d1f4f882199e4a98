/** No logical immediate is its own encoding, so a fixed literal never stands for itself there. */
module LogicalLiteral {
  import opened Bits
  import opened Wrappers
  import opened LogicalImm
  import opened LogicalImmTheory
  import Residues

  predicate OnRun(i: nat, r: nat, s: nat, w: nat)
    requires w > 0
  {
    (i + r) % w <= s
  }

  /** The bits of a word, read as a value and as its own encoding with elements of `2^len` bits. */
  ghost predicate OwnEncoding(lit: u32, len: nat, r: nat, s: nat) {
    && 1 <= len <= 6
    && s == Low(lit, len) < Pow2(len) - 1
    && r == Low(Shr(lit, 6), len)
    && (len < 6 ==> !Bit(lit, len))
    && (forall i: nat :: len < i < 6 ==> Bit(lit, i))
    && (len == 6 ==> Bit(lit, 12))
    && (forall i: nat :: i < (if len == 6 then 64 else 32) ==> (Bit(lit, i) <==> OnRun(i, r, s, Pow2(len))))
  }

  function Digit(on: bool, n: nat): nat {
    if on then n else 0
  }

  /** The low digits of a word. */
  lemma LowDigits(v: nat)
    ensures Low(v, 1) == Digit(Bit(v, 0), 1)
    ensures Low(v, 2) == Low(v, 1) + Digit(Bit(v, 1), 2)
    ensures Low(v, 3) == Low(v, 2) + Digit(Bit(v, 2), 4)
    ensures Low(v, 4) == Low(v, 3) + Digit(Bit(v, 3), 8)
    ensures Low(v, 5) == Low(v, 4) + Digit(Bit(v, 4), 16)
    ensures Low(v, 6) == Low(v, 5) + Digit(Bit(v, 5), 32)
  {
    Sizes();
    assert Low(v, 0) == 0;
    hide Low, Bit, Pow2;
    LowTop(v, 0);
    LowTop(v, 1);
    LowTop(v, 2);
    LowTop(v, 3);
    LowTop(v, 4);
    LowTop(v, 5);
  }

  lemma Sizes()
    ensures Pow2(0) == 1 && Pow2(1) == 2 && Pow2(2) == 4 && Pow2(3) == 8 && Pow2(4) == 16 && Pow2(5) == 32 && Pow2(6) == 64
  {
  }

  /** The rotation is spelt by bits 6 to 11. */
  lemma RotationDigits(v: nat)
    ensures var w := Shr(v, 6);
            && Low(w, 1) == Digit(Bit(v, 6), 1)
            && Low(w, 2) == Low(w, 1) + Digit(Bit(v, 7), 2)
            && Low(w, 3) == Low(w, 2) + Digit(Bit(v, 8), 4)
            && Low(w, 4) == Low(w, 3) + Digit(Bit(v, 9), 8)
            && Low(w, 5) == Low(w, 4) + Digit(Bit(v, 10), 16)
            && Low(w, 6) == Low(w, 5) + Digit(Bit(v, 11), 32)
  {
    hide Low, Bit, Shr;
    LowDigits(Shr(v, 6));
    BitShr(v, 6, 0);
    BitShr(v, 6, 1);
    BitShr(v, 6, 2);
    BitShr(v, 6, 3);
    BitShr(v, 6, 4);
    BitShr(v, 6, 5);
  }

  // ---- runs that spell their own length and rotation

  /** The low digits of a run's element. */
  function Spelt(from: nat, count: nat, r: nat, s: nat, w: nat): nat
    requires w > 0 && count <= 6
  {
    (if count > 0 then Digit(OnRun(from, r, s, w), 1) else 0)
    + (if count > 1 then Digit(OnRun(from + 1, r, s, w), 2) else 0)
    + (if count > 2 then Digit(OnRun(from + 2, r, s, w), 4) else 0)
    + (if count > 3 then Digit(OnRun(from + 3, r, s, w), 8) else 0)
    + (if count > 4 then Digit(OnRun(from + 4, r, s, w), 16) else 0)
    + (if count > 5 then Digit(OnRun(from + 5, r, s, w), 32) else 0)
  }

  lemma Run2(r: nat, s: nat)
    ensures !(!OnRun(1, r, s, 2) && OnRun(3, r, s, 2))
  {
  }

  lemma Run4(r: nat, s: nat)
    requires s < 3 && s == Spelt(0, 2, r, s, 4)
    ensures !(OnRun(4, r, s, 4) && OnRun(5, r, s, 4))
  {
    assert (4 + r) % 4 == r % 4 && (5 + r) % 4 == (1 + r) % 4;
  }

  lemma Run8(r: nat, s: nat)
    requires r < 8 && s < 7 && r == Spelt(6, 3, r, s, 8)
    ensures !(!OnRun(3, r, s, 8) && OnRun(4, r, s, 8))
  {
  }

  lemma Run16(r: nat, s: nat)
    requires r < 16 && s < 15 && r == Spelt(6, 4, r, s, 16)
    ensures !(!OnRun(4, r, s, 16) && OnRun(5, r, s, 16))
  {
  }

  lemma Turned(i: nat, r: nat, s: nat, w: nat)
    requires i < w && r < w
    ensures OnRun(i, r, s, w) <==> (if i + r < w then i + r else i + r - w) <= s
  {
    Residues.Unique(i + r, if i + r < w then 0 else 1, if i + r < w then i + r else i + r - w, w);
  }

  lemma Run32(r: nat, s: nat)
    requires r < 32 && s < 31 && s == Spelt(0, 5, r, s, 32) && r == Spelt(6, 5, r, s, 32)
    ensures OnRun(5, r, s, 32)
  {
    forall i: nat | i <= 10 { Turned(i, r, s, 32); }
    hide OnRun;
  }

  lemma Run64(r: nat, s: nat)
    requires r < 64 && s < 63 && s == Spelt(0, 6, r, s, 64) && r == Spelt(6, 6, r, s, 64) && OnRun(12, r, s, 64)
    ensures OnRun(63, r, s, 64) || OnRun(32, r, s, 64)
  {
    forall i: nat | i <= 12 || i == 32 || i == 63 { Turned(i, r, s, 64); }
    hide OnRun;
  }

  // ---- the encoding of a value is another word

  lemma Own2(lit: u32, r: nat, s: nat)
    ensures !OwnEncoding(lit, 1, r, s)
  {
    Sizes();
    Run2(r, s);
    hide OnRun, Low, Bit, Shr, Pow2;
  }

  lemma Own4(lit: u32, r: nat, s: nat)
    ensures !OwnEncoding(lit, 2, r, s)
  {
    Sizes();
    LowDigits(lit);
    if s < 3 && s == Spelt(0, 2, r, s, 4) { Run4(r, s); }
    hide OnRun, Low, Bit, Shr, Pow2;
  }

  lemma Own8(lit: u32, r: nat, s: nat)
    ensures !OwnEncoding(lit, 3, r, s)
  {
    Sizes();
    RotationDigits(lit);
    if r < 8 && s < 7 && r == Spelt(6, 3, r, s, 8) { Run8(r, s); }
    hide OnRun, Low, Bit, Shr, Pow2;
  }

  lemma Own16(lit: u32, r: nat, s: nat)
    ensures !OwnEncoding(lit, 4, r, s)
  {
    Sizes();
    RotationDigits(lit);
    if r < 16 && s < 15 && r == Spelt(6, 4, r, s, 16) { Run16(r, s); }
    hide OnRun, Low, Bit, Shr, Pow2;
  }

  /** Where the low bits of a word follow a run, its low digits spell the run. */
  lemma Spelling(v: nat, from: nat, count: nat, r: nat, s: nat, w: nat)
    requires w > 0 && 1 <= count <= 6 && forall i: nat :: i < count ==> (Bit(v, i) <==> OnRun(from + i, r, s, w))
    ensures Low(v, count) == Spelt(from, count, r, s, w)
  {
    LowDigits(v);
    assert Bit(v, 0) == OnRun(from + 0, r, s, w);
    hide OnRun, Low, Bit;
  }

  /** The run and the rotation of a word that is its own encoding. */
  lemma OwnSpelling(lit: u32, len: nat, r: nat, s: nat)
    requires OwnEncoding(lit, len, r, s)
    ensures s == Spelt(0, len, r, s, Pow2(len)) && r == Spelt(6, len, r, s, Pow2(len))
  {
    hide OnRun, Low, Bit, Shr, Pow2, Spelt;
    Spelling(lit, 0, len, r, s, Pow2(len));
    forall i: nat | i < len ensures Bit(Shr(lit, 6), i) <==> OnRun(6 + i, r, s, Pow2(len)) { BitShr(lit, 6, i); }
    Spelling(Shr(lit, 6), 6, len, r, s, Pow2(len));
  }

  lemma SmallRotation(lit: u32, len: nat, r: nat, s: nat)
    requires OwnEncoding(lit, len, r, s)
    ensures r < Pow2(len)
  {
    LowAtMost(Shr(lit, 6), len);
  }

  lemma Own32(lit: u32, r: nat, s: nat)
    ensures !OwnEncoding(lit, 5, r, s)
  {
    Sizes();
    hide OnRun, Low, Bit, Shr, Pow2, Spelt;
    if OwnEncoding(lit, 5, r, s) {
      OwnSpelling(lit, 5, r, s);
      SmallRotation(lit, 5, r, s);
      Run32(r, s);
    }
  }

  lemma Own64(lit: u32, r: nat, s: nat)
    ensures !OwnEncoding(lit, 6, r, s)
  {
    Sizes();
    WordSizes();
    BitAbove(lit, 32, 32);
    BitAbove(lit, 32, 63);
    hide OnRun, Low, Bit, Shr, Pow2, Spelt;
    if OwnEncoding(lit, 6, r, s) {
      OwnSpelling(lit, 6, r, s);
      SmallRotation(lit, 6, r, s);
      Run64(r, s);
    }
  }

  lemma NotOwn(lit: u32, len: nat, r: nat, s: nat)
    ensures !OwnEncoding(lit, len, r, s)
  {
    Own2(lit, r, s);
    Own4(lit, r, s);
    Own8(lit, r, s);
    Own16(lit, r, s);
    Own32(lit, r, s);
    Own64(lit, r, s);
    hide OnRun, Low, Bit, Shr, Pow2;
  }

  /** A word that decoded to itself would be its own encoding. */
  lemma DecodedToItself(lit: u32, regWidth: nat)
    requires Decode(lit, regWidth) == Some(lit)
    ensures ShapeOf(lit, regWidth).Some? && LengthOf(lit) >= 1
    ensures var shape := ShapeOf(lit, regWidth).value; OwnEncoding(lit, LengthOf(lit), shape.r, shape.s)
  {
    hide ShapeOf, ValueOf, LengthOf, Low, Bit, Shr, And, Pow2, InRun, FieldImms, FieldImmr, OnRun;
    ShapeFacts(lit, regWidth);
    ShapeIsValid(lit, regWidth);
    var shape, len := ShapeOf(lit, regWidth).value, LengthOf(lit);
    EncodingBits(lit);
    SizeOrder(len);
    LowAtMost(lit, len);
    FieldDigits(lit, len);
    forall i: nat | i < (if len == 6 then 64 else 32) ensures Bit(lit, i) <==> OnRun(i, shape.r, shape.s, Pow2(len)) {
      BitOfValue(shape, regWidth, i);
      RunIsOnRun(shape, i);
    }
  }

  lemma RunIsOnRun(shape: Shape, i: nat)
    requires shape.width > 0
    ensures InRun(shape, i) <==> OnRun(i, shape.r, shape.s, shape.width)
  {
    Residues.RemIsMod(i + shape.r, shape.width);
  }

  lemma SizeOrder(len: nat)
    ensures Pow2(len) <= 32 ==> len <= 5
    ensures Pow2(len) <= 64 ==> len <= 6
    ensures len == 6 ==> Pow2(len) == 64
  {
    Sizes();
    hide Pow2;
    if len >= 6 { Pow2Monotone(6, len); }
    if len >= 7 {
      Pow2Monotone(7, len);
      Pow2Add(6, 1);
    }
  }

  /** The digits of the two fields are digits of the word. */
  lemma FieldDigits(lit: u32, len: nat)
    ensures len <= 6 ==> Low(FieldImms(lit), len) == Low(lit, len) && Low(FieldImmr(lit), len) == Low(Shr(lit, 6), len)
  {
    if len <= 6 {
      assert Ones(6) == 0x3f;
      hide Low, Bit, Shr, And, Pow2;
      AndOnes(lit, 6);
      AndOnes(Shr(lit, 6), 6);
      LowOfLow(lit, 6, len);
      LowOfLow(Shr(lit, 6), 6, len);
    }
  }

  lemma LowOfLow(v: nat, m: nat, n: nat)
    requires n <= m
    ensures Low(Low(v, m), n) == Low(v, n)
  {
    hide Low, Bit;
    LowBits(v, m);
    LowBits(v, n);
    LowBits(Low(v, m), n);
    SameBits(Low(Low(v, m), n), Low(v, n));
  }

  /** The bits of `N` and `imms` around the element length. */
  lemma EncodingBits(lit: u32)
    requires LengthOf(lit) >= 1
    ensures var len := LengthOf(lit);
            && (len < 6 ==> !Bit(lit, len))
            && (forall i: nat :: len < i < 6 ==> Bit(lit, i))
            && (len == 6 ==> Bit(lit, 12))
  {
    assert Ones(6) == 0x3f && Ones(1) == 1;
    var len := LengthOf(lit);
    assert Bit(LengthBits(lit), len) && forall i: nat :: i > len ==> !Bit(LengthBits(lit), i);
    hide LengthOf, Low, Bit, Shr, And, Pow2, LengthBits, Ones;
    LengthBitsSmall(lit);
    AndOnes(lit, 6);
    LowBits(lit, 6);
    TwelfthBit(lit);
  }

  lemma TwelfthBit(lit: u32)
    ensures FieldN(lit) == Digit(Bit(lit, 12), 1)
  {
    Sizes();
    assert Ones(1) == 1 && Low(Shr(lit, 12), 0) == 0;
    hide Low, Bit, Shr, And, Pow2, Ones;
    AndOnes(Shr(lit, 12), 1);
    LowTop(Shr(lit, 12), 0);
    BitShr(lit, 12, 0);
  }

  /** No word decodes to itself, at either register width. */
  lemma NeverItself(lit: u32, regWidth: nat)
    ensures Decode(lit, regWidth).Some? ==> Decode(lit, regWidth).value != lit
  {
    hide Decode, OwnEncoding, ShapeOf, LengthOf;
    if Decode(lit, regWidth) == Some(lit) {
      DecodedToItself(lit, regWidth);
      var shape := ShapeOf(lit, regWidth).value;
      NotOwn(lit, LengthOf(lit), shape.r, shape.s);
    }
  }
}
