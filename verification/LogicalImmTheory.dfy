/** What the logical immediates are: a run of `s + 1` ones in an element of `width` bits, rotated
    right by `r`, repeated over the register.  Shapes and values correspond one to one. */
module LogicalImmTheory {
  import opened Bits
  import opened Wrappers
  import opened LogicalImm
  import opened Residues
  import opened Immediates

  predicate IsWidth(w: nat) {
    w == 2 || w == 4 || w == 8 || w == 16 || w == 32 || w == 64
  }

  predicate ValidShape(shape: Shape, regWidth: nat) {
    && (regWidth == 32 || regWidth == 64)
    && IsWidth(shape.width) && shape.width <= regWidth
    && shape.s < shape.width - 1
    && shape.r < shape.width
  }

  /** Position `i` of the register falls in a run of ones. */
  predicate InRun(shape: Shape, i: nat)
    requires shape.width > 0
  {
    Rem(i + shape.r, shape.width) <= shape.s
  }

  // ---- the shape of an encoding

  /** The highest bit of `N : NOT(imms)`. */
  function LengthOf(encoded: u32): (len: int)
    ensures -1 <= len <= 6
    ensures len >= 0 ==> Bit(LengthBits(encoded), len)
    ensures forall i: nat :: i > len ==> !Bit(LengthBits(encoded), i)
  {
    LengthBitsSmall(encoded);
    HighestIsTop(LengthBits(encoded), 31);
    assert forall i: nat :: i > 6 ==> !Bit(LengthBits(encoded), i);
    HighestSetBit(LengthBits(encoded))
  }

  lemma WidthOfLength(len: nat)
    requires 1 <= len <= 6
    ensures IsWidth(Pow2(len))
  {
    assert len == 1 || len == 2 || len == 3 || len == 4 || len == 5 || len == 6;
  }

  /** An accepted encoding, field by field. */
  lemma ShapeFacts(encoded: u32, regWidth: nat)
    requires ShapeOf(encoded, regWidth).Some?
    ensures var shape, len := ShapeOf(encoded, regWidth).value, LengthOf(encoded);
            && len >= 1
            && shape.width == Pow2(len) <= regWidth
            && shape.s == Low(FieldImms(encoded), len) != shape.width - 1
            && shape.r == Low(FieldImmr(encoded), len)
    ensures regWidth == 32 || regWidth == 64
  {
    hide And, Or, AndNot, Shl, Shr, Low, Bit, HighestFrom;
    AndOnes(FieldImms(encoded), LengthOf(encoded));
    AndOnes(FieldImmr(encoded), LengthOf(encoded));
  }

  lemma ShapeIsValid(encoded: u32, regWidth: nat)
    ensures var shape := ShapeOf(encoded, regWidth); shape.Some? ==> ValidShape(shape.value, regWidth)
  {
    hide ShapeOf;
    if ShapeOf(encoded, regWidth).Some? {
      ShapeFacts(encoded, regWidth);
      var len := LengthOf(encoded);
      WidthOfLength(len);
      LowShr(FieldImms(encoded), len);
      LowShr(FieldImmr(encoded), len);
    }
  }

  // ---- the bits of a value

  lemma BitOfRor(v: nat, width: nat, r: nat, i: nat)
    requires 0 < width <= 64 && r < width && v < Pow2(width)
    ensures Bit(RorWidth(v, width, r), i) <==> i < width && Bit(v, Rem(i + r, width))
    ensures RorWidth(v, width, r) < Pow2(width)
  {
    AndOnes(v, width);
    LowSmall(v, width);
    RemIsMod(r, width);
    if r == 0 {
      if i >= width { BitAbove(v, width, i); }
    } else {
      var hi, lo := Low(Shl(v, width - r), 64), Shr(v, r);
      AndOnes(Or(lo, hi), width);
      LowShr(Or(lo, hi), width);
      BitLow(Or(lo, hi), width, i);
      BitOr(lo, hi, i);
      BitShr(v, r, i);
      BitLow(Shl(v, width - r), 64, i);
      BitShl(v, width - r, i);
      if i + r >= width { BitAbove(v, width, i + r); }
    }
  }

  lemma {:induction false} BitOfCopies(v: nat, width: nat, regWidth: nat, offset: nat, i: nat)
    requires 0 < width && v < Pow2(width) && regWidth <= 64
    requires Rem(offset, width) == 0 && Rem(regWidth, width) == 0
    ensures Bit(CopiesFrom(v, width, regWidth, offset), i) <==> offset <= i < regWidth && Bit(v, Rem(i, width))
    decreases regWidth - offset
  {
    if offset >= regWidth {
      BitZero(i);
    } else {
      assert Rem(offset + width, width) == 0;
      if offset + width > regWidth { SameRem(offset, regWidth - offset, width); }
      BitOfCopies(v, width, regWidth, offset + width, i);
      BitOr(Low(Shl(v, offset), 64), CopiesFrom(v, width, regWidth, offset + width), i);
      BitLow(Shl(v, offset), 64, i);
      BitShl(v, offset, i);
      if offset <= i < offset + width {
        RemOfSum(offset, i - offset, width);
      } else if offset + width <= i {
        BitAbove(v, width, i - offset);
      }
    }
  }

  lemma WidthDivides(width: nat, regWidth: nat)
    requires IsWidth(width) && width <= regWidth && (regWidth == 32 || regWidth == 64)
    ensures Rem(regWidth, width) == 0
  {
    RemIsMod(regWidth, width);
  }

  lemma BitOfReplicate(v: nat, width: nat, regWidth: nat, i: nat)
    requires IsWidth(width) && width <= regWidth && (regWidth == 32 || regWidth == 64)
    requires v < Pow2(width)
    ensures Bit(Replicate(v, width, regWidth), i) <==> i < regWidth && Bit(v, Rem(i, width))
    ensures Replicate(v, width, regWidth) < Pow2(regWidth)
  {
    hide CopiesFrom;
    WidthDivides(width, regWidth);
    AndOnes(v, width);
    LowSmall(v, width);
    var copies := CopiesFrom(v, width, regWidth, 0);
    forall j: nat | j >= regWidth ensures !Bit(copies, j) { BitOfCopies(v, width, regWidth, 0, j); }
    BelowPow2(copies, regWidth);
    AndOnes(copies, regWidth);
    LowSmall(copies, regWidth);
    BitOfCopies(v, width, regWidth, 0, i);
  }

  lemma BitOfElement(shape: Shape, element: nat, regWidth: nat, j: nat)
    requires ValidShape(shape, regWidth) && element == RorWidth(Ones(shape.s + 1), shape.width, shape.r)
    ensures Bit(element, j) <==> j < shape.width && InRun(shape, j)
    ensures element < Pow2(shape.width)
  {
    hide RorWidth;
    Pow2Monotone(shape.s + 1, shape.width);
    BitOfRor(Ones(shape.s + 1), shape.width, shape.r, j);
    BitOnes(shape.s + 1, Rem(j + shape.r, shape.width));
  }

  /** The bits of a value are exactly the positions in the run. */
  lemma BitOfValue(shape: Shape, regWidth: nat, i: nat)
    requires ValidShape(shape, regWidth)
    ensures Bit(ValueOf(shape, regWidth), i) <==> i < regWidth && InRun(shape, i)
    ensures ValueOf(shape, regWidth) < Pow2(regWidth)
  {
    hide RorWidth, Replicate, Bit, Ones, Pow2, Rem;
    var element := RorWidth(Ones(shape.s + 1), shape.width, shape.r);
    BitOfElement(shape, element, regWidth, Rem(i, shape.width));
    BitOfReplicate(element, shape.width, regWidth, i);
    RemOfSum(i, shape.r, shape.width);
  }

  lemma WidthPositive(shape: Shape, regWidth: nat)
    requires ValidShape(shape, regWidth)
    ensures shape.width > 0
  {
  }

  /** The value has period `width` across the register. */
  lemma Periodic(shape: Shape, regWidth: nat, i: nat)
    requires ValidShape(shape, regWidth) && i + shape.width < regWidth
    ensures Bit(ValueOf(shape, regWidth), i + shape.width) == Bit(ValueOf(shape, regWidth), i)
  {
    hide ValueOf, Bit, Rem, IsWidth;
    assert shape.width > 0 by { WidthPositive(shape, regWidth); }
    BitOfValue(shape, regWidth, i);
    BitOfValue(shape, regWidth, i + shape.width);
    Turn(i + shape.r, shape.width);
    assert i + shape.width + shape.r == i + shape.r + shape.width;
  }

  // ---- how many ones

  /** How many of the low `n` bits of `v` are set. */
  function PopCount(v: nat, n: nat): nat {
    if n == 0 then 0 else PopCount(v, n - 1) + (if Bit(v, n - 1) then 1 else 0)
  }

  /** How many of the positions `lo .. lo + n` are in the run. */
  function RunCount(shape: Shape, lo: nat, n: nat): nat
    requires shape.width > 0
  {
    if n == 0 then 0 else RunCount(shape, lo, n - 1) + (if InRun(shape, lo + n - 1) then 1 else 0)
  }

  lemma {:induction false} RunCountSplit(shape: Shape, lo: nat, m: nat, n: nat)
    requires shape.width > 0
    ensures RunCount(shape, lo, m + n) == RunCount(shape, lo, m) + RunCount(shape, lo + m, n)
    decreases n
  {
    if n > 0 { RunCountSplit(shape, lo, m, n - 1); }
  }

  /** A window of one element holds the same number of ones wherever it starts. */
  lemma {:induction false} WindowInvariant(shape: Shape, lo: nat)
    requires shape.width > 0
    ensures RunCount(shape, lo, shape.width) == RunCount(shape, 0, shape.width)
    decreases lo
  {
    if lo > 0 {
      WindowInvariant(shape, lo - 1);
      RunCountSplit(shape, lo - 1, 1, shape.width - 1);
      assert RunCount(shape, lo - 1, 1) == RunCount(shape, lo - 1, 0) + (if InRun(shape, lo - 1) then 1 else 0);
      assert InRun(shape, lo - 1 + shape.width) == InRun(shape, lo - 1);
    }
  }

  lemma {:induction false} WindowFromStart(shape: Shape, lo: nat, n: nat)
    requires shape.width > 0 && Rem(lo + shape.r, shape.width) == 0 && n <= shape.width
    ensures RunCount(shape, lo, n) == if n <= shape.s + 1 then n else shape.s + 1
    decreases n
  {
    if n > 0 {
      WindowFromStart(shape, lo, n - 1);
      RemOfSum(lo + shape.r, n - 1, shape.width);
    }
  }

  lemma ElementCount(shape: Shape, lo: nat)
    requires shape.r < shape.width && shape.s < shape.width - 1
    ensures RunCount(shape, lo, shape.width) == shape.s + 1
  {
    var start := shape.width - shape.r;
    WindowFromStart(shape, start, shape.width);
    WindowInvariant(shape, start);
    WindowInvariant(shape, lo);
  }

  lemma {:induction false} ElementsCount(shape: Shape, q: nat)
    requires shape.r < shape.width && shape.s < shape.width - 1
    ensures RunCount(shape, 0, q * shape.width) == q * (shape.s + 1)
    decreases q
  {
    hide RunCount;
    if q == 0 {
      NoElements(shape);
    } else {
      ElementsCount(shape, q - 1);
      NextMultiple(q, shape.width);
      NextMultiple(q, shape.s + 1);
      RunCountSplit(shape, 0, (q - 1) * shape.width, shape.width);
      ElementCount(shape, (q - 1) * shape.width);
    }
  }

  lemma NoElements(shape: Shape)
    requires shape.width > 0
    ensures RunCount(shape, 0, 0) == 0
  {
  }

  lemma NextMultiple(q: nat, w: nat)
    requires q > 0
    ensures q * w == (q - 1) * w + w
  {
  }

  lemma {:induction false} PopCountIsRunCount(v: nat, shape: Shape, n: nat)
    requires shape.width > 0 && forall i: nat :: i < n ==> (Bit(v, i) <==> InRun(shape, i))
    ensures PopCount(v, n) == RunCount(shape, 0, n)
    decreases n
  {
    if n > 0 { PopCountIsRunCount(v, shape, n - 1); }
  }

  lemma ElementsFill(width: nat, regWidth: nat)
    requires IsWidth(width) && width <= regWidth && (regWidth == 32 || regWidth == 64)
    ensures (regWidth / width) * width == regWidth
  {
  }

  /** A value has exactly `(regWidth / width) * (s + 1)` ones. */
  lemma OnesCount(shape: Shape, regWidth: nat)
    requires ValidShape(shape, regWidth)
    ensures PopCount(ValueOf(shape, regWidth), regWidth) == (regWidth / shape.width) * (shape.s + 1)
  {
    hide ValueOf, InRun, Bit, PopCount, RunCount;
    var v := ValueOf(shape, regWidth);
    forall i: nat | i < regWidth ensures Bit(v, i) <==> InRun(shape, i) { BitOfValue(shape, regWidth, i); }
    PopCountIsRunCount(v, shape, regWidth);
    ElementsCount(shape, regWidth / shape.width);
    ElementsFill(shape.width, regWidth);
  }

  /** So it is never zero and never all ones. */
  lemma NeverTrivial(shape: Shape, regWidth: nat)
    requires ValidShape(shape, regWidth)
    ensures 0 < ValueOf(shape, regWidth) < Ones(regWidth)
  {
    hide ValueOf, Bit;
    var start := RunStart(shape);
    var last := RunStop(shape);
    BitOfValue(shape, regWidth, start);
    BitOfValue(shape, regWidth, last);
    BitZero(start);
    BitOnes(regWidth, last);
  }

  // ---- one shape per value

  /** The first position of the run, in the first element. */
  function RunStart(shape: Shape): (at: nat)
    requires shape.r < shape.width
    ensures at < shape.width && Rem(at + shape.r, shape.width) == 0
  {
    if shape.r == 0 then 0 else shape.width - shape.r
  }

  /** The last position of an element before the run starts again. */
  function RunStop(shape: Shape): (at: nat)
    requires shape.r < shape.width
    ensures at < shape.width && Rem(at + shape.r, shape.width) == shape.width - 1
  {
    shape.width - 1 - shape.r
  }

  ghost predicate SameRuns(a: Shape, b: Shape, regWidth: nat)
    requires a.width > 0 && b.width > 0
  {
    forall i: nat :: i < regWidth ==> (InRun(a, i) <==> InRun(b, i))
  }

  lemma BeforeRem(shape: Shape, regWidth: nat, at: nat)
    requires ValidShape(shape, regWidth) && at < regWidth
    ensures var before := if at == 0 then regWidth - 1 else at - 1;
            Rem(at + shape.r, shape.width) ==
              if Rem(before + shape.r, shape.width) == shape.width - 1 then 0
              else Rem(before + shape.r, shape.width) + 1
  {
    if at == 0 {
      WidthDivides(shape.width, regWidth);
      RemOfSum(regWidth, shape.r, shape.width);
      Succ(regWidth - 1 + shape.r, shape.width);
    } else {
      Succ(at - 1 + shape.r, shape.width);
    }
  }

  /** Where one shape starts a run, every shape with the same ones starts a run. */
  lemma StartsAgree(a: Shape, b: Shape, regWidth: nat, at: nat)
    requires ValidShape(a, regWidth) && ValidShape(b, regWidth) && SameRuns(a, b, regWidth)
    requires at < regWidth && Rem(at + a.r, a.width) == 0
    ensures Rem(at + b.r, b.width) == 0
  {
    var before := if at == 0 then regWidth - 1 else at - 1;
    BeforeRem(a, regWidth, at);
    BeforeRem(b, regWidth, at);
    assert InRun(a, at) && InRun(b, at);
    assert !InRun(a, before) && !InRun(b, before);
  }

  lemma NarrowerFits(a: nat, b: nat, regWidth: nat)
    requires IsWidth(a) && IsWidth(b) && a < b <= regWidth
    ensures 2 * a <= regWidth
  {
  }

  lemma WidthsOrdered(a: Shape, b: Shape, regWidth: nat)
    requires ValidShape(a, regWidth) && ValidShape(b, regWidth) && SameRuns(a, b, regWidth)
    ensures a.width >= b.width
  {
    if a.width < b.width {
      var at := RunStart(a);
      NarrowerFits(a.width, b.width, regWidth);
      StartsAgree(a, b, regWidth, at);
      StartsAgree(a, b, regWidth, at + a.width);
      SameRem(at + b.r, a.width, b.width);
    }
  }

  lemma RotationsOrdered(a: Shape, b: Shape, regWidth: nat)
    requires ValidShape(a, regWidth) && ValidShape(b, regWidth) && SameRuns(a, b, regWidth)
    requires a.width == b.width
    ensures a.r >= b.r
  {
    if a.r < b.r {
      StartsAgree(a, b, regWidth, RunStart(a));
      SameRem(RunStart(a) + a.r, b.r - a.r, a.width);
    }
  }

  lemma LengthsOrdered(a: Shape, b: Shape, regWidth: nat)
    requires ValidShape(a, regWidth) && ValidShape(b, regWidth) && SameRuns(a, b, regWidth)
    requires a.width == b.width && a.r == b.r
    ensures a.s <= b.s
  {
    var start := RunStart(a);
    RemOfSum(start + a.r, a.s, a.width);
    var i := if start + a.s < a.width then start + a.s else start + a.s - a.width;
    assert Rem(i + a.r, a.width) == a.s;
    assert InRun(a, i) && InRun(b, i);
  }

  /** Two shapes of one value are the same shape. */
  lemma ShapeUnique(a: Shape, b: Shape, regWidth: nat)
    requires ValidShape(a, regWidth) && ValidShape(b, regWidth)
    requires ValueOf(a, regWidth) == ValueOf(b, regWidth)
    ensures a == b
  {
    hide ValueOf;
    forall i: nat | i < regWidth ensures InRun(a, i) <==> InRun(b, i) {
      BitOfValue(a, regWidth, i);
      BitOfValue(b, regWidth, i);
    }
    WidthsOrdered(a, b, regWidth);
    WidthsOrdered(b, a, regWidth);
    RotationsOrdered(a, b, regWidth);
    RotationsOrdered(b, a, regWidth);
    LengthsOrdered(a, b, regWidth);
    LengthsOrdered(b, a, regWidth);
  }

  // ---- encodings of one value

  /** The fields of a 13-bit encoding are its digits. */
  lemma FieldsAreDigits(encoded: u32)
    requires encoded < 0x2000
    ensures FieldN(encoded) == encoded / 4096
    ensures FieldImmr(encoded) == encoded / 64 % 64
    ensures FieldImms(encoded) == encoded % 64
  {
    hide And, Shr, Low;
    AndOnes(encoded, 6);
    LowIsMod(encoded, 6);
    AndOnes(Shr(encoded, 6), 6);
    LowIsMod(Shr(encoded, 6), 6);
    AndOnes(Shr(encoded, 12), 1);
    LowIsMod(encoded, 12);
    LowSmall(Shr(encoded, 12), 1);
  }

  lemma {:induction false} Pow2Injective(a: nat, b: nat)
    requires Pow2(a) == Pow2(b)
    ensures a == b
  {
    if a < b { Pow2Monotone(a + 1, b); } else if b < a { Pow2Monotone(b + 1, a); }
  }

  /** The element width and the run length determine `N` and `imms`. */
  lemma FieldsOfShape(a: u32, b: u32, regWidth: nat)
    requires ShapeOf(a, regWidth).Some? && ShapeOf(b, regWidth).Some?
    requires ShapeOf(a, regWidth).value.width == ShapeOf(b, regWidth).value.width
    requires ShapeOf(a, regWidth).value.s == ShapeOf(b, regWidth).value.s
    ensures FieldN(a) == FieldN(b) && FieldImms(a) == FieldImms(b)
  {
    hide ShapeOf, LengthBits, FieldN, FieldImms, FieldImmr, Bit, Low, Pow2;
    ShapeFacts(a, regWidth);
    ShapeFacts(b, regWidth);
    var len := LengthOf(a);
    Pow2Injective(LengthOf(a), LengthOf(b));
    LengthBitsSmall(a);
    LengthBitsSmall(b);
    FieldsSmall(a);
    FieldsSmall(b);
    assert Bit(LengthBits(a), 6) == Bit(LengthBits(b), 6);
    SameFromLength(FieldImms(a), FieldImms(b), len);
  }

  /** Six-bit words that agree below `len`, are clear at `len`, and set above it. */
  lemma SameFromLength(s: nat, t: nat, len: nat)
    requires s < 64 && t < 64 && Low(s, len) == Low(t, len)
    requires forall i: nat :: len <= i < 6 ==> Bit(s, i) == Bit(t, i)
    ensures s == t
  {
    LowBits(s, len);
    LowBits(t, len);
    forall i: nat ensures Bit(s, i) == Bit(t, i) {
      if i < len {
        assert Bit(Low(s, len), i) == Bit(Low(t, len), i);
      } else if i >= 6 {
        BitAbove(s, 6, i);
        BitAbove(t, 6, i);
      }
    }
    SameBits(s, t);
  }

  /** `immr` taken modulo the element width. */
  function Rotation(encoded: u32, regWidth: nat): nat
    requires ShapeOf(encoded, regWidth).Some?
  {
    FieldImmr(encoded) % ShapeOf(encoded, regWidth).value.width
  }

  lemma RotationIsR(encoded: u32, regWidth: nat)
    requires ShapeOf(encoded, regWidth).Some?
    ensures Rotation(encoded, regWidth) == ShapeOf(encoded, regWidth).value.r
    ensures Rotation(encoded, regWidth) <= FieldImmr(encoded) < 64
  {
    hide ShapeOf, FieldImmr, Low, LengthBits;
    ShapeFacts(encoded, regWidth);
    FieldsSmall(encoded);
    LowIsMod(FieldImmr(encoded), LengthOf(encoded));
    RemIsMod(FieldImmr(encoded), ShapeOf(encoded, regWidth).value.width);
    RemAtMost(FieldImmr(encoded), ShapeOf(encoded, regWidth).value.width);
  }

  /** The shape depends on the fields only, and on `immr` only through its low bits. */
  lemma ShapeFromFields(a: u32, b: u32, regWidth: nat)
    requires FieldN(a) == FieldN(b) && FieldImms(a) == FieldImms(b)
    requires ShapeOf(a, regWidth).Some? && FieldImmr(b) == ShapeOf(a, regWidth).value.r
    ensures ShapeOf(b, regWidth) == ShapeOf(a, regWidth)
  {
    hide FieldN, FieldImms, FieldImmr, And, Pow2, HighestSetBit;
    var len := LengthOf(a);
    ShapeFacts(a, regWidth);
    assert LengthBits(a) == LengthBits(b);
    LowShr(FieldImmr(a), len);
    AndOnes(FieldImmr(b), len);
    LowSmall(FieldImmr(b), len);
  }

  /** Two accepted encodings decode to one value exactly when they agree on `N`, on `imms`, and on
      `immr` modulo the element width. */
  lemma SameValueSameFields(a: u32, b: u32, regWidth: nat)
    requires ShapeOf(a, regWidth).Some? && ShapeOf(b, regWidth).Some?
    ensures Decode(a, regWidth) == Decode(b, regWidth) <==>
              && FieldN(a) == FieldN(b)
              && FieldImms(a) == FieldImms(b)
              && Rotation(a, regWidth) == Rotation(b, regWidth)
  {
    hide ValueOf;
    var p, q := ShapeOf(a, regWidth).value, ShapeOf(b, regWidth).value;
    ShapeIsValid(a, regWidth);
    ShapeIsValid(b, regWidth);
    RotationIsR(a, regWidth);
    RotationIsR(b, regWidth);
    if Decode(a, regWidth) == Decode(b, regWidth) {
      ShapeUnique(p, q, regWidth);
      FieldsOfShape(a, b, regWidth);
    }
    if FieldN(a) == FieldN(b) && FieldImms(a) == FieldImms(b) {
      assert LengthBits(a) == LengthBits(b);
    }
  }

  // ---- the encoder inverts the decoder


  /** The same encoding with `immr` reduced modulo the element width. */
  function Canonical(encoded: u32, regWidth: nat): u32
    requires ShapeOf(encoded, regWidth).Some?
  {
    FieldsSmall(encoded);
    RotationIsR(encoded, regWidth);
    FieldN(encoded) * 4096 + Rotation(encoded, regWidth) * 64 + FieldImms(encoded)
  }

  lemma CanonicalDecodes(encoded: u32, regWidth: nat)
    requires ShapeOf(encoded, regWidth).Some?
    ensures var c := Canonical(encoded, regWidth);
            && Decode(c, regWidth) == Decode(encoded, regWidth)
            && c < 0x2000
            && FieldN(c) == FieldN(encoded)
            && FieldImms(c) == FieldImms(encoded)
            && FieldImmr(c) == Rotation(encoded, regWidth)
  {
    hide ValueOf, ShapeOf, FieldN, FieldImms, FieldImmr, Rotation;
    FieldsSmall(encoded);
    RotationIsR(encoded, regWidth);
    FieldsAreDigits(Canonical(encoded, regWidth));
    ShapeFromFields(encoded, Canonical(encoded, regWidth), regWidth);
  }

  /** The source masks of the two logical-immediate transforms: thirteen bits, or twelve when the
      register is 32 bits wide and `N` must be zero. */
  predicate FullMask(mask: u32, regWidth: nat) {
    mask == 0x1fff || (mask == 0xfff && regWidth == 32)
  }

  lemma MaskLiterals()
    ensures Ones(13) == 0x1fff && Ones(12) == 0xfff
    ensures Pow2(13) == 0x2000 && Pow2(12) == 0x1000
  {
  }

  /** No encoding of the same value is below the canonical one. */
  lemma CanonicalBelow(encoded: u32, other: u32, regWidth: nat)
    requires encoded < 0x2000 && other < 0x2000
    requires Decode(encoded, regWidth).Some? && Decode(encoded, regWidth) == Decode(other, regWidth)
    ensures ShapeOf(encoded, regWidth).Some?
    ensures Canonical(encoded, regWidth) <= encoded && Canonical(encoded, regWidth) <= other
  {
    DecodeNeedsShape(encoded, regWidth);
    DecodeNeedsShape(other, regWidth);
    hide ValueOf, ShapeOf, FieldN, FieldImms, FieldImmr, Rotation, Decode;
    RotationIsR(encoded, regWidth);
    RotationIsR(other, regWidth);
    SameValueSameFields(encoded, other, regWidth);
    FieldsAreDigits(encoded);
    FieldsAreDigits(other);
    var rotation := Rotation(encoded, regWidth);
    DigitsOrder(encoded, FieldN(encoded), FieldImmr(encoded), FieldImms(encoded), rotation);
    DigitsOrder(other, FieldN(other), FieldImmr(other), FieldImms(other), rotation);
  }

  lemma DigitsOrder(encoded: u32, n: nat, immr: nat, imms: nat, rotation: nat)
    requires n == encoded / 4096 && immr == encoded / 64 % 64 && imms == encoded % 64 && rotation <= immr
    ensures n * 4096 + rotation * 64 + imms <= encoded
  {
  }

  lemma DecodeNeedsShape(encoded: u32, regWidth: nat)
    requires Decode(encoded, regWidth).Some?
    ensures ShapeOf(encoded, regWidth).Some?
  {
  }

  /** For a value that some encoding decodes to, the least encoding - which is the one the encoder
      returns - is that encoding in canonical form. */
  lemma LeastIsCanonical(encoded: u32, least: u32, wanted: nat, regWidth: nat, mask: u32)
    requires FullMask(mask, regWidth)
    requires Encodes(encoded, wanted, regWidth, mask) && Encodes(least, wanted, regWidth, mask)
    requires forall e: u32 :: Encodes(e, wanted, regWidth, mask) ==> least <= e
    ensures ShapeOf(encoded, regWidth).Some? && least == Canonical(encoded, regWidth)
  {
    hide Decode, ShapeOf, Canonical, AndNot, Pow2;
    MaskLiterals();
    Within(encoded, mask);
    Within(least, mask);
    CanonicalBelow(encoded, least, regWidth);
    var c := Canonical(encoded, regWidth);
    CanonicalDecodes(encoded, regWidth);
    InOnes(c, if mask == 0x1fff then 13 else 12);
    assert Encodes(c, wanted, regWidth, mask);
  }

  // ---- every run pattern has an encoding

  function ExponentOf(width: nat): (len: nat)
    requires IsWidth(width)
    ensures 1 <= len <= 6 && Pow2(len) == width
  {
    if width == 2 then 1 else if width == 4 then 2 else if width == 8 then 3
    else if width == 16 then 4 else if width == 32 then 5 else 6
  }

  /** Ones above bit `len`, a zero at bit `len`, and the run length below. */
  function ImmsFor(s: nat, len: nat): nat {
    Or(AndNot(0x3f, Ones(len + 1)), s)
  }

  lemma ImmsBits(s: nat, len: nat)
    requires 1 <= len <= 6 && s < Pow2(len)
    ensures ImmsFor(s, len) < 64 && Low(ImmsFor(s, len), len) == s
    ensures forall i: nat :: len < i < 6 ==> Bit(ImmsFor(s, len), i)
    ensures len < 6 ==> !Bit(ImmsFor(s, len), len)
  {
    var imms := ImmsFor(s, len);
    OrBits(AndNot(0x3f, Ones(len + 1)), s);
    AndNotBits(0x3f, Ones(len + 1));
    OnesBits(len + 1);
    OnesBits(6);
    assert Ones(6) == 0x3f;
    LowBits(imms, len);
    forall i: nat | i >= len ensures !Bit(s, i) { BitAbove(s, len, i); }
    SameBits(Low(imms, len), s);
    BelowPow2(imms, 6);
  }

  /** The encoding that the manual's field layout gives to a shape. */
  function EncodingFor(shape: Shape): (e: nat)
    requires ValidShape(shape, 64)
    ensures e < 0x2000
  {
    ImmsBits(shape.s, ExponentOf(shape.width));
    (if shape.width == 64 then 4096 else 0) + shape.r * 64 + ImmsFor(shape.s, ExponentOf(shape.width))
  }

  lemma EncodingFields(shape: Shape)
    requires ValidShape(shape, 64)
    ensures var e := EncodingFor(shape);
            && FieldN(e) == (if shape.width == 64 then 1 else 0)
            && FieldImmr(e) == shape.r
            && FieldImms(e) == ImmsFor(shape.s, ExponentOf(shape.width))
  {
    hide FieldN, FieldImmr, FieldImms, ImmsFor, ExponentOf, Low, Bit, Pow2;
    FieldsAreDigits(EncodingFor(shape));
    ImmsBits(shape.s, ExponentOf(shape.width));
    Digits(if shape.width == 64 then 1 else 0, shape.r, ImmsFor(shape.s, ExponentOf(shape.width)));
  }

  lemma Digits(n: nat, immr: nat, imms: nat)
    requires n <= 1 && immr < 64 && imms < 64
    ensures var e := 4096 * n + immr * 64 + imms;
            e / 4096 == n && e / 64 % 64 == immr && e % 64 == imms
  {
  }

  lemma EncodingLength(shape: Shape)
    requires ValidShape(shape, 64)
    ensures LengthOf(EncodingFor(shape)) == ExponentOf(shape.width)
  {
    hide FieldN, FieldImmr, FieldImms, ImmsFor, EncodingFor, LengthBits, Bit, HighestSetBit;
    var e, len := EncodingFor(shape), ExponentOf(shape.width);
    EncodingFields(shape);
    LengthBitsSmall(e);
    ImmsBits(shape.s, len);
    assert len == 6 <==> shape.width == 64;
    assert Bit(LengthBits(e), len);
  }

  /** Every valid shape is the shape of some encoding: the decodable values are exactly the
      rotated, replicated runs. */
  lemma EveryShapeEncodes(shape: Shape, regWidth: nat)
    requires ValidShape(shape, regWidth)
    ensures ShapeOf(EncodingFor(shape), regWidth) == Some(shape)
  {
    hide FieldN, FieldImmr, FieldImms, And, Low, Bit, HighestFrom, ImmsFor, EncodingFor, ExponentOf, LengthBits;
    var e, len := EncodingFor(shape), ExponentOf(shape.width);
    EncodingLength(shape);
    EncodingFields(shape);
    ImmsBits(shape.s, len);
    AndOnes(FieldImms(e), len);
    AndOnes(FieldImmr(e), len);
    LowSmall(FieldImmr(e), len);
  }

  /** The immediate as an unsigned number of the register's width. */
  function Unsigned(imm: i64, regWidth: nat): int {
    if imm >= 0 then imm else imm + if regWidth == 32 then U32 else U64
  }

  lemma WantedIsUnsigned(imm: i64, regWidth: nat)
    requires regWidth == 32 ==> -0x8000_0000 <= imm < U32
    ensures Wanted(imm, regWidth) == Unsigned(imm, regWidth)
  {
  }

  /** With a full source mask the encoder accepts exactly the rotated, replicated runs, and returns
      the canonical encoding of the run; a 32-bit one may be written with or without sign. */
  lemma EncoderAcceptsRuns(imm: i64, regWidth: nat, mask: u32)
    requires FullMask(mask, regWidth)
    ensures LogicalImmEncoding(imm, regWidth, mask).Some? <==>
              && (regWidth == 64 || (regWidth == 32 && -0x8000_0000 <= imm < 0x1_0000_0000))
              && exists shape :: ValidShape(shape, regWidth) && ValueOf(shape, regWidth) == Unsigned(imm, regWidth)
    ensures regWidth == 64 || (regWidth == 32 && -0x8000_0000 <= imm < 0x1_0000_0000) ==>
              forall shape :: ValidShape(shape, regWidth) && ValueOf(shape, regWidth) == Unsigned(imm, regWidth) ==>
                LogicalImmEncoding(imm, regWidth, mask) == Some(EncodingFor(shape))
  {
    if regWidth == 64 || (regWidth == 32 && -0x8000_0000 <= imm < U32) {
      hide LogicalImmEncoding, ValueOf, EncodingFor, Unsigned;
      WantedIsUnsigned(imm, regWidth);
      WantedRuns(imm, regWidth, mask);
    } else {
      EncoderMeaning(imm, regWidth, mask);
    }
  }

  lemma WantedRuns(imm: i64, regWidth: nat, mask: u32)
    requires FullMask(mask, regWidth) && Representable(imm, regWidth)
    ensures LogicalImmEncoding(imm, regWidth, mask).Some? <==>
              exists shape :: ValidShape(shape, regWidth) && ValueOf(shape, regWidth) == Wanted(imm, regWidth)
    ensures forall shape :: ValidShape(shape, regWidth) && ValueOf(shape, regWidth) == Wanted(imm, regWidth) ==>
              LogicalImmEncoding(imm, regWidth, mask) == Some(EncodingFor(shape))
  {
    hide ValueOf, ShapeOf, AndNot, Pow2, Wanted, EncodingFor;
    var wanted, out := Wanted(imm, regWidth), LogicalImmEncoding(imm, regWidth, mask);
    EncoderMeaning(imm, regWidth, mask);
    if out.Some? {
      ShapeIsValid(out.value, regWidth);
      assert ValueOf(ShapeOf(out.value, regWidth).value, regWidth) == wanted;
    }
    forall shape | ValidShape(shape, regWidth) && ValueOf(shape, regWidth) == wanted
      ensures out == Some(EncodingFor(shape))
    {
      var e := EncodingFor(shape);
      EveryShapeEncodes(shape, regWidth);
      MaskLiterals();
      EncodingInMask(shape, regWidth);
      InOnes(e, if mask == 0x1fff then 13 else 12);
      assert Encodes(e, wanted, regWidth, mask);
      LeastIsCanonical(e, out.value, wanted, regWidth, mask);
      EncodingIsCanonical(shape, regWidth);
    }
  }

  lemma EncodingInMask(shape: Shape, regWidth: nat)
    requires ValidShape(shape, regWidth)
    ensures EncodingFor(shape) < (if regWidth == 32 then 0x1000 else 0x2000)
  {
    ImmsBits(shape.s, ExponentOf(shape.width));
  }

  lemma EncodingIsCanonical(shape: Shape, regWidth: nat)
    requires ValidShape(shape, regWidth)
    ensures ShapeOf(EncodingFor(shape), regWidth).Some?
    ensures Canonical(EncodingFor(shape), regWidth) == EncodingFor(shape)
  {
    hide FieldN, FieldImmr, FieldImms, ImmsFor, ExponentOf, ShapeOf, Rotation;
    EveryShapeEncodes(shape, regWidth);
    EncodingFields(shape);
    RotationIsR(EncodingFor(shape), regWidth);
  }
}
