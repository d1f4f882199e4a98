/** The modified immediates of A32 (an eight-bit value rotated by an even amount) and of T32 (a
    replicated byte, or an eight-bit value with its top bit set, rotated). */
module ArmModifiedImm {
  import opened Bits
  import opened Rotation
  import opened Wrappers

  predicate IsWord(imm: int) {
    0 <= imm < U32
  }

  // ---- A32

  /** `arm_td_imm_value`, transform MOD_IMM. */
  function ModImmValue(field: nat): nat {
    MaskedByte(field);
    Ror32(And(field, 0xff), And(Shr(field, 8), 0x0f) * 2)
  }

  lemma MaskedByte(v: nat)
    ensures And(v, 0xff) == Low(v, 8) < 0x100
  {
    assert Ones(8) == 0xff && Pow2(8) == 0x100;
    hide Pow2, And, Low;
    AndOnes(v, 8);
    LowAtMost(v, 8);
  }

  /** The first rotation, counting up, that leaves eight bits and fits the mask. */
  function ModImmFrom(value: u32, mask: u32, rotate: nat): Option<nat>
    requires rotate <= 16
    decreases 16 - rotate
  {
    if rotate == 16 then None
    else
      var imm8 := Rol32(value, rotate * 2);
      var encoded := Or(Shl(rotate, 8), imm8);
      if AndNot(imm8, 0xff) == 0 && AndNot(encoded, mask) == 0 then Some(encoded)
      else ModImmFrom(value, mask, rotate + 1)
  }

  function ModImm(imm: int, mask: u32): Option<nat> {
    if IsWord(imm) then ModImmFrom(imm, mask, 0) else None
  }

  /** `arm_bf_mod_imm`. */
  method ModImmLoop(imm: int, mask: u32) returns (out: Option<nat>)
    ensures out == ModImm(imm, mask)
  {
    if !IsWord(imm) {
      return None;
    }
    var rotate := 0;
    while rotate < 16
      invariant 0 <= rotate <= 16
      invariant ModImm(imm, mask) == ModImmFrom(imm, mask, rotate)
    {
      var imm8 := Rol32(imm, rotate * 2);
      if AndNot(imm8, 0xff) == 0 {
        var encoded := Or(Shl(rotate, 8), imm8);
        if AndNot(encoded, mask) == 0 {
          return Some(encoded);
        }
      }
      rotate := rotate + 1;
    }
    return None;
  }

  lemma FitsByte(v: nat)
    ensures AndNot(v, 0xff) == 0 <==> v < 0x100
  {
    assert Ones(8) == 0xff && Pow2(8) == 0x100;
    hide Pow2, Bit;
    if AndNot(v, 0xff) == 0 {
      Within(v, 0xff);
    }
    if v < 0x100 {
      AndNotBits(v, 0xff);
      OnesBits(8);
      forall i: nat ensures Bit(AndNot(v, 0xff), i) == Bit(0, i) {
        BitZero(i);
        if i >= 8 { BitAbove(v, 8, i); }
      }
      SameBits(AndNot(v, 0xff), 0);
    }
  }

  /** A rotation and the byte that it applies to. */
  predicate Rotates(value: u32, rotate: nat, imm8: nat) {
    rotate < 16 && imm8 < 0x100 && Rol32(value, rotate * 2) == imm8
  }

  lemma FieldsOf(field: nat)
    ensures And(Shr(field, 8), 0x0f) < 16
    ensures Low(field, 12) == And(Shr(field, 8), 0x0f) * 256 + And(field, 0xff)
    ensures Low(field, 12) <= field
  {
    assert Ones(4) == 0x0f && Pow2(4) == 16 && Pow2(8) == 256;
    hide Pow2, And, Low, Shr, Shl;
    MaskedByte(field);
    AndOnes(Shr(field, 8), 4);
    LowAtMost(Shr(field, 8), 4);
    LowSplit(field, 8, 4);
    ShlIsTimes(Low(Shr(field, 8), 4), 8);
    LowAtMost(field, 12);
  }

  lemma Field(rotate: nat, imm8: nat)
    requires rotate < 16 && imm8 < 0x100
    ensures Or(Shl(rotate, 8), imm8) == rotate * 256 + imm8
    ensures And(rotate * 256 + imm8, 0xff) == imm8 && And(Shr(rotate * 256 + imm8, 8), 0x0f) == rotate
  {
    assert Ones(4) == 0x0f && Pow2(4) == 16 && Pow2(8) == 256;
    hide Pow2, And, Low, Shr, Shl, Or;
    Joined(imm8, rotate, 8);
    ShlIsTimes(rotate, 8);
    MaskedByte(rotate * 256 + imm8);
    AndOnes(rotate, 4);
    LowSmall(rotate, 4);
  }

  /** An encoding names a rotation of the value, and a rotation gives an encoding. */
  lemma ValueIsRotation(field: nat, value: u32)
    ensures ModImmValue(field) == value <==> Rotates(value, And(Shr(field, 8), 0x0f), And(field, 0xff))
  {
    hide And, Shr, Low, Rol32, Ror32;
    FieldsOf(field);
    MaskedByte(field);
    var r := And(Shr(field, 8), 0x0f);
    if ModImmValue(field) == value {
      RolOfRor(And(field, 0xff), r * 2);
    }
    if Rotates(value, r, And(field, 0xff)) {
      RorOfRol(value, r * 2);
    }
  }

  lemma LowerWithin(field: nat, mask: u32)
    requires AndNot(field, mask) == 0
    ensures AndNot(Low(field, 12), mask) == 0
  {
    hide Bit, AndNot, Low;
    AndNotBits(field, mask);
    AndNotBits(Low(field, 12), mask);
    LowBits(field, 12);
    forall i: nat ensures Bit(AndNot(Low(field, 12), mask), i) == Bit(0, i) {
      BitZero(i);
      assert !Bit(AndNot(field, mask), i);
    }
    SameBits(AndNot(Low(field, 12), mask), 0);
  }

  /** A rotation that the encoder takes from `rotate` on. */
  ghost predicate Usable(value: u32, mask: u32, r: nat) {
    r < 16 && Rol32(value, r * 2) < 0x100 && AndNot(r * 256 + Rol32(value, r * 2), mask) == 0
  }

  lemma {:induction false} ModImmFromMeaning(value: u32, mask: u32, rotate: nat)
    requires rotate <= 16
    ensures var out := ModImmFrom(value, mask, rotate);
            && (out.None? ==> forall r :: rotate <= r < 16 ==> !Usable(value, mask, r))
            && (out.Some? ==> exists r ::
                  && rotate <= r < 16 && Usable(value, mask, r)
                  && out.value == r * 256 + Rol32(value, r * 2)
                  && forall q :: rotate <= q < r ==> !Usable(value, mask, q))
    decreases 16 - rotate
  {
    hide Rol32, AndNot, Or, Shl;
    if rotate < 16 {
      var imm8 := Rol32(value, rotate * 2);
      FitsByte(imm8);
      if imm8 < 0x100 { Field(rotate, imm8); }
      ModImmFromMeaning(value, mask, rotate + 1);
      if imm8 < 0x100 && AndNot(rotate * 256 + imm8, mask) == 0 {
        assert Usable(value, mask, rotate);
      } else {
        assert !Usable(value, mask, rotate);
      }
    }
  }

  /** Encodings of a value inside a mask. */
  ghost predicate Encodes(e: nat, imm: int, mask: u32) {
    AndNot(e, mask) == 0 && ModImmValue(e) == imm
  }

  lemma EncodingIsUsable(e: nat, value: u32, mask: u32)
    requires Encodes(e, value, mask)
    ensures var r := And(Shr(e, 8), 0x0f);
            r < 16 && Usable(value, mask, r) && r * 256 + Rol32(value, r * 2) <= e
  {
    hide And, Shr, Low, Rol32, ModImmValue, AndNot;
    ValueIsRotation(e, value);
    FieldsOf(e);
    LowerWithin(e, mask);
  }

  lemma UsableIsEncoding(r: nat, value: u32, mask: u32)
    requires Usable(value, mask, r)
    ensures Encodes(r * 256 + Rol32(value, r * 2), value, mask)
  {
    hide And, Shr, Low, Rol32, ModImmValue, AndNot;
    Field(r, Rol32(value, r * 2));
    ValueIsRotation(r * 256 + Rol32(value, r * 2), value);
  }

  /** The A32 encoder accepts a value exactly when some encoding inside the mask stands for it, and
      returns the least one, which has the least rotation. */
  lemma ModImmMeaning(imm: int, mask: u32)
    ensures var out := ModImm(imm, mask);
            && (out.None? ==> !IsWord(imm) || forall e: nat :: !Encodes(e, imm, mask))
            && (out.Some? ==>
                  && IsWord(imm)
                  && Encodes(out.value, imm, mask)
                  && out.value < 0x1000
                  && forall e: nat :: Encodes(e, imm, mask) ==>
                       out.value <= e && And(Shr(out.value, 8), 0x0f) <= And(Shr(e, 8), 0x0f))
  {
    hide And, Shr, Rol32, AndNot, Encodes, Usable, ModImmFrom, ModImmValue;
    if IsWord(imm) {
      ModImmFromMeaning(imm, mask, 0);
      var out := ModImmFrom(imm, mask, 0);
      if out.Some? {
        var r :| 0 <= r < 16 && Usable(imm, mask, r) && out.value == r * 256 + Rol32(imm, r * 2)
                 && forall q :: 0 <= q < r ==> !Usable(imm, mask, q);
        FirstIsLeast(imm, mask, r);
      } else {
        forall e: nat ensures !Encodes(e, imm, mask) {
          if Encodes(e, imm, mask) {
            EncodingIsUsable(e, imm, mask);
          }
        }
      }
    }
  }

  lemma FirstIsLeast(value: u32, mask: u32, r: nat)
    requires Usable(value, mask, r) && forall q :: 0 <= q < r ==> !Usable(value, mask, q)
    ensures var out := r * 256 + Rol32(value, r * 2);
            && Encodes(out, value, mask)
            && out < 0x1000
            && forall e: nat :: Encodes(e, value, mask) ==> out <= e && And(Shr(out, 8), 0x0f) <= And(Shr(e, 8), 0x0f)
  {
    hide And, Shr, Rol32, AndNot, Encodes, Usable, ModImmValue;
    var out := r * 256 + Rol32(value, r * 2);
    UsableByte(value, mask, r);
    UsableIsEncoding(r, value, mask);
    Field(r, Rol32(value, r * 2));
    forall e: nat | Encodes(e, value, mask) ensures out <= e && And(Shr(out, 8), 0x0f) <= And(Shr(e, 8), 0x0f) {
      EncodingIsUsable(e, value, mask);
      UsableByte(value, mask, And(Shr(e, 8), 0x0f));
    }
  }

  lemma UsableByte(value: u32, mask: u32, r: nat)
    requires Usable(value, mask, r)
    ensures r < 16 && Rol32(value, r * 2) < 0x100
  {
    hide Rol32, AndNot;
  }

  // ---- T32

  /** A byte in bits 0-7 and 16-23, in bits 8-15 and 24-31, or in all four bytes. */
  function Pairs(b: nat): nat { Or(Shl(b, 16), b) }

  function OddPairs(b: nat): nat { Or(Shl(b, 24), Shl(b, 8)) }

  function Quads(b: nat): nat { Or(Or(Or(Shl(b, 24), Shl(b, 16)), Shl(b, 8)), b) }

  /** `arm_td_t2_so_imm`. */
  function T2SoValue(field: nat): nat {
    var value := And(field, 0x0fff);
    var imm8 := And(value, 0xff);
    if And(value, 0xc00) == 0 then
      var selector := And(Shr(value, 8), 3);
      if selector == 0 then imm8
      else if selector == 1 then Pairs(imm8)
      else if selector == 2 then OddPairs(imm8)
      else Quads(imm8)
    else
      RotatedByte(value);
      Ror32(Or(0x80, And(value, 0x7f)), And(Shr(value, 7), 31))
  }

  lemma RotatedByte(value: nat)
    ensures And(value, 0x7f) < 0x80
    ensures Or(0x80, And(value, 0x7f)) == 0x80 + And(value, 0x7f)
  {
    assert Ones(7) == 0x7f && Pow2(7) == 0x80;
    assert Shl(1, 7) == 0x80;
    hide Pow2, And, Or, Low, Shl;
    AndOnes(value, 7);
    LowAtMost(value, 7);
    Joined(Low(value, 7), 1, 7);
  }

  /** The first rotation from `rotate` on that leaves a byte with its top bit set. */
  function T2RotationFrom(value: u32, rotate: nat): Option<nat>
    requires rotate <= 32
    decreases 32 - rotate
  {
    if rotate == 32 then None
    else
      var unrotated := Rol32(value, rotate);
      if 0x80 <= unrotated <= 0xff then Some(Or(Shl(rotate, 7), And(unrotated, 0x7f)))
      else T2RotationFrom(value, rotate + 1)
  }

  function T2SoImm(imm: int, mask: u32): Option<nat> {
    if mask != 0xfff || !IsWord(imm) then None
    else
      var value: u32 := imm;
      if value <= 0xff then Some(value)
      else
        var imm8 := And(value, 0xff);
        if imm8 != 0 && value == Pairs(imm8) then Some(Or(0x100, imm8))
        else if imm8 != 0 && value == OddPairs(imm8) then Some(Or(0x200, imm8))
        else if imm8 != 0 && value == Quads(imm8) then Some(Or(0x300, imm8))
        else T2RotationFrom(value, 8)
  }

  /** `arm_bf_t2_so_imm`. */
  method T2SoImmLoop(imm: int, mask: u32) returns (out: Option<nat>)
    ensures out == T2SoImm(imm, mask)
  {
    if mask != 0xfff || !IsWord(imm) {
      return None;
    }
    var value: u32 := imm;
    if value <= 0xff {
      return Some(value);
    }
    var imm8 := And(value, 0xff);
    if imm8 != 0 && value == Pairs(imm8) {
      return Some(Or(0x100, imm8));
    }
    if imm8 != 0 && value == OddPairs(imm8) {
      return Some(Or(0x200, imm8));
    }
    if imm8 != 0 && value == Quads(imm8) {
      return Some(Or(0x300, imm8));
    }
    var rotate := 8;
    while rotate < 32
      invariant 8 <= rotate <= 32
      invariant T2SoImm(imm, mask) == T2RotationFrom(value, rotate)
    {
      var unrotated := Rol32(value, rotate);
      if unrotated >= 0x80 && unrotated <= 0xff {
        return Some(Or(Shl(rotate, 7), And(unrotated, 0x7f)));
      }
      rotate := rotate + 1;
    }
    return None;
  }

  /** The field of a rotation, and that it is read as one. */
  lemma RotationField(rotate: nat, low: nat)
    requires rotate < 32 && low < 0x80
    ensures Or(Shl(rotate, 7), low) == rotate * 128 + low
    ensures And(rotate * 128 + low, 0xfff) == rotate * 128 + low
    ensures And(rotate * 128 + low, 0x7f) == low && And(Shr(rotate * 128 + low, 7), 31) == rotate
  {
    assert Ones(7) == 0x7f && Pow2(7) == 0x80 && Ones(5) == 31 && Pow2(5) == 32;
    assert Ones(12) == 0xfff && Pow2(12) == 0x1000;
    hide Pow2, And, Low, Shr, Shl, Or;
    Joined(low, rotate, 7);
    ShlIsTimes(rotate, 7);
    AndOnes(rotate * 128 + low, 7);
    AndOnes(rotate * 128 + low, 12);
    LowSmall(rotate * 128 + low, 12);
    AndOnes(rotate, 5);
    LowSmall(rotate, 5);
  }

  /** Bits 10 and 11 say whether the field is a rotation: they are set from rotation 8 on. */
  lemma RotationBits(v: nat)
    requires v < 0x1000
    ensures And(v, 0xc00) == 0 <==> v < 0x400
  {
    assert Pow2(10) == 0x400 && Pow2(12) == 0x1000 && Ones(2) == 3;
    assert Shl(3, 10) == 0xc00;
    hide Pow2, And, Shl, Bit;
    AndBits(v, 0xc00);
    ShlBits(3, 10);
    OnesBits(2);
    if And(v, 0xc00) == 0 {
      forall i: nat | i >= 10 ensures !Bit(v, i) {
        BitZero(i);
        if i >= 12 { BitAbove(v, 12, i); }
        assert !Bit(And(v, 0xc00), i);
      }
      BelowPow2(v, 10);
    }
    if v < 0x400 {
      forall i: nat ensures Bit(And(v, 0xc00), i) == Bit(0, i) {
        BitZero(i);
        if i >= 10 { BitAbove(v, 10, i); }
      }
      SameBits(And(v, 0xc00), 0);
    }
  }

  /** The field of a replicated byte. */
  lemma SelectorField(selector: nat, b: nat)
    requires selector < 4 && b < 0x100
    ensures Or(Shl(selector, 8), b) == selector * 256 + b
    ensures And(selector * 256 + b, 0xfff) == selector * 256 + b
    ensures And(selector * 256 + b, 0xff) == b && And(Shr(selector * 256 + b, 8), 3) == selector
  {
    assert Ones(8) == 0xff && Pow2(8) == 0x100 && Ones(2) == 3 && Pow2(2) == 4;
    assert Ones(12) == 0xfff && Pow2(12) == 0x1000;
    hide Pow2, And, Low, Shr, Shl, Or;
    Joined(b, selector, 8);
    ShlIsTimes(selector, 8);
    AndOnes(selector * 256 + b, 8);
    AndOnes(selector * 256 + b, 12);
    LowSmall(selector * 256 + b, 12);
    AndOnes(selector, 2);
    LowSmall(selector, 2);
  }

  /** What a twelve-bit field stands for: a byte pattern below `0x400`, a rotation from there on. */
  lemma T2SoOfSelector(selector: nat, b: nat)
    requires selector < 4 && b < 0x100
    ensures T2SoValue(selector * 256 + b)
         == if selector == 0 then b else if selector == 1 then Pairs(b) else if selector == 2 then OddPairs(b) else Quads(b)
  {
    hide And, Or, Shl, Shr, Ror32, Pairs, OddPairs, Quads;
    SelectorField(selector, b);
    RotationBits(selector * 256 + b);
  }

  lemma T2SoOfRotation(rotate: nat, low: nat)
    requires 8 <= rotate < 32 && low < 0x80
    ensures T2SoValue(rotate * 128 + low) == Ror32(0x80 + low, rotate)
  {
    hide And, Or, Shl, Shr, Ror32, Pairs, OddPairs, Quads;
    RotationField(rotate, low);
    RotationBits(rotate * 128 + low);
    RotatedByte(rotate * 128 + low);
  }

  lemma SmallMasks(v: u32)
    ensures 0x80 <= v <= 0xff ==> And(v, 0x7f) == v - 0x80
    ensures And(v, 0xff) < 0x100
  {
    assert Pow2(7) == 0x80 && Ones(7) == 0x7f && Pow2(8) == 0x100;
    hide Pow2, And, Low, Bit;
    MaskedByte(v);
    if 0x80 <= v <= 0xff {
      AndOnes(v, 7);
      LowTop(v, 7);
      LowSmall(v, 8);
      TopBit(v, 7);
    }
  }

  ghost predicate RotatesBy(value: u32, r: int) {
    0 <= r < 32 && 0x80 <= Rol32(value, r) <= 0xff
  }

  lemma {:induction false} T2RotationMeaning(value: u32, from: nat)
    requires 8 <= from <= 32
    ensures var out := T2RotationFrom(value, from);
            && (out.None? <==> forall r :: from <= r ==> !RotatesBy(value, r))
            && (out.Some? ==> exists r :: from <= r && RotatesBy(value, r) && out.value == r * 128 + (Rol32(value, r) - 0x80))
    decreases 32 - from
  {
    hide Rol32, And, Or, Shl;
    if from < 32 {
      T2RotationMeaning(value, from + 1);
      var u := Rol32(value, from);
      if 0x80 <= u <= 0xff {
        SmallMasks(u);
        RotationField(from, u - 0x80);
        assert RotatesBy(value, from);
      } else {
        assert !RotatesBy(value, from);
      }
    }
  }

  /** An accepted value decodes back. */
  lemma T2SoRoundTrip(imm: int, mask: u32)
    requires T2SoImm(imm, mask).Some?
    ensures T2SoImm(imm, mask).value < 0x1000 && T2SoValue(T2SoImm(imm, mask).value) == imm
  {
    hide T2SoValue, T2RotationFrom, And, Or, Rol32, Ror32, Pairs, OddPairs, Quads;
    var value: u32 := imm;
    var imm8 := And(value, 0xff);
    SmallMasks(value);
    assert Shl(1, 8) == 0x100 && Shl(2, 8) == 0x200 && Shl(3, 8) == 0x300;
    if value <= 0xff {
      T2SoOfSelector(0, value);
    } else if imm8 != 0 && value == Pairs(imm8) {
      SelectorField(1, imm8);
      T2SoOfSelector(1, imm8);
    } else if imm8 != 0 && value == OddPairs(imm8) {
      SelectorField(2, imm8);
      T2SoOfSelector(2, imm8);
    } else if imm8 != 0 && value == Quads(imm8) {
      SelectorField(3, imm8);
      T2SoOfSelector(3, imm8);
    } else {
      T2RotationBack(value);
    }
  }

  lemma T2RotationBack(value: u32)
    requires T2RotationFrom(value, 8).Some?
    ensures T2RotationFrom(value, 8).value < 0x1000 && T2SoValue(T2RotationFrom(value, 8).value) == value
  {
    hide T2SoValue, T2RotationFrom, Rol32, Ror32;
    T2RotationMeaning(value, 8);
    var r :| 8 <= r && RotatesBy(value, r) && T2RotationFrom(value, 8).value == r * 128 + (Rol32(value, r) - 0x80);
    T2SoOfRotation(r, Rol32(value, r) - 0x80);
    RorOfRol(value, r);
  }

  lemma PatternBits(b: nat, i: nat)
    requires b < 0x100
    ensures Bit(Pairs(b), i) <==> Bit(b, i) || (i >= 16 && Bit(b, i - 16))
    ensures Bit(OddPairs(b), i) <==> (i >= 8 && Bit(b, i - 8)) || (i >= 24 && Bit(b, i - 24))
    ensures Bit(Quads(b), i) <==> Bit(b, i) || (i >= 8 && Bit(b, i - 8)) || (i >= 16 && Bit(b, i - 16)) || (i >= 24 && Bit(b, i - 24))
  {
    hide Or, Shl, Bit;
    BitShl(b, 8, i);
    BitShl(b, 16, i);
    BitShl(b, 24, i);
    BitOr(Shl(b, 16), b, i);
    BitOr(Shl(b, 24), Shl(b, 8), i);
    BitOr(Or(Or(Shl(b, 24), Shl(b, 16)), Shl(b, 8)), b, i);
    BitOr(Or(Shl(b, 24), Shl(b, 16)), Shl(b, 8), i);
    BitOr(Shl(b, 24), Shl(b, 16), i);
  }

  /** The low byte of each pattern: the byte itself, or nothing for the odd pairs. */
  lemma PatternLowByte(b: nat)
    requires b < 0x100
    ensures And(Pairs(b), 0xff) == b && And(Quads(b), 0xff) == b && And(OddPairs(b), 0xff) == 0
  {
    assert Ones(8) == 0xff && Pow2(8) == 0x100;
    hide Pairs, OddPairs, Quads, And, Bit, Pow2;
    forall i: nat
      ensures Bit(And(Pairs(b), 0xff), i) == Bit(b, i)
      ensures Bit(And(Quads(b), 0xff), i) == Bit(b, i)
      ensures Bit(And(OddPairs(b), 0xff), i) == Bit(0, i)
    {
      PatternBits(b, i);
      BitAnd(Pairs(b), 0xff, i);
      BitAnd(Quads(b), 0xff, i);
      BitAnd(OddPairs(b), 0xff, i);
      BitOnes(8, i);
      BitZero(i);
      if i >= 8 { BitAbove(b, 8, i); }
    }
    SameBits(And(Pairs(b), 0xff), b);
    SameBits(And(Quads(b), 0xff), b);
    SameBits(And(OddPairs(b), 0xff), 0);
  }

  /** The values that only the third byte pattern reaches, `0xXY00XY00` with `XY` not zero. */
  ghost predicate IsOddPairs(value: int) {
    exists b: nat :: 0 < b < 0x100 && OddPairs(b) == value
  }

  ghost predicate T2Decodable(imm: int) {
    exists e: nat :: e < 0x1000 && T2SoValue(e) == imm
  }

  function Around(i: nat): nat {
    if i < 32 then i else i - 32
  }

  /** A bit set in the word is set `r` places up, around the word, after rotation. */
  lemma BitMoves(value: u32, r: nat, i: nat)
    requires r < 32 && i < 32 && Bit(value, i)
    ensures Bit(Rol32(value, r), Around(i + r))
  {
    hide Bit, Rol32;
    BitOfRol(value, r, Around(i + r));
  }

  /** The two copies of the byte are sixteen bits apart, so no rotation brings them into one byte. */
  lemma OddPairsDoNotRotate(value: u32, b: nat, r: nat)
    requires 0 < b < 0x100 && value == OddPairs(b) && r < 32
    ensures Rol32(value, r) > 0xff
  {
    assert Pow2(8) == 0x100;
    hide Bit, OddPairs, Rol32, Pow2;
    var i := SomeBit(b);
    if i >= 8 { BitAbove(b, 8, i); }
    PatternBits(b, i + 8);
    PatternBits(b, i + 24);
    BitMoves(value, r, i + 8);
    BitMoves(value, r, i + 24);
    if Rol32(value, r) < 0x100 {
      BitAbove(Rol32(value, r), 8, if Around(i + 8 + r) >= 8 then Around(i + 8 + r) else Around(i + 24 + r));
    }
  }

  lemma SomeBit(b: nat) returns (i: nat)
    requires b > 0
    ensures Bit(b, i)
  {
    if b % 2 == 1 {
      i := 0;
    } else {
      var j := SomeBit(b / 2);
      i := j + 1;
    }
  }

  /** The encoder has a branch for that pattern, but it looks at the wrong byte and never takes it. */
  lemma OddPairsBranchIsDead(value: u32)
    ensures And(value, 0xff) != 0 ==> value != OddPairs(And(value, 0xff))
  {
    hide And, OddPairs;
    MaskedByte(value);
    PatternLowByte(And(value, 0xff));
  }

  lemma OddPairsAboveByte(value: u32, b: nat)
    requires 0 < b < 0x100 && value == OddPairs(b)
    ensures value > 0xff
  {
    assert Pow2(8) == 0x100;
    hide OddPairs, Pow2, Bit;
    var i := SomeBit(b);
    PatternBits(b, i + 8);
    if value <= 0xff { BitAbove(value, 8, i + 8); }
  }

  lemma OddPairsRejected(value: u32, b: nat)
    requires 0 < b < 0x100 && value == OddPairs(b)
    ensures T2SoImm(value, 0xfff).None?
  {
    hide T2RotationFrom, And, Rol32, Pairs, Quads, OddPairs, RotatesBy;
    PatternLowByte(b);
    OddPairsAboveByte(value, b);
    T2RotationMeaning(value, 8);
    forall r ensures !RotatesBy(value, r) { NoRotation(value, b, r); }
  }

  lemma NoRotation(value: u32, b: nat, r: int)
    requires 0 < b < 0x100 && value == OddPairs(b)
    ensures !RotatesBy(value, r)
  {
    hide OddPairs, Rol32;
    if 0 <= r < 32 { OddPairsDoNotRotate(value, b, r); }
  }

  /** Every field is a byte pattern or a rotation. */
  lemma FieldCases(e: nat)
    requires e < 0x1000
    ensures e < 0x400 ==> T2SoValue(e) == T2SoValue(e / 256 * 256 + e % 256)
    ensures e >= 0x400 ==> 8 <= e / 128 < 32 && T2SoValue(e) == Ror32(0x80 + e % 128, e / 128)
  {
    hide T2SoValue, Ror32;
    if e >= 0x400 {
      T2SoOfRotation(e / 128, e % 128);
      assert e == e / 128 * 128 + e % 128;
    }
  }

  lemma DecodableAccepted(imm: u32, e: nat)
    requires e < 0x1000 && T2SoValue(e) == imm && !IsOddPairs(imm)
    ensures T2SoImm(imm, 0xfff).Some?
  {
    hide T2SoValue, T2RotationFrom, And, Rol32, Ror32, Pairs, Quads, OddPairs, RotatesBy;
    FieldCases(e);
    if e < 0x400 {
      T2SoOfSelector(e / 256, e % 256);
      PatternLowByte(e % 256);
      if e % 256 == 0 { ZeroPatterns(); }
    } else {
      T2RotationMeaning(imm, 8);
      RolOfRor(0x80 + e % 128, e / 128);
      RotationFound(imm, e / 128);
    }
  }

  lemma RotationFound(value: u32, r: nat)
    requires 8 <= r < 32 && 0x80 <= Rol32(value, r) <= 0xff
    ensures RotatesBy(value, r)
  {
    hide Rol32;
  }

  lemma ZeroPatterns()
    ensures Pairs(0) == 0 && OddPairs(0) == 0 && Quads(0) == 0
  {
    assert Shl(0, 8) == 0 && Shl(0, 16) == 0 && Shl(0, 24) == 0;
  }

  /** The T32 encoder accepts exactly the decodable values other than `0xXY00XY00`. */
  lemma T2SoMeaning(imm: int)
    ensures T2SoImm(imm, 0xfff).Some? <==> IsWord(imm) && T2Decodable(imm) && !IsOddPairs(imm)
  {
    hide T2SoValue, T2SoImm, OddPairs;
    if T2SoImm(imm, 0xfff).Some? {
      AcceptedIsWord(imm);
      T2SoRoundTrip(imm, 0xfff);
      assert T2Decodable(imm);
      if IsOddPairs(imm) {
        var b: nat :| 0 < b < 0x100 && OddPairs(b) == imm;
        OddPairsRejected(imm, b);
      }
    }
    if IsWord(imm) && T2Decodable(imm) && !IsOddPairs(imm) {
      var e: nat :| e < 0x1000 && T2SoValue(e) == imm;
      DecodableAccepted(imm, e);
    }
  }

  lemma AcceptedIsWord(imm: int)
    requires T2SoImm(imm, 0xfff).Some?
    ensures IsWord(imm)
  {
    hide T2RotationFrom, Pairs, OddPairs, Quads, And, Or;
  }

  /** A decodable value that the encoder refuses. */
  lemma T2SoCounterexample()
    ensures T2SoValue(0x2ab) == 0xab00_ab00 && T2SoImm(0xab00_ab00, 0xfff).None?
  {
    hide And, Or, Pairs, Quads, T2SoValue, T2SoImm;
    T2SoOfSelector(2, 0xab);
    ShlIsTimes(0xab, 8);
    ShlIsTimes(0xab, 24);
    assert Pow2(8) == 0x100;
    Pow2Add(8, 16);
    WordSizes();
    Joined(0xab * 0x100, 0xab, 24);
    OddPairsRejected(0xab00_ab00, 0xab);
  }
}
