/** AArch64 logical (bitmask) immediates: `DecodeBitMasks()` of the Armv8-A manual and the
    search that inverts it. */
module LogicalImm {
  import opened Bits
  import opened Wrappers

  // ---- the decoder

  /** `a64_highest_set_bit`: the scan from bit `bit` down. */
  function HighestFrom(value: u32, bit: int): (r: int)
    requires -1 <= bit < 32
    decreases bit + 1
  {
    if bit < 0 then -1
    else if And(value, Pow2(bit)) != 0 then bit
    else HighestFrom(value, bit - 1)
  }

  function HighestSetBit(value: u32): int {
    HighestFrom(value, 31)
  }

  method HighestSetBitLoop(value: u32) returns (r: int)
    ensures r == HighestSetBit(value)
  {
    var bit := 31;
    while bit >= 0
      invariant -1 <= bit <= 31
      invariant HighestFrom(value, bit) == HighestSetBit(value)
    {
      if And(value, Pow2(bit)) != 0 {
        return bit;
      }
      bit := bit - 1;
    }
    return -1;
  }

  /** `a64_ror_width`. */
  function RorWidth(value: nat, width: nat, rotate: nat): nat {
    if width == 0 || width > 64 then 0
    else
      var mask := Ones(width);
      var v := And(value, mask);
      var r := rotate % width;
      if r == 0 then v else And(Or(Shr(v, r), Low(Shl(v, width - r), 64)), mask)
  }

  /** The copies of `value` at `offset`, `offset + elementWidth`, ... below `regWidth`. */
  function CopiesFrom(value: nat, elementWidth: nat, regWidth: nat, offset: nat): nat
    requires elementWidth > 0
    decreases regWidth - offset
  {
    if offset >= regWidth then 0
    else Or(Low(Shl(value, offset), 64), CopiesFrom(value, elementWidth, regWidth, offset + elementWidth))
  }

  /** `a64_replicate_width`. */
  function Replicate(value: nat, elementWidth: nat, regWidth: nat): nat {
    if elementWidth == 0 || regWidth == 0 || elementWidth > regWidth then 0
    else
      var result := CopiesFrom(And(value, Ones(elementWidth)), elementWidth, regWidth, 0);
      if regWidth >= 64 then result else And(result, Ones(regWidth))
  }

  method ReplicateLoop(value: nat, elementWidth: nat, regWidth: nat) returns (r: nat)
    ensures r == Replicate(value, elementWidth, regWidth)
  {
    if elementWidth == 0 || regWidth == 0 || elementWidth > regWidth {
      return 0;
    }
    var result: nat := 0;
    var v := And(value, Ones(elementWidth));
    var offset: nat := 0;
    while offset < regWidth
      invariant Or(result, CopiesFrom(v, elementWidth, regWidth, offset)) == CopiesFrom(v, elementWidth, regWidth, 0)
      decreases regWidth - offset
    {
      OrAssociative(result, Low(Shl(v, offset), 64), CopiesFrom(v, elementWidth, regWidth, offset + elementWidth));
      result := Or(result, Low(Shl(v, offset), 64));
      offset := offset + elementWidth;
    }
    OrZero(result);
    r := if regWidth >= 64 then result else And(result, Ones(regWidth));
  }

  lemma OrAssociative(a: nat, b: nat, c: nat)
    ensures Or(Or(a, b), c) == Or(a, Or(b, c))
  {
    OrBits(a, b); OrBits(b, c); OrBits(Or(a, b), c); OrBits(a, Or(b, c));
    SameBits(Or(Or(a, b), c), Or(a, Or(b, c)));
  }

  /** The element of an encoding: its width, its run length minus one, and its rotation. */
  datatype Shape = Shape(width: nat, s: nat, r: nat)

  function FieldN(encoded: u32): nat { And(Shr(encoded, 12), 1) }
  function FieldImmr(encoded: u32): nat { And(Shr(encoded, 6), 0x3f) }
  function FieldImms(encoded: u32): nat { And(encoded, 0x3f) }

  /** `N : NOT(imms)`, whose highest set bit gives the element width. */
  function LengthBits(encoded: u32): nat {
    Or(Shl(FieldN(encoded), 6), AndNot(0x3f, FieldImms(encoded)))
  }

  /** The checks of `a64_decode_logical_imm`, up to the value it builds. */
  function ShapeOf(encoded: u32, regWidth: nat): Option<Shape> {
    if regWidth != 32 && regWidth != 64 then None
    else if regWidth == 32 && FieldN(encoded) != 0 then None
    else
      LengthBitsSmall(encoded);
      var len := HighestSetBit(LengthBits(encoded));
      if len < 1 then None
      else
        var elementWidth := Pow2(len);
        if elementWidth > regWidth then None
        else
          var levels := elementWidth - 1;
          var s := And(FieldImms(encoded), levels);
          var r := And(FieldImmr(encoded), levels);
          if s == levels then None else Some(Shape(elementWidth, s, r))
  }

  function ValueOf(shape: Shape, regWidth: nat): nat {
    Replicate(RorWidth(Ones(shape.s + 1), shape.width, shape.r), shape.width, regWidth)
  }

  /** `a64_decode_logical_imm`. */
  function Decode(encoded: u32, regWidth: nat): Option<nat> {
    var shape := ShapeOf(encoded, regWidth);
    if shape.None? then None else Some(ValueOf(shape.value, regWidth))
  }

  // ---- fields and widths

  lemma FieldsSmall(encoded: u32)
    ensures FieldN(encoded) <= 1 && FieldImmr(encoded) < 64 && FieldImms(encoded) < 64
  {
    AndOnes(Shr(encoded, 12), 1);
    AndOnes(Shr(encoded, 6), 6);
    AndOnes(encoded, 6);
    LowShr(Shr(encoded, 12), 1);
    LowShr(Shr(encoded, 6), 6);
    LowShr(encoded, 6);
  }

  lemma LengthBitsSmall(encoded: u32)
    ensures LengthBits(encoded) < 128
    ensures forall i: nat :: Bit(LengthBits(encoded), i) <==>
              (i == 6 && FieldN(encoded) == 1) || (i < 6 && !Bit(FieldImms(encoded), i))
  {
    FieldsSmall(encoded);
    var n, imms := FieldN(encoded), FieldImms(encoded);
    ShlBits(n, 6);
    AndNotBits(0x3f, imms);
    OnesBits(6);
    OrBits(Shl(n, 6), AndNot(0x3f, imms));
    forall i: nat
      ensures Bit(LengthBits(encoded), i) <==> (i == 6 && n == 1) || (i < 6 && !Bit(imms, i))
    {
      assert Ones(6) == 0x3f;
      if i > 6 { BitAbove(n, 1, i - 6); }
    }
    BelowPow2(LengthBits(encoded), 7);
  }

  /** `HighestSetBit` finds the highest set bit. */
  lemma {:induction false} HighestIsTop(value: u32, bit: int)
    requires -1 <= bit < 32
    ensures var h := HighestFrom(value, bit);
            && -1 <= h <= bit
            && (h >= 0 ==> Bit(value, h))
            && forall i: nat :: h < i <= bit ==> !Bit(value, i)
    decreases bit + 1
  {
    if bit >= 0 {
      AndBits(value, Pow2(bit));
      forall i: nat { BitPow2(bit, i); }
      if And(value, Pow2(bit)) == 0 {
        assert !Bit(value, bit) by { BitZero(bit); assert Bit(Pow2(bit), bit); }
        HighestIsTop(value, bit - 1);
      } else if !Bit(value, bit) {
        forall i: nat ensures Bit(And(value, Pow2(bit)), i) == Bit(0, i) { BitZero(i); }
        SameBits(And(value, Pow2(bit)), 0);
      }
    }
  }

  // ---- the encoder

  /** The bit pattern an operand asks for; a 32-bit operand may be written signed or unsigned. */
  function Wanted(imm: i64, width: nat): nat {
    if width == 32 then imm % U32 else imm % U64
  }

  predicate Representable(imm: i64, width: nat) {
    width == 64 || (width == 32 && -0x8000_0000 <= imm < U32)
  }

  /** `encoded` lies in the source mask and decodes to `wanted`. */
  predicate Encodes(encoded: u32, wanted: nat, width: nat, sourceMask: u32) {
    AndNot(encoded, sourceMask) == 0 && Decode(encoded, width) == Some(wanted)
  }

  /** The first encoding in the mask, counting up from `from`. */
  function LeastFrom(from: nat, wanted: nat, width: nat, sourceMask: u32): Option<u32>
    decreases sourceMask - from
  {
    if from > sourceMask then None
    else if Encodes(from, wanted, width, sourceMask) then Some(from)
    else LeastFrom(from + 1, wanted, width, sourceMask)
  }

  function LogicalImmEncoding(imm: i64, width: nat, sourceMask: u32): Option<u32> {
    if Representable(imm, width) then LeastFrom(0, Wanted(imm, width), width, sourceMask) else None
  }

  /** `a64_bf_logical_imm_value`. */
  method LogicalImmValue(imm: i64, width: nat, sourceMask: u32) returns (out: Option<u32>)
    ensures out == LogicalImmEncoding(imm, width, sourceMask)
  {
    hide Decode;
    if width != 32 && width != 64 {
      return None;
    }
    if width == 32 && imm >= 0 && imm / U32 != 0 {
      return None;
    }
    if width == 32 && imm < 0 && imm < -0x8000_0000 {
      return None;
    }
    var wanted := Wanted(imm, width);
    var encoded: u32 := 0;
    while true
      invariant encoded <= sourceMask
      invariant LeastFrom(encoded, wanted, width, sourceMask) == LeastFrom(0, wanted, width, sourceMask)
      decreases sourceMask - encoded
    {
      if AndNot(encoded, sourceMask) != 0 {
        if encoded == sourceMask {
          break;
        }
        encoded := encoded + 1;
        continue;
      }
      var decoded := Decode(encoded, width);
      if decoded.Some? && decoded.value == wanted {
        return Some(encoded);
      }
      if encoded == sourceMask {
        break;
      }
      encoded := encoded + 1;
    }
    return None;
  }

  lemma {:induction false} LeastFromMeaning(from: nat, wanted: nat, width: nat, sourceMask: u32)
    ensures var out := LeastFrom(from, wanted, width, sourceMask);
            && (out.Some? ==> Encodes(out.value, wanted, width, sourceMask)
                              && forall e: u32 :: from <= e && Encodes(e, wanted, width, sourceMask) ==> out.value <= e)
            && (out.None? ==> forall e: u32 :: from <= e ==> !Encodes(e, wanted, width, sourceMask))
    decreases sourceMask - from
  {
    hide Decode;
    if from > sourceMask {
      forall e: u32 | from <= e ensures !Encodes(e, wanted, width, sourceMask) {
        if AndNot(e, sourceMask) == 0 { Within(e, sourceMask); }
      }
    } else {
      LeastFromMeaning(from + 1, wanted, width, sourceMask);
    }
  }

  /** The encoder is sound and complete: it returns the numerically least encoding inside the source
      mask that decodes to the wanted value, and fails exactly when there is none. */
  lemma EncoderMeaning(imm: i64, width: nat, sourceMask: u32)
    ensures var out := LogicalImmEncoding(imm, width, sourceMask);
            && (out.Some? ==> Encodes(out.value, Wanted(imm, width), width, sourceMask)
                              && forall e: u32 :: Encodes(e, Wanted(imm, width), width, sourceMask) ==> out.value <= e)
            && (out.None? <==> !Representable(imm, width)
                               || forall e: u32 :: !Encodes(e, Wanted(imm, width), width, sourceMask))
  {
    LeastFromMeaning(0, Wanted(imm, width), width, sourceMask);
  }
}
