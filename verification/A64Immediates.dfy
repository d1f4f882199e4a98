/** AArch64 immediate operands: the encoder's transforms and the decoder's, written separately in
    the sources and proved inverse here. */
module A64Immediates {
  import opened Bits
  import opened Wrappers
  import opened Immediates
  import LogicalImm
  import LogicalImmTheory
  import LogicalLiteral
  import Residues

  datatype Kind = KindReg | KindImm | KindOpaque | KindPcRel | KindOther

  datatype Transform =
    | RawUnsignedField | RawSignedField | AddSubShiftedImm | MovShift32 | MovShift64
    | PcRelWords4 | PcRelAdr | PcRelAdrp
    | LogicalImm32 | LogicalImm64
    | ArithShiftedReg | LogicalShiftedReg | ArithExtendedReg
    | PnrP8ToP15 | GprSeqPair | SyspXzrPair
    | RawUnsignedScaled | RawSignedScaled | VecShiftRight | VecShiftRightNarrow
    | RawUnsignedOffset | ComplexRotate | GprW12ToW15 | FixedPointScale

  datatype OperandDesc = OperandDesc(
    operandIndex: nat,
    kind: Kind,
    width: nat,
    transform: Transform,
    reg31IsSp: bool,
    regClass: nat,
    sourceMask: u32,
    literal: u32)

  // ---- encoder

  /** `a64_bf_add_sub_shifted_imm`. */
  function AddSubField(imm: i64, mask: u32): Option<u32> {
    if imm < 0 then None
    else if imm <= 4095 then
      if AndNot(imm, mask) == 0 then Some(imm) else None
    else if imm % 4096 == 0 && imm / 4096 <= 4095 then
      var out := imm / 4096 + 4096;
      if AndNot(out, mask) == 0 then Some(out) else None
    else None
  }

  /** `a64_bf_mov_shift`. */
  function MovShiftField(imm: i64, mask: u32, maxShift: nat): Option<u32> {
    if imm != 0 && imm != 16 && imm != 32 && imm != 48 then None
    else if imm > maxShift then None
    else if AndNot(imm, mask) == 0 then Some(imm) else None
  }

  /** `a64_bf_imm_value`. */
  function EncodeImm(imm: i64, desc: OperandDesc): Option<u32> {
    var mask, lit := desc.sourceMask, desc.literal;
    if mask == 0 && lit != 0 then
      if imm != lit then None else Some(lit)
    else
      match desc.transform
      case RawUnsignedField => RawUnsigned(imm, mask)
      case RawSignedField => RawSigned(imm, mask)
      case RawUnsignedScaled =>
        if lit == 0 || imm < 0 || TruncMod(imm, lit) != 0 then None
        else QuotientIsI64(imm, lit); RawUnsigned(TruncDiv(imm, lit), mask)
      case RawUnsignedOffset =>
        if lit == 0 || imm < lit then None else RawUnsigned(imm - lit, mask)
      case FixedPointScale =>
        if lit == 0 || imm <= 0 || imm > lit then None
        else
          var out := lit - imm;
          if AndNot(out, mask) != AndNot(0x3f, mask) then None
          else AndAtMost(out, mask); Some(And(out, mask))
      case RawSignedScaled =>
        if lit == 0 || TruncMod(imm, lit) != 0 then None
        else QuotientIsI64(imm, lit); RawSigned(TruncDiv(imm, lit), mask)
      case VecShiftRight =>
        if lit == 0 || imm <= 0 || imm > lit then None else RawUnsigned(lit - imm, mask)
      case VecShiftRightNarrow =>
        if lit == 0 || imm <= 0 || imm > lit / 2 then None
        else AndAtMost(lit - imm, lit / 2 - 1); RawUnsigned(And(lit - imm, lit / 2 - 1), mask)
      case ComplexRotate =>
        if imm < 0 || imm > 270 || imm % 90 != 0 then None else RawUnsigned(imm / 90, mask)
      case AddSubShiftedImm => AddSubField(imm, mask)
      case MovShift32 => MovShiftField(imm, mask, 16)
      case MovShift64 => MovShiftField(imm, mask, 48)
      case LogicalImm32 => LogicalImm.LogicalImmEncoding(imm, desc.width, mask)
      case LogicalImm64 => LogicalImm.LogicalImmEncoding(imm, desc.width, mask)
      case _ => None
  }

  lemma QuotientIsI64(imm: i64, lit: u32)
    requires lit != 0
    ensures -0x8000_0000_0000_0000 <= TruncDiv(imm, lit) < 0x8000_0000_0000_0000
    ensures imm >= 0 ==> TruncDiv(imm, lit) >= 0
  {
    if imm >= 0 { DivAtMost(imm, lit); } else { DivAtMost(-(imm as int), lit); }
  }

  lemma DivAtMost(a: nat, b: nat)
    requires b > 0
    ensures 0 <= a / b <= a
  {
    AtLeastFactor(a / b, b);
  }

  lemma AtLeastFactor(q: nat, b: nat)
    requires b > 0
    ensures q * b >= q
  {
  }

  // ---- decoder

  /** `a64_td_imm_value`. */
  function DecodeImm(value: u32, desc: OperandDesc): Option<int> {
    var mask, lit := desc.sourceMask, desc.literal;
    match desc.transform
    case RawSignedField =>
      var width := SourceWidth(mask);
      if width == 0 then Some(0) else Some(SignExtend(value, width))
    case RawUnsignedScaled => if lit != 0 then Some(value * lit) else None
    case RawUnsignedOffset => if lit != 0 then Some(value + lit) else None
    case FixedPointScale =>
      var v := Or(value, AndNot(0x3f, mask));
      if lit == 0 || v >= lit then None else Some(lit - v)
    case RawSignedScaled =>
      var width := SourceWidth(mask);
      if width == 0 || lit == 0 then None else Some(SignExtend(value, width) * lit)
    case VecShiftRight => if lit == 0 || value > lit then None else Some(lit - value)
    case VecShiftRightNarrow =>
      if lit == 0 then None
      else
        var v := Or(value, lit / 2);
        if v > lit then None else Some(lit - v)
    case ComplexRotate => if value <= 3 then Some(value * 90) else None
    case AddSubShiftedImm =>
      if And(value, 0x1000) != 0 then Some(Shl(And(value, 0xfff), 12)) else Some(And(value, 0xfff))
    case LogicalImm32 => SignedLogical(value, desc.width)
    case LogicalImm64 => SignedLogical(value, desc.width)
    case _ => Some(value)
  }

  function SignedLogical(value: u32, width: nat): Option<int> {
    var v := LogicalImm.Decode(value, width);
    if v.None? then None
    else if v.value < 0x8000_0000_0000_0000 then Some(v.value) else Some(v.value - U64)
  }

  // ---- round trips

  lemma ScaledBack(imm: i64, lit: u32)
    requires lit != 0 && TruncMod(imm, lit) == 0
    ensures TruncDiv(imm, lit) * lit == imm
  {
  }

  lemma FixedPointBack(out: u32, mask: u32)
    requires AndNot(out, mask) == AndNot(0x3f, mask)
    ensures Or(And(out, mask), AndNot(0x3f, mask)) == out
  {
    AndBits(out, mask);
    AndNotBits(out, mask);
    OrBits(And(out, mask), AndNot(out, mask));
    SameBits(Or(And(out, mask), AndNot(out, mask)), out);
  }

  /** Restoring the top bit of a value in `[2^k, 2^(k+1))`. */
  lemma TopBitBack(x: nat, k: nat)
    requires Pow2(k) <= x < Pow2(k + 1)
    ensures Or(And(x, Pow2(k) - 1), Pow2(k)) == x
  {
    hide And, Or, Low, Bit;
    AndOnes(x, k);
    LowTop(x, k);
    LowSmall(x, k + 1);
    TopBit(x, k);
    LowShr(x, k);
    ShlIsTimes(1, k);
    OrDisjoint(Low(x, k), 1, k);
  }

  lemma AddSubBack(imm: i64, mask: u32)
    requires AddSubField(imm, mask).Some?
    ensures var v := AddSubField(imm, mask).value;
            imm == if And(v, 0x1000) != 0 then Shl(And(v, 0xfff), 12) else And(v, 0xfff)
  {
    var v := AddSubField(imm, mask).value;
    assert Pow2(12) == 0x1000 && Pow2(13) == 0x2000;
    hide And, Shl, Low, Bit, Pow2;
    AddSubAgain(v);
    TopBit(v, 12);
    LowSmall(v, 13);
    LowTop(v, 12);
  }

  lemma BitTwelve(v: nat)
    ensures And(v, 0x1000) != 0 <==> Bit(v, 12)
  {
    assert Pow2(12) == 0x1000;
    AndBits(v, 0x1000);
    Pow2Bits(12);
    BitZero(12);
    if !Bit(v, 12) {
      forall i: nat ensures Bit(And(v, 0x1000), i) == Bit(0, i) { BitZero(i); }
      SameBits(And(v, 0x1000), 0);
    }
  }

  /** The value an accepted immediate is decoded to: itself, except that a 32-bit logical immediate
      may be written negative and is read back modulo `2^32`. */
  function ReadBack(imm: i64, desc: OperandDesc): int {
    if IsWordLogical(desc) then imm % U32 else imm
  }

  predicate IsWordLogical(desc: OperandDesc) {
    IsLogical(desc.transform) && desc.width == 32
  }

  /** A literal stands for itself in these descriptors: there is a source field, or no literal, or
      the transform leaves a literal alone. */
  predicate LiteralIsPlain(desc: OperandDesc) {
    || desc.sourceMask != 0
    || desc.literal == 0
    || (match desc.transform
        case AddSubShiftedImm => desc.literal < 0x1000
        case RawUnsignedScaled => desc.literal == 1
        case RawSignedField => false
        case RawUnsignedOffset => false
        case FixedPointScale => false
        case RawSignedScaled => false
        case VecShiftRight => false
        case VecShiftRightNarrow => false
        case ComplexRotate => false
        case LogicalImm32 => false
        case LogicalImm64 => false
        case _ => true)
  }

  predicate NarrowLiteral(desc: OperandDesc, k: nat) {
    desc.transform.VecShiftRightNarrow? && desc.literal != 0 ==> desc.literal == Pow2(k)
  }

  /** Every immediate the encoder accepts is returned unchanged by the decoder. */
  lemma ImmRoundTrip(imm: i64, desc: OperandDesc, k: nat)
    requires EncodeImm(imm, desc).Some?
    requires LiteralIsPlain(desc) && NarrowLiteral(desc, k)
    ensures DecodeImm(EncodeImm(imm, desc).value, desc) == Some(ReadBack(imm, desc))
  {
    hide And, Or, AndNot, Pow2, SourceWidth, SignExtend, AddSubField, RawSigned, LogicalImm.LogicalImmEncoding, LogicalImm.Decode;
    var mask, lit, v := desc.sourceMask, desc.literal, EncodeImm(imm, desc).value;
    if mask == 0 && lit != 0 {
      LiteralReadBack(desc);
    } else {
      match desc.transform
      case RawSignedField =>
        SignedBack(imm, mask);
      case RawUnsignedScaled =>
        ScaledBack(imm, lit);
      case RawSignedScaled =>
        ScaledBack(imm, lit);
        QuotientIsI64(imm, lit);
        SignedBack(TruncDiv(imm, lit), mask);
        SourceWidthBounds(mask);
      case FixedPointScale =>
        FixedPointBack(lit - imm, mask);
      case VecShiftRightNarrow =>
        NarrowBack(imm, lit, k);
      case AddSubShiftedImm =>
        AddSubBack(imm, mask);
      case LogicalImm32 => LogicalBack(imm, desc.width, mask);
      case LogicalImm64 => LogicalBack(imm, desc.width, mask);
      case _ =>
    }
  }

  lemma LiteralReadBack(desc: OperandDesc)
    requires desc.sourceMask == 0 && desc.literal != 0 && LiteralIsPlain(desc)
    ensures DecodeImm(desc.literal, desc) == Some(desc.literal)
  {
    if desc.transform.AddSubShiftedImm? {
      assert Pow2(12) == 0x1000;
      AddSubAgain(desc.literal);
      LowSmall(desc.literal, 12);
    }
  }

  lemma SignedBack(imm: i64, mask: u32)
    requires RawSigned(imm, mask).Some?
    ensures var w := SourceWidth(mask);
            if w == 0 then imm == 0 else SignExtend(RawSigned(imm, mask).value, w) == imm
  {
    if mask != 0 { RawSignedRoundTrip(imm, mask); }
  }

  lemma NarrowBack(imm: i64, lit: u32, k: nat)
    requires lit == Pow2(k) && 0 < imm <= lit / 2
    ensures Or(And(lit - imm, lit / 2 - 1), lit / 2) == lit - imm
  {
    if k > 0 {
      assert lit / 2 == Pow2(k - 1);
      TopBitBack(lit - imm, k - 1);
    }
  }

  lemma LogicalBack(imm: i64, width: nat, mask: u32)
    requires LogicalImm.LogicalImmEncoding(imm, width, mask).Some?
    ensures SignedLogical(LogicalImm.LogicalImmEncoding(imm, width, mask).value, width)
              == Some(if width == 32 then imm % U32 else imm)
  {
    hide LogicalImm.Decode;
    LogicalImm.EncoderMeaning(imm, width, mask);
  }

  // ---- where the two sides disagree

  /** A descriptor without a source field carries a fixed literal.  The encoder accepts exactly that
      literal; the decoder gives it back exactly for the plain descriptors. */
  lemma LiteralExact(desc: OperandDesc)
    requires desc.sourceMask == 0 && desc.literal != 0
    ensures DecodeImm(desc.literal, desc) == Some(desc.literal) <==> LiteralIsPlain(desc)
  {
    hide And, Or, AndNot, Pow2, Shl, Low, Xor, LogicalImm.Decode;
    var lit := desc.literal;
    LogicalNeverItself(lit, desc.width);
    if desc.transform.FixedPointScale? {
      OrAtLeast(lit, AndNot(0x3f, 0));
    } else if desc.transform.VecShiftRightNarrow? {
      OrAtLeast(lit, lit / 2);
    } else if desc.transform.RawUnsignedScaled? {
      Square(lit);
    } else if desc.transform.AddSubShiftedImm? {
      if lit < 0x1000 { LiteralReadBack(desc); } else { NoShiftedLiteral(lit); }
    }
  }

  lemma LogicalNeverItself(value: u32, width: nat)
    ensures SignedLogical(value, width) != Some(value)
  {
    hide LogicalImm.Decode;
    LogicalLiteral.NeverItself(value, width);
    LogicalWidth(value, width);
  }

  lemma NoShiftedLiteral(lit: u32)
    requires lit >= 0x1000
    ensures (if And(lit, 0x1000) != 0 then Shl(And(lit, 0xfff), 12) else And(lit, 0xfff)) != lit
  {
    assert Pow2(12) == 0x1000;
    hide And, Shl, Low, Bit, Pow2;
    AddSubAgain(lit);
    LowPlusMultiple(0, 12, Low(lit, 12));
    LowAtMost(0, 12);
  }

  lemma Square(n: nat)
    ensures n * n == n <==> n <= 1
  {
    if n > 1 { assert n * n >= 2 * n; }
  }

  lemma {:induction false} OrAtLeast(a: nat, b: nat)
    ensures Or(a, b) >= a
    decreases a
  {
    if a > 0 { OrAtLeast(a / 2, b / 2); }
  }

  /** A narrowing shift whose literal is not a power of two loses immediates: with literal 12 the
      encoder accepts 4 and the decoder returns 6. */
  lemma NarrowCounterexample()
    ensures var desc := OperandDesc(0, KindImm, 32, VecShiftRightNarrow, false, 0, 0xff, 12);
            EncodeImm(4, desc) == Some(0) && DecodeImm(0, desc) == Some(6)
  {
    assert And(8, 5) == 0;
  }

  ghost predicate RoundTrips(desc: OperandDesc) {
    forall imm: i64 :: EncodeImm(imm, desc).Some? ==> DecodeImm(EncodeImm(imm, desc).value, desc) == Some(ReadBack(imm, desc))
  }

  /** The narrowing shift round trips for every immediate exactly when it accepts none, or has a source field and
      a literal that is a power of two. */
  lemma NarrowExact(desc: OperandDesc)
    requires desc.transform.VecShiftRightNarrow?
    ensures RoundTrips(desc) <==> desc.literal == 0 || (desc.sourceMask != 0 && exists k: nat :: desc.literal == Pow2(k))
  {
    hide EncodeImm, DecodeImm, RoundTrips, Pow2;
    ImmExact(desc);
    NarrowLiterals(desc);
  }

  lemma NarrowLiterals(desc: OperandDesc)
    requires desc.transform.VecShiftRightNarrow?
    ensures (exists k: nat :: NarrowLiteral(desc, k)) <==> desc.literal == 0 || exists k: nat :: desc.literal == Pow2(k)
  {
    hide Pow2;
    assert desc.literal == 0 ==> NarrowLiteral(desc, 0);
    if k: nat :| desc.literal == Pow2(k) {
      assert NarrowLiteral(desc, k);
      assert exists j: nat :: desc.literal == Pow2(j);
    } else if k: nat :| NarrowLiteral(desc, k) {
      assert desc.literal == 0 || desc.literal == Pow2(k);
    }
  }

  /** A descriptor of any kind gives every accepted immediate back exactly when it does not carry a literal that
      its transform changes, and is no narrowing shift by other than a power of two. */
  lemma ImmExact(desc: OperandDesc)
    ensures RoundTrips(desc) <==> LiteralIsPlain(desc) && exists k: nat :: NarrowLiteral(desc, k)
  {
    hide EncodeImm, DecodeImm;
    if !LiteralIsPlain(desc) {
      LiteralLost(desc);
    } else if k: nat :| NarrowLiteral(desc, k) {
      forall imm: i64 | EncodeImm(imm, desc).Some?
        ensures DecodeImm(EncodeImm(imm, desc).value, desc) == Some(ReadBack(imm, desc))
      {
        ImmRoundTrip(imm, desc, k);
      }
    } else {
      forall k: nat ensures desc.literal != Pow2(k) { assert !NarrowLiteral(desc, k); }
      assert !NarrowLiteral(desc, 0);
      var imm := NarrowWitness(desc);
    }
  }

  /** The literal itself is accepted and not given back. */
  lemma LiteralLost(desc: OperandDesc)
    requires !LiteralIsPlain(desc)
    ensures EncodeImm(desc.literal, desc) == Some(desc.literal)
    ensures DecodeImm(desc.literal, desc) != Some(ReadBack(desc.literal, desc))
  {
    hide DecodeImm;
    LiteralExact(desc);
  }

  lemma TopBitAside(k: nat, v: nat)
    requires v < Pow2(k)
    ensures And(Pow2(k), v) == 0
  {
    hide And, Bit;
    forall i: nat ensures Bit(And(Pow2(k), v), i) == Bit(0, i) {
      BitAnd(Pow2(k), v, i);
      BitPow2(k, i);
      BitZero(i);
      if i == k { BitAbove(v, k, k); }
    }
    SameBits(And(Pow2(k), v), 0);
  }

  lemma NarrowWitness(desc: OperandDesc) returns (imm: i64)
    requires desc.transform.VecShiftRightNarrow? && desc.sourceMask != 0 && desc.literal != 0
    requires forall k: nat :: desc.literal != Pow2(k)
    ensures EncodeImm(imm, desc).Some? && DecodeImm(EncodeImm(imm, desc).value, desc) != Some(imm)
  {
    var lit := desc.literal;
    var half := lit / 2;
    assert lit != 1 by { assert Pow2(0) == 1; }
    var k := SourceWidth(half);
    SourceWidthBounds(half);
    assert lit != Pow2(k);
    imm := lit - Pow2(k);
    TopBitAside(k, half - 1);
    hide And, Pow2, SourceWidth;
    assert EncodeImm(imm, desc) == RawUnsigned(0, desc.sourceMask);
    assert DecodeImm(0, desc) == Some(lit - half);
  }

  // ---- and back

  /** The field, with the top bit that the decoder adds, is in the upper half of the literal's range and has no
      other bit than the mask's. */
  predicate NarrowReencodes(value: u32, mask: u32, lit: u32) {
    var half := lit / 2;
    lit - half <= Or(value, half) < lit && AndNot(And(Or(value, half), half - 1), mask) == 0
  }

  /** The field values whose immediate the encoder takes back. */
  predicate Reencodes(value: u32, desc: OperandDesc) {
    match desc.transform
    case RawUnsignedField => true
    case RawSignedField => true
    case RawUnsignedScaled => true
    case RawUnsignedOffset => true
    case FixedPointScale => true
    case RawSignedScaled => true
    case ComplexRotate => true
    case AddSubShiftedImm => true
    case VecShiftRightNarrow => NarrowReencodes(value, desc.sourceMask, desc.literal)
    case LogicalImm32 => true
    case LogicalImm64 => true
    case VecShiftRight => value < desc.literal
    case MovShift32 => value == 0 || value == 16
    case MovShift64 => value == 0 || value == 16 || value == 32 || value == 48
    case _ => false
  }

  predicate IsScaled(t: Transform) {
    t.RawUnsignedScaled? || t.RawSignedScaled?
  }

  lemma ScaledAccepted(value: u32, desc: OperandDesc, imm: i64)
    requires IsScaled(desc.transform) && (desc.sourceMask != 0 || desc.literal == 0)
    requires AndNot(value, desc.sourceMask) == 0 && DecodeImm(value, desc) == Some(imm)
    ensures EncodeImm(imm, desc).Some?
  {
    hide AndNot, SourceWidth, SignExtend, RawSigned, TruncDiv, TruncMod;
    var mask, lit := desc.sourceMask, desc.literal;
    if desc.transform.RawUnsignedScaled? {
      ExactQuotient(value, lit);
    } else {
      ExactQuotient(SignExtend(value, SourceWidth(mask)), lit);
      SignedAgain(value, mask);
    }
  }

  predicate IsCombined(t: Transform) {
    t.FixedPointScale? || t.AddSubShiftedImm? || t.VecShiftRightNarrow?
  }

  lemma CombinedAccepted(value: u32, desc: OperandDesc, imm: i64)
    requires IsCombined(desc.transform) && (desc.sourceMask != 0 || desc.literal == 0)
    requires AndNot(value, desc.sourceMask) == 0 && DecodeImm(value, desc) == Some(imm)
    ensures EncodeImm(imm, desc).Some? <==> Reencodes(value, desc)
  {
    hide And, Or, AndNot;
    var mask, lit := desc.sourceMask, desc.literal;
    Within(value, mask);
    match desc.transform
    case FixedPointScale =>
      FixedPointAgain(value, mask);
    case AddSubShiftedImm =>
      AddSubAgain(value);
      AddSubWithin(value, mask);
    case VecShiftRightNarrow =>
      OrSymmetric(value, lit / 2);
      OrAtLeast(lit / 2, value);
  }

  /** A decoded immediate is accepted by the encoder, except for the field values ruled out by
      `Reencodes`. */
  lemma DecodedIsAccepted(value: u32, desc: OperandDesc, imm: i64)
    requires desc.sourceMask != 0 || desc.literal == 0
    requires AndNot(value, desc.sourceMask) == 0 && DecodeImm(value, desc) == Some(imm)
    ensures EncodeImm(imm, desc).Some? <==> Reencodes(value, desc)
  {
    if IsScaled(desc.transform) || IsCombined(desc.transform) {
      hide DecodeImm, EncodeImm, AndNot;
      if IsScaled(desc.transform) { ScaledAccepted(value, desc, imm); } else { CombinedAccepted(value, desc, imm); }
    } else {
      PlainAccepted(value, desc, imm);
    }
  }

  lemma PlainAccepted(value: u32, desc: OperandDesc, imm: i64)
    requires !IsScaled(desc.transform) && !IsCombined(desc.transform) && (desc.sourceMask != 0 || desc.literal == 0)
    requires AndNot(value, desc.sourceMask) == 0 && DecodeImm(value, desc) == Some(imm)
    ensures EncodeImm(imm, desc).Some? <==> Reencodes(value, desc)
  {
    hide And, AndNot, SourceWidth, SignExtend, RawSigned, LogicalImm.LogicalImmEncoding, LogicalImm.Decode;
    var mask := desc.sourceMask;
    Within(value, mask);
    match desc.transform
    case RawSignedField =>
      SignedAgain(value, mask);
    case LogicalImm32 =>
      LogicalAgain(value, desc.width, mask, imm);
    case LogicalImm64 =>
      LogicalAgain(value, desc.width, mask, imm);
    case _ =>
  }

  predicate IsLogical(t: Transform) {
    t.LogicalImm32? || t.LogicalImm64?
  }

  /** The field that the encoder gives for a decoded immediate that is not logical: the same one, but a shift of zero
      is dropped, as are bits above a shifted immediate, and the top bit that a narrowing shift implies. */
  function FieldAgain(value: u32, desc: OperandDesc): nat {
    match desc.transform
    case AddSubShiftedImm =>
      var low := Low(value, 12);
      if Bit(value, 12) && low != 0 then low + 0x1000 else low
    case VecShiftRightNarrow => if desc.literal < 2 then value else And(Or(value, desc.literal / 2), desc.literal / 2 - 1)
    case _ => value
  }

  /** The field that a decoded immediate is encoded to again: `FieldAgain`, or for logical immediates the least one in
      the mask with the same fields up to the reduced rotation, which under a full mask is the canonical one. */
  lemma DecodedField(value: u32, desc: OperandDesc, imm: i64)
    requires desc.sourceMask != 0 || desc.literal == 0
    requires AndNot(value, desc.sourceMask) == 0 && DecodeImm(value, desc) == Some(imm) && Reencodes(value, desc)
    ensures EncodeImm(imm, desc).Some?
    ensures var field := EncodeImm(imm, desc).value;
            if !IsLogical(desc.transform) then field == FieldAgain(value, desc)
            else
              && field <= value
              && LogicalImm.Decode(field, desc.width) == LogicalImm.Decode(value, desc.width)
              && LogicalImm.ShapeOf(value, desc.width).Some?
              && (LogicalImmTheory.FullMask(desc.sourceMask, desc.width) ==> field == LogicalImmTheory.Canonical(value, desc.width))
  {
    DecodedIsAccepted(value, desc, imm);
    hide And, Or, AndNot, Pow2, SourceWidth, SignExtend, RawSigned, Low, Bit, LogicalImm.LogicalImmEncoding, LogicalImm.Decode,
         LogicalImm.ShapeOf, LogicalImmTheory.Canonical;
    var mask, lit := desc.sourceMask, desc.literal;
    Within(value, mask);
    match desc.transform
    case RawSignedField => SignedAgain(value, mask);
    case RawUnsignedScaled => ExactQuotient(value, lit);
    case RawSignedScaled =>
      ExactQuotient(SignExtend(value, SourceWidth(mask)), lit);
      SignedAgain(value, mask);
    case FixedPointScale => FixedPointAgain(value, mask);
    case AddSubShiftedImm =>
      AddSubAgain(value);
      AddSubWithin(value, mask);
    case LogicalImm32 => LogicalField(value, desc.width, mask, imm);
    case LogicalImm64 => LogicalField(value, desc.width, mask, imm);
    case _ =>
  }

  lemma DecodedShape(value: u32, width: nat)
    ensures LogicalImm.Decode(value, width).Some? ==> LogicalImm.ShapeOf(value, width).Some?
  {
    hide LogicalImm.ShapeOf, LogicalImm.ValueOf;
  }

  lemma LogicalField(value: u32, width: nat, mask: u32, imm: i64)
    requires AndNot(value, mask) == 0 && SignedLogical(value, width) == Some(imm)
    ensures LogicalImm.LogicalImmEncoding(imm, width, mask).Some? && LogicalImm.ShapeOf(value, width).Some?
    ensures var field := LogicalImm.LogicalImmEncoding(imm, width, mask).value;
            && field <= value
            && LogicalImm.Decode(field, width) == LogicalImm.Decode(value, width)
            && (LogicalImmTheory.FullMask(mask, width) ==> field == LogicalImmTheory.Canonical(value, width))
  {
    hide LogicalImm.Decode, AndNot, LogicalImm.LogicalImmEncoding, LogicalImm.ShapeOf, LogicalImmTheory.Canonical;
    DecodedShape(value, width);
    LogicalAgain(value, width, mask, imm);
    LogicalImm.EncoderMeaning(imm, width, mask);
    var field, wanted := LogicalImm.LogicalImmEncoding(imm, width, mask).value, LogicalImm.Wanted(imm, width);
    if LogicalImmTheory.FullMask(mask, width) {
      LogicalImmTheory.LeastIsCanonical(value, field, wanted, width, mask);
    }
  }

  lemma SignedAgain(value: u32, mask: u32)
    requires AndNot(value, mask) == 0
    ensures var w := SourceWidth(mask);
            if w == 0 then value == 0 && RawSigned(0, mask) == Some(value)
            else -0x8000_0000_0000_0000 <= SignExtend(value, w) < 0x8000_0000_0000_0000
                 && RawSigned(SignExtend(value, w), mask) == Some(value)
  {
    hide SignExtend;
    Within(value, mask);
    if mask != 0 { SignedAccepted(value, mask); }
  }

  lemma LogicalAgain(value: u32, width: nat, mask: u32, imm: i64)
    requires AndNot(value, mask) == 0 && SignedLogical(value, width) == Some(imm)
    ensures LogicalImm.LogicalImmEncoding(imm, width, mask).Some?
    ensures LogicalImm.Encodes(value, LogicalImm.Wanted(imm, width), width, mask)
  {
    LogicalWidth(value, width);
    hide LogicalImm.Decode, AndNot, LogicalImm.LogicalImmEncoding;
    LogicalImm.EncoderMeaning(imm, width, mask);
    assert LogicalImm.Encodes(value, LogicalImm.Wanted(imm, width), width, mask);
  }

  lemma LogicalWidth(value: u32, width: nat)
    ensures var v := LogicalImm.Decode(value, width);
            v.Some? ==> (width == 32 && v.value < U32) || (width == 64 && v.value < U64)
  {
    LogicalImmTheory.ShapeIsValid(value, width);
    WordSizes();
    hide LogicalImm.ShapeOf, LogicalImm.ValueOf, Pow2;
    if LogicalImm.Decode(value, width).Some? {
      LogicalImmTheory.BitOfValue(LogicalImm.ShapeOf(value, width).value, width, 0);
    }
  }

  /** With a power of two as its literal, a narrowing shift takes every decoded immediate back, unless the literal
      is 1. */
  lemma PowerReencodes(value: u32, mask: u32, lit: u32, k: nat)
    requires lit == Pow2(k) && AndNot(value, mask) == 0 && Or(value, lit / 2) <= lit
    ensures NarrowReencodes(value, mask, lit) <==> lit > 1
  {
    hide And, Or, AndNot, Pow2;
    NarrowAgain(value, mask, lit, k);
  }

  lemma ExactQuotient(a: int, lit: u32)
    requires lit != 0
    ensures TruncMod(a * lit, lit) == 0 && TruncDiv(a * lit, lit) == a
  {
    if a >= 0 {
      NotNegative(a, lit);
      Residues.Unique(a * lit, a, 0, lit);
    } else {
      NotNegative(-a, lit);
      assert -(a * lit) == (-a) * lit;
      Residues.Unique(-(a * lit), -a, 0, lit);
    }
  }

  lemma NotNegative(a: int, b: int)
    requires a >= 0 && b > 0
    ensures a * b >= 0 && (a > 0 ==> a * b > 0)
  {
  }

  lemma FixedPointAgain(value: u32, mask: u32)
    requires AndNot(value, mask) == 0
    ensures var v := Or(value, AndNot(0x3f, mask));
            AndNot(v, mask) == AndNot(0x3f, mask) && And(v, mask) == value
  {
    var v := Or(value, AndNot(0x3f, mask));
    OrBits(value, AndNot(0x3f, mask));
    AndNotBits(0x3f, mask);
    AndNotBits(v, mask);
    AndBits(v, mask);
    forall i: nat ensures Bit(value, i) ==> Bit(mask, i) {
      BitAndNot(value, mask, i);
      BitZero(i);
    }
    SameBits(AndNot(v, mask), AndNot(0x3f, mask));
    SameBits(And(v, mask), value);
  }

  /** The decoded add/subtract immediate: the low twelve bits, shifted when bit 12 is set. */
  lemma AddSubAgain(value: nat)
    ensures (if And(value, 0x1000) != 0 then Shl(And(value, 0xfff), 12) else And(value, 0xfff))
              == if Bit(value, 12) then Low(value, 12) * 4096 else Low(value, 12)
    ensures Low(value, 12) < 4096 && Low(value, 12) <= value
    ensures Bit(value, 12) ==> Low(value, 12) + 4096 <= value
  {
    assert Pow2(12) == 0x1000 && Ones(12) == 0xfff;
    hide And, Shl, Low, Bit, Pow2, Shr;
    AndOnes(value, 12);
    ShlIsTimes(And(value, 0xfff), 12);
    LowTop(value, 12);
    LowAtMost(value, 12);
    LowAtMost(value, 13);
    BitTwelve(value);
  }

  lemma LowWithin(value: nat, mask: nat, n: nat)
    requires AndNot(value, mask) == 0
    ensures AndNot(Low(value, n), mask) == 0
  {
    LowBits(value, n);
    AndNotBits(value, mask);
    AndNotBits(Low(value, n), mask);
    forall i: nat ensures Bit(AndNot(Low(value, n), mask), i) == Bit(0, i) {
      BitZero(i);
      assert Bit(AndNot(value, mask), i) == Bit(0, i);
    }
    SameBits(AndNot(Low(value, n), mask), 0);
  }

  lemma AddSubWithin(value: u32, mask: u32)
    requires AndNot(value, mask) == 0
    ensures AndNot(Low(value, 12), mask) == 0 && AndNot(0, mask) == 0
    ensures Bit(value, 12) ==> AndNot(Low(value, 12) + 4096, mask) == 0
  {
    assert Pow2(12) == 4096;
    LowWithin(value, mask, 12);
    LowWithin(value, mask, 13);
    LowTop(value, 12);
  }

  lemma NarrowAgain(value: u32, mask: u32, lit: u32, k: nat)
    requires lit == Pow2(k) && AndNot(value, mask) == 0 && Or(value, lit / 2) <= lit
    ensures k == 0 ==> lit == 1
    ensures var v := Or(value, lit / 2);
            k > 0 ==> lit % 2 == 0 && lit / 2 <= v < lit && AndNot(And(v, lit / 2 - 1), mask) == 0
  {
    if k > 0 {
      var half := Pow2(k - 1);
      assert lit == 2 * half;
      hide Pow2, And, Or, AndNot, Low;
      OrPow2Range(value, k - 1);
      AndOnes(Or(value, half), k - 1);
      LowOfOr(value, k - 1);
      LowWithin(value, mask, k - 1);
    }
  }

  lemma OrPow2Range(value: nat, n: nat)
    ensures Pow2(n) <= Or(value, Pow2(n)) != Pow2(n + 1)
  {
    hide Or, Bit;
    OrSymmetric(value, Pow2(n));
    OrAtLeast(Pow2(n), value);
    BitOr(value, Pow2(n), n);
    BitPow2(n, n);
    BitPow2(n + 1, n);
  }

  lemma LowOfOr(value: nat, n: nat)
    ensures Low(Or(value, Pow2(n)), n) == Low(value, n)
  {
    hide Or, Bit, Low, Pow2;
    OrBits(value, Pow2(n));
    Pow2Bits(n);
    LowBits(Or(value, Pow2(n)), n);
    LowBits(value, n);
    SameBits(Low(Or(value, Pow2(n)), n), Low(value, n));
  }

  lemma OrSymmetric(a: nat, b: nat)
    ensures Or(a, b) == Or(b, a)
  {
    OrBits(a, b);
    OrBits(b, a);
    SameBits(Or(a, b), Or(b, a));
  }
}
