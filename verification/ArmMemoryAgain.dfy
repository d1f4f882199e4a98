/** A32 and T32 memory operands the other way round: what the encoder makes of an operand that the decoder read. */
module ArmMemoryAgain {
  import opened Bits
  import opened Wrappers
  import opened Operands
  import opened ArmDescs
  import opened ArmMemory
  import opened PackedFields
  import Residues

  // ---- which bits count

  /** The forms that look at their field through the source mask. */
  predicate IsMasked(t: Transform) {
    t.MemBase? || t.MemNeonAddrMode6? || t.MemNeonAm6Offset? || t.MemMveAddr? || t.MemMveAddrQ? || t.MemMveAddrQi?
  }

  function Seen(v: nat, d: Desc): nat {
    if IsMasked(d.transform) then And(v, d.sourceMask) else v
  }

  /** Where the form has a bit that says "add", and how wide the displacement is that it goes with. */
  function AddAt(v: nat, d: Desc): Option<(nat, nat)> {
    match d.transform
    case MemArmImm12 => Some((12, 12))
    case MemArmAddrMode5 => Some((8, 8))
    case MemT2NegImm8 => Some((8, 8))
    case MemT2Imm8s4 => Some((8, 8))
    case MemT2Imm7s4 => Some((7, 7))
    case MemArmAddrMode3 => if Bit(v, 13) then Some((8, 8)) else None
    case MemArmAm3Offset => if Bit(v, 9) then Some((8, 8)) else None
    case MemMveAddr => if d.sourceMask == 0x7f then None else Some((7, 7))
    case MemMveAddrQi => Some((7, 7))
    case _ => None
  }

  /** The field says that a zero is to be subtracted. */
  predicate SubtractsZero(v: nat, d: Desc) {
    var add := AddAt(v, d);
    add.Some? && !Bit(Seen(v, d), add.value.0) && Get(Seen(v, d), 0, add.value.1) == 0
  }

  /** What the decoder sees, with a subtracted zero turned into an added one. */
  function Canonical(v: nat, d: Desc): nat {
    if SubtractsZero(v, d) then Or(Seen(v, d), Pow2(AddAt(v, d).value.0)) else Seen(v, d)
  }

  /** The bits that make a difference; where a register offset stands in place of an immediate, its upper bits do not. */
  predicate Counts(v: nat, d: Desc, i: nat) {
    match d.transform
    case MemThumbSp => i < 8
    case MemThumbPc => i < 8
    case MemThumbRr => i < 6
    case MemT2SoReg => i < 10
    case MemArmAddrMode3 => i < 14 && (Bit(v, 13) || i < 4 || i >= 8)
    case MemArmAm3Offset => i < 10 && (Bit(v, 9) || i < 4 || i >= 8)
    case MemArmLdstSoReg => i < 17 && i != 4
    case MemArmAm2OffsetReg => i < 13 && i != 4
    case MemArmImm12 => i < 17
    case MemArmAddrMode5 => i < 13
    case MemThumbImm1 => i < 8
    case MemThumbImm2 => i < 8
    case MemThumbImm4 => i < 8
    case MemT2Imm12 => i < 17 && i != 12
    case MemT2PosImm8 => i < 13 && i != 8
    case MemT2NegImm8 => i < 13 && (i != 8 || And(d.sourceMask, 0x100) != 0 || Get(v, 0, 8) == 0)
    case MemT2ForceNegImm8 => i < 13 && i != 8
    case MemT2Imm8s4 => i < 13
    case MemT2Imm7s4 => i < 12
    case MemT2Imm0To1020s4 => i < 12
    case MemNeonAddrMode6 => i < 6
    case MemMveAddr => i < if d.sourceMask == 0x7f then 7 else if d.sourceMask == 0xff then 8 else 12
    case MemMveAddrQ => i < 7
    case MemMveAddrQi => i < 11
    case MemTbb => i < 8
    case MemTbh => i < 8
    case _ => true
  }

  /** The fields whose operands the encoder takes back: without mask bit 0x100 the 8-bit negative form does not take the
      positive displacements that it is read as; an MVE zero needs the add bit in its mask, and a table branch both of
      its registers. */
  predicate TakenBack(v: nat, d: Desc) {
    match d.transform
    case MemT2NegImm8 => And(d.sourceMask, 0x100) != 0 || Bit(v, 8) || Get(v, 0, 8) == 0
    case MemMveAddr => d.sourceMask == 0x7f || Bit(d.sourceMask, 7) || Get(Seen(v, d), 0, 7) != 0
    case MemTbb => AndNot(Get(v, 0, 8), d.sourceMask) == 0
    case MemTbh => AndNot(Get(v, 0, 8), d.sourceMask) == 0
    case _ => true
  }

  /** The encoder gives the field as it was seen, with the bits that count. */
  ghost predicate IsAgain(w: nat, v: nat, d: Desc) {
    forall i: nat :: Bit(w, i) <==> Counts(v, d, i) && Bit(Canonical(v, d), i)
  }

  /** The encoder takes the decoded operand back exactly for the fields that `TakenBack` names. */
  ghost predicate IsTaken(regs: Registers, v: nat, d: Desc)
    requires DecodeMem(v, d).Some?
  {
    var w := EncodeMem(regs, DecodeMem(v, d).value, d);
    (w.Some? <==> TakenBack(v, d)) && (w.Some? ==> IsAgain(w.value, v, d))
  }

  // ---- packing what was read

  predicate Spans(fields: seq<Field>, i: nat) {
    exists k :: 0 <= k < |fields| && fields[k].at <= i < fields[k].at + fields[k].width
  }

  ghost predicate AreRead(fields: seq<Field>, v: nat) {
    forall k :: 0 <= k < |fields| ==> fields[k].value == Get(v, fields[k].at, fields[k].width)
  }

  /** Fields that were read out of a word give the bits that they span. */
  lemma PackRead(fields: seq<Field>, v: nat, i: nat)
    requires AreRead(fields, v)
    ensures Bit(Pack(fields), i) <==> Spans(fields, i) && Bit(v, i)
  {
    hide Bit, Pack, Get;
    BitOfPack(fields, i);
    forall k | 0 <= k < |fields| && i >= fields[k].at
      ensures Bit(fields[k].value, i - fields[k].at) <==> i < fields[k].at + fields[k].width && Bit(v, i)
    {
      BitOfGet(v, fields[k].at, fields[k].width, i - fields[k].at);
    }
  }

  lemma GetAside(v: nat, k: nat, at: nat, width: nat)
    ensures k < at || k >= at + width ==> Get(Or(v, Pow2(k)), at, width) == Get(v, at, width)
    ensures Get(Or(v, Pow2(k)), k, 1) == 1
  {
    hide Bit, Get, Or, Pow2;
    var w := Or(v, Pow2(k));
    OrBits(v, Pow2(k));
    Pow2Bits(k);
    if k < at || k >= at + width {
      forall i: nat ensures Bit(Get(w, at, width), i) == Bit(Get(v, at, width), i) {
        BitOfGet(w, at, width, i);
        BitOfGet(v, at, width, i);
      }
      SameBits(Get(w, at, width), Get(v, at, width));
    }
    OneBit(w, k);
  }

  /** A one-bit field is the bit. */
  lemma OneBit(v: nat, k: nat)
    ensures Get(v, k, 1) == if Bit(v, k) then 1 else 0
  {
    assert Pow2(1) == 2;
    assert Bit(1, 0) && !Bit(0, 0);
    hide Get, Pow2;
    GetBelow(v, k, 1);
    BitOfGet(v, k, 1, 0);
  }

  predicate At(f: Field, i: nat) {
    f.at <= i < f.at + f.width
  }

  lemma TwoSpans(fields: seq<Field>, i: nat)
    requires |fields| == 2
    ensures Spans(fields, i) <==> At(fields[0], i) || At(fields[1], i)
  {
  }

  lemma ThreeSpans(fields: seq<Field>, i: nat)
    requires |fields| == 3
    ensures Spans(fields, i) <==> At(fields[0], i) || At(fields[1], i) || At(fields[2], i)
  {
  }

  /** One more field. */
  lemma MoreSpans(fields: seq<Field>, f: Field, i: nat)
    ensures Spans(fields + [f], i) <==> Spans(fields, i) || At(f, i)
  {
    var more := fields + [f];
    assert more[|fields|] == f;
    assert forall k :: 0 <= k < |fields| ==> more[k] == fields[k];
  }

  // ---- base and displacement

  /** The displacement range of a layout is that of its magnitude field. */
  predicate WholeRange(l: Layout) {
    && l.scale > 0
    && l.max == (Pow2(l.immWidth) - 1) * l.scale
    && l.min == (if l.signAt.Some? then -l.max else 0)
    && l.positive == l.signAt.Some?
    && l.baseWidth <= 4
  }

  lemma Rescaled(magnitude: nat, scale: nat, limit: nat)
    requires scale > 0 && magnitude < limit
    ensures magnitude * scale % scale == 0 && magnitude * scale / scale == magnitude
    ensures -(magnitude * scale) % scale == 0
    ensures 0 <= magnitude * scale <= (limit - 1) * scale
  {
    var minus := -(magnitude as int);
    Residues.Unique(magnitude * scale, magnitude, 0, scale);
    Residues.Unique(minus * scale, minus, 0, scale);
  }

  predicate LaidAt(l: Layout, i: nat) {
    || l.immAt <= i < l.immAt + l.immWidth
    || l.baseAt <= i < l.baseAt + l.baseWidth
    || l.signAt == Some(i)
  }

  lemma LayoutSpans(l: Layout, magnitude: nat, base: nat, sign: nat, i: nat)
    ensures Spans(LayoutFields(l, magnitude, base, sign), i) <==> LaidAt(l, i)
  {
    var fields := LayoutFields(l, magnitude, base, sign);
    assert fields[0] == Field(l.immAt, l.immWidth, magnitude) && fields[1] == Field(l.baseAt, l.baseWidth, base);
    if l.signAt.Some? { assert fields[2] == Field(l.signAt.value, 1, sign); }
  }

  /** The field with the add bit of a zero. */
  function Added(v: nat, l: Layout): nat {
    if l.signAt.Some? && !Bit(v, l.signAt.value) && Get(v, l.immAt, l.immWidth) == 0 then Or(v, Pow2(l.signAt.value)) else v
  }

  lemma AddedReads(v: nat, l: Layout)
    requires ValidLayout(l)
    ensures Get(Added(v, l), l.immAt, l.immWidth) == Get(v, l.immAt, l.immWidth)
    ensures Get(Added(v, l), l.baseAt, l.baseWidth) == Get(v, l.baseAt, l.baseWidth)
    ensures l.signAt.Some? ==>
              Get(Added(v, l), l.signAt.value, 1) == if Bit(v, l.signAt.value) || Get(v, l.immAt, l.immWidth) == 0 then 1 else 0
  {
    if l.signAt.Some? {
      hide Get, Or, Bit, Pow2;
      var k := l.signAt.value;
      GetAside(v, k, l.immAt, l.immWidth);
      GetAside(v, k, l.baseAt, l.baseWidth);
      OneBit(v, k);
    }
  }

  /** What the decoder reads from a layout is taken back. */
  lemma LayoutTaken(regs: Registers, v: nat, width: nat, l: Layout, read: Layout)
    requires ValidRegisters(regs) && WholeRange(l) && read == l.(min := read.min, max := read.max)
    ensures var back := BaseDispOperand(v, width, read);
            var imm, base := Get(v, l.immAt, l.immWidth), Get(v, l.baseAt, l.baseWidth);
            BaseDispField(regs, back, l)
            == Some(Pack(LayoutFields(l, imm, base,
                                      if l.signAt.Some? && (Get(v, l.signAt.value, 1) != 0 || imm == 0) then 1 else 0)))
  {
    var imm, base := Get(v, l.immAt, l.immWidth), Get(v, l.baseAt, l.baseWidth);
    GetBelow(v, l.immAt, l.immWidth);
    GetBelow(v, l.baseAt, l.baseWidth);
    GetFits(v, l.baseAt, l.baseWidth);
    hide Get, Pow2, Pack, ValidRegisters;
    CoreEncoding(regs, Core(base));
    Rescaled(imm, l.scale, Pow2(l.immWidth));
    ZeroTimes(imm, l.scale);
    hide LayoutFields;
  }

  lemma ZeroTimes(a: nat, b: nat)
    requires b > 0
    ensures a * b == 0 <==> a == 0
  {
  }

  /** The bits of the field that a layout is packed to again. */
  lemma LayoutAgain(regs: Registers, v: nat, width: nat, l: Layout, read: Layout)
    requires ValidRegisters(regs) && WholeRange(l) && ValidLayout(l) && read == l.(min := read.min, max := read.max)
    ensures var w := BaseDispField(regs, BaseDispOperand(v, width, read), l);
            w.Some? && forall i: nat :: Bit(w.value, i) <==> LaidAt(l, i) && Bit(Added(v, l), i)
  {
    LayoutTaken(regs, v, width, l, read);
    AddedReads(v, l);
    if l.signAt.Some? { OneBit(v, l.signAt.value); }
    var u, imm, base := Added(v, l), Get(v, l.immAt, l.immWidth), Get(v, l.baseAt, l.baseWidth);
    var sign := if l.signAt.Some? && (Get(v, l.signAt.value, 1) != 0 || imm == 0) then 1 else 0;
    hide Get, Pow2, Pack, Bit, ValidRegisters, BaseDispField, BaseDispOperand, Added;
    var fields := LayoutFields(l, imm, base, sign);
    assert AreRead(fields, u);
    forall i: nat ensures Bit(Pack(fields), i) <==> LaidAt(l, i) && Bit(u, i) {
      PackRead(fields, u, i);
      LayoutSpans(l, imm, base, sign, i);
    }
  }

  predicate HasLayout(d: Desc) {
    EncodeLayout(d).Some? && DecodeLayout(d).Some?
  }

  /** The encoder's and the decoder's layouts are the same but for the bounds, and the bounds are what the field holds;
      the 8-bit negative form without mask bit 0x100 is the exception. */
  lemma SameLayouts(d: Desc)
    requires HasLayout(d) && (d.transform.MemT2NegImm8? ==> And(d.sourceMask, 0x100) != 0)
    ensures var l, read := EncodeLayout(d).value, DecodeLayout(d).value;
            && WholeRange(l) && ValidLayout(l) && read == l.(min := read.min, max := read.max)
            && (AddAt(0, d) == if l.signAt.Some? then Some((l.signAt.value, l.immWidth)) else None)
            && (l.signAt.Some? ==> l.immAt == 0)
  {
    Powers();
    assert Pow2(12) == 0x1000;
    hide And;
  }

  lemma LayoutCounts(d: Desc, v: nat, i: nat)
    requires EncodeLayout(d).Some? && (d.transform.MemT2NegImm8? ==> And(d.sourceMask, 0x100) != 0)
    ensures LaidAt(EncodeLayout(d).value, i) <==> Counts(v, d, i)
  {
    hide And;
  }

  lemma LayoutForm(regs: Registers, v: nat, d: Desc)
    requires HasLayout(d)
    ensures DecodeMem(v, d) == Some(BaseDispOperand(v, d.width, DecodeLayout(d).value))
    ensures forall o: Operand :: EncodeMem(regs, o, d) == BaseDispField(regs, o, EncodeLayout(d).value)
  {
    hide And, BaseDispOperand, BaseDispField;
  }

  lemma LayoutCanonical(v: nat, d: Desc)
    requires HasLayout(d) && (d.transform.MemT2NegImm8? ==> And(d.sourceMask, 0x100) != 0)
    ensures Canonical(v, d) == Added(v, EncodeLayout(d).value) && TakenBack(v, d)
  {
    SameLayouts(d);
    hide Get, Bit, And, Or, Pow2, WholeRange, ValidLayout;
  }

  lemma LayoutCase(regs: Registers, v: nat, d: Desc)
    requires ValidRegisters(regs) && HasLayout(d) && (d.transform.MemT2NegImm8? ==> And(d.sourceMask, 0x100) != 0)
    ensures DecodeMem(v, d).Some? && IsTaken(regs, v, d)
  {
    hide Get, Bit, And, Pow2, ValidRegisters, BaseDispField, BaseDispOperand, LaidAt, Canonical, EncodeMem, DecodeMem, TakenBack,
         Counts, WholeRange, ValidLayout, Added, EncodeLayout, DecodeLayout;
    SameLayouts(d);
    LayoutForm(regs, v, d);
    LayoutCanonical(v, d);
    forall i: nat { LayoutCounts(d, v, i); }
    LayoutAgain(regs, v, d.width, EncodeLayout(d).value, DecodeLayout(d).value);
  }

  // ---- the other forms

  /** Packing fields that were read out of the canonical field, and that span what counts. */
  lemma PackedAgain(fields: seq<Field>, v: nat, d: Desc)
    requires AreRead(fields, Canonical(v, d)) && forall i: nat :: Spans(fields, i) <==> Counts(v, d, i)
    ensures IsAgain(Pack(fields), v, d)
  {
    hide Bit, Pack, Get, Canonical, Counts, Spans;
    forall i: nat { PackRead(fields, Canonical(v, d), i); }
  }

  lemma FixedCase(regs: Registers, v: nat, d: Desc)
    requires d.transform.MemThumbSp? || d.transform.MemThumbPc?
    ensures DecodeMem(v, d).Some? && IsTaken(regs, v, d)
  {
    Powers();
    hide Get, Pow2, Bit, Pack;
    GetBelow(v, 0, 8);
    forall i: nat { BitOfGet(v, 0, 8, i); }
  }

  /** A form that packs the fields that it was read from. */
  lemma PackedCase(regs: Registers, v: nat, d: Desc, fields: seq<Field>)
    requires DecodeMem(v, d).Some? && EncodeMem(regs, DecodeMem(v, d).value, d) == Some(Pack(fields))
    requires AreRead(fields, Canonical(v, d)) && TakenBack(v, d) && forall i: nat :: Spans(fields, i) <==> Counts(v, d, i)
    ensures IsTaken(regs, v, d)
  {
    hide EncodeMem, DecodeMem, Pack, Canonical, TakenBack, Counts, Spans, IsAgain;
    PackedAgain(fields, v, d);
  }

  lemma Cores(regs: Registers, a: nat, b: nat)
    requires ValidRegisters(regs) && a < 16 && b < 16
    ensures regs.gpr4(Core(a)) == Some(a) && regs.gpr4(Core(b)) == Some(b)
  {
  }

  /** The forms that read their whole field and have no add bit. */
  lemma RegisterBits(v: nat, d: Desc)
    requires d.transform.MemThumbRr? || d.transform.MemT2SoReg?
    ensures Canonical(v, d) == v && TakenBack(v, d)
    ensures forall i: nat :: Counts(v, d, i) <==> i < if d.transform.MemThumbRr? then 6 else 10
  {
    hide Get, Bit, And, Or, Pow2;
  }

  lemma ThumbRrForm(regs: Registers, v: nat, d: Desc)
    requires ValidRegisters(regs) && d.transform.MemThumbRr?
    ensures DecodeMem(v, d).Some?
    ensures EncodeMem(regs, DecodeMem(v, d).value, d) == Some(Pack([Field(0, 3, Get(v, 0, 3)), Field(3, 3, Get(v, 3, 3))]))
  {
    Powers();
    GetBelow(v, 0, 3);
    GetBelow(v, 3, 3);
    hide Get, Pack, ValidRegisters, Pow2;
    Cores(regs, Get(v, 0, 3), Get(v, 3, 3));
  }

  lemma ThumbRrCase(regs: Registers, v: nat, d: Desc)
    requires ValidRegisters(regs) && d.transform.MemThumbRr?
    ensures DecodeMem(v, d).Some? && IsTaken(regs, v, d)
  {
    ThumbRrForm(regs, v, d);
    RegisterBits(v, d);
    hide Get, Bit, Pack, ValidRegisters, EncodeMem, DecodeMem, IsTaken, Canonical, TakenBack, Counts;
    var fields := [Field(0, 3, Get(v, 0, 3)), Field(3, 3, Get(v, 3, 3))];
    forall i: nat { TwoSpans(fields, i); }
    PackedCase(regs, v, d, fields);
  }

  lemma ScaleOfBits(bits: nat)
    requires bits < 4
    ensures ScaleBits(Pow2(bits)) == Some(bits) && Pow2(bits) != 0
  {
    assert Pow2(0) == 1 && Pow2(1) == 2 && Pow2(2) == 4 && Pow2(3) == 8;
  }

  function T2SoRegRead(v: nat): seq<Field> {
    [Field(0, 2, Get(v, 0, 2)), Field(2, 4, Get(v, 2, 4)), Field(6, 4, Get(v, 6, 4))]
  }

  lemma T2SoRegForm(regs: Registers, v: nat, d: Desc)
    requires ValidRegisters(regs) && d.transform.MemT2SoReg?
    ensures DecodeMem(v, d).Some? && EncodeMem(regs, DecodeMem(v, d).value, d) == Some(Pack(T2SoRegRead(v)))
  {
    Powers();
    GetBelow(v, 0, 2);
    GetBelow(v, 2, 4);
    GetBelow(v, 6, 4);
    hide Get, Pack, ValidRegisters, Pow2, ScaleBits;
    Cores(regs, Get(v, 6, 4), Get(v, 2, 4));
    ScaleOfBits(Get(v, 0, 2));
  }

  lemma T2SoRegSpans(v: nat)
    ensures AreRead(T2SoRegRead(v), v) && forall i: nat :: Spans(T2SoRegRead(v), i) <==> i < 10
  {
    hide Get, Spans;
    forall i: nat { ThreeSpans(T2SoRegRead(v), i); }
  }

  lemma T2SoRegCase(regs: Registers, v: nat, d: Desc)
    requires ValidRegisters(regs) && d.transform.MemT2SoReg?
    ensures DecodeMem(v, d).Some? && IsTaken(regs, v, d)
  {
    hide *;
    T2SoRegForm(regs, v, d);
    RegisterBits(v, d);
    T2SoRegSpans(v);
    PackedCase(regs, v, d, T2SoRegRead(v));
  }

  // addressing mode 3

  /** How the canonical field reads: the add bit of a zero is set, the rest is as seen. */
  lemma CanonicalReads(v: nat, d: Desc, at: nat, width: nat)
    ensures AddAt(v, d).None? || AddAt(v, d).value.0 < at || AddAt(v, d).value.0 >= at + width ==>
              Get(Canonical(v, d), at, width) == Get(Seen(v, d), at, width)
    ensures AddAt(v, d).Some? ==>
              var (k, n) := AddAt(v, d).value;
              Get(Canonical(v, d), k, 1) == if Bit(Seen(v, d), k) || Get(Seen(v, d), 0, n) == 0 then 1 else 0
  {
    hide Get, Or, Bit, Pow2, AddAt, Seen;
    if AddAt(v, d).Some? {
      GetAside(Seen(v, d), AddAt(v, d).value.0, at, width);
      OneBit(Seen(v, d), AddAt(v, d).value.0);
    }
  }

  function Mode3Read(u: nat, flagAt: nat): seq<Field> {
    [Field(0, if Bit(u, flagAt) then 8 else 4, Get(u, 0, if Bit(u, flagAt) then 8 else 4)), Field(8, 1, Get(u, 8, 1)),
     Field(flagAt, 1, Get(u, flagAt, 1))]
  }

  /** The offset of a decoded operand is taken back; a zero that is subtracted as one that is added. */
  lemma Mode3Taken(regs: Registers, v: nat, u: nat, base: nat, flagAt: nat, width: nat)
    requires ValidRegisters(regs)
    requires Get(u, flagAt, 1) == Get(v, flagAt, 1) && Get(u, 0, 4) == Get(v, 0, 4) && Get(u, 0, 8) == Get(v, 0, 8)
    requires Get(u, 8, 1) == if Bit(v, 8) || (Bit(v, flagAt) && Get(v, 0, 8) == 0) then 1 else 0
    requires Bit(u, flagAt) == Bit(v, flagAt)
    ensures Mode3Offset(regs, Mode3Operand(v, base, flagAt, width), flagAt) == Some(Mode3Read(u, flagAt))
  {
    Powers();
    OneBit(v, flagAt);
    OneBit(v, 8);
    GetBelow(v, 0, 8);
    GetBelow(v, 0, 4);
    hide Get, Bit, Pow2, ValidRegisters;
    Cores(regs, Get(v, 0, 4), 0);
  }

  predicate IsMode3(t: Transform) {
    t.MemArmAddrMode3? || t.MemArmAm3Offset?
  }

  function FlagAt(t: Transform): nat {
    if t.MemArmAddrMode3? then 13 else 9
  }

  function Mode3Fields(u: nat, t: Transform): seq<Field> {
    Mode3Read(u, FlagAt(t)) + if t.MemArmAddrMode3? then [Field(9, 4, Get(u, 9, 4))] else []
  }

  lemma SameBit(a: nat, b: nat, k: nat)
    requires Get(a, k, 1) == Get(b, k, 1)
    ensures Bit(a, k) == Bit(b, k)
  {
    hide Get, Bit;
    OneBit(a, k);
    OneBit(b, k);
  }

  lemma Mode3Canonical(v: nat, d: Desc)
    requires IsMode3(d.transform)
    ensures var u, flagAt := Canonical(v, d), FlagAt(d.transform);
            && Get(u, flagAt, 1) == Get(v, flagAt, 1) && Get(u, 0, 4) == Get(v, 0, 4) && Get(u, 0, 8) == Get(v, 0, 8)
            && Get(u, 8, 1) == (if Bit(v, 8) || (Bit(v, flagAt) && Get(v, 0, 8) == 0) then 1 else 0)
            && Bit(u, flagAt) == Bit(v, flagAt)
            && (d.transform.MemArmAddrMode3? ==> Get(u, 9, 4) == Get(v, 9, 4))
    ensures TakenBack(v, d)
  {
    hide Get, Bit, Canonical, And;
    var flagAt := FlagAt(d.transform);
    CanonicalReads(v, d, flagAt, 1);
    CanonicalReads(v, d, 0, 4);
    CanonicalReads(v, d, 0, 8);
    if d.transform.MemArmAddrMode3? { CanonicalReads(v, d, 9, 4); }
    CanonicalReads(v, d, 8, 1);
    OneBit(v, 8);
    SameBit(Canonical(v, d), v, flagAt);
  }

  lemma Mode3Decoded(v: nat, d: Desc)
    requires IsMode3(d.transform)
    ensures var base := if d.transform.MemArmAddrMode3? then Core(Get(v, 9, 4)) else 0;
            && DecodeMem(v, d) == Some(Mode3Operand(v, base, FlagAt(d.transform), d.width))
            && DecodeMem(v, d).value.mem.base == base && Simple(DecodeMem(v, d).value) && NoShift(DecodeMem(v, d).value)
  {
    hide Get;
  }

  lemma Mode3Encoded(regs: Registers, o: Operand, d: Desc)
    requires IsMode3(d.transform) && Simple(o) && NoShift(o) && Mode3Offset(regs, o, FlagAt(d.transform)).Some?
    requires if d.transform.MemArmAddrMode3? then regs.gpr4(o.mem.base).Some? else o.mem.base == 0
    ensures EncodeMem(regs, o, d)
         == Some(Pack(Mode3Offset(regs, o, FlagAt(d.transform)).value
                      + if d.transform.MemArmAddrMode3? then [Field(9, 4, regs.gpr4(o.mem.base).value)] else []))
  {
    hide Pack, Mode3Offset;
    var offset := Mode3Offset(regs, o, FlagAt(d.transform)).value;
    assert offset + [] == offset;
  }

  lemma Mode3Form(regs: Registers, v: nat, d: Desc)
    requires ValidRegisters(regs) && IsMode3(d.transform)
    ensures DecodeMem(v, d).Some?
    ensures EncodeMem(regs, DecodeMem(v, d).value, d) == Some(Pack(Mode3Fields(Canonical(v, d), d.transform)))
  {
    Mode3Canonical(v, d);
    GetFits(v, 9, 4);
    Mode3Decoded(v, d);
    hide Get, Bit, Pack, ValidRegisters, Canonical, Mode3Read, Mode3Offset, Mode3Operand, DecodeMem, EncodeMem, Simple, NoShift;
    var base := if d.transform.MemArmAddrMode3? then Core(Get(v, 9, 4)) else 0;
    Mode3Taken(regs, v, Canonical(v, d), base, FlagAt(d.transform), d.width);
    if d.transform.MemArmAddrMode3? { Cores(regs, Get(v, 9, 4), 0); }
    Mode3Encoded(regs, DecodeMem(v, d).value, d);
  }

  predicate Mode3Spanned(u: nat, t: Transform, i: nat) {
    var flagAt := FlagAt(t);
    i < (if Bit(u, flagAt) then 8 else 4) || i == 8 || i == flagAt || (t.MemArmAddrMode3? && 9 <= i < 13)
  }

  lemma Mode3Spans(u: nat, t: Transform, i: nat)
    requires IsMode3(t)
    ensures Spans(Mode3Fields(u, t), i) <==> Mode3Spanned(u, t, i)
  {
    hide Get, Bit, Spans;
    ThreeSpans(Mode3Read(u, FlagAt(t)), i);
    if t.MemArmAddrMode3? {
      MoreSpans(Mode3Read(u, FlagAt(t)), Field(9, 4, Get(u, 9, 4)), i);
    } else {
      assert Mode3Read(u, FlagAt(t)) + [] == Mode3Read(u, FlagAt(t));
    }
  }

  lemma Mode3Counts(v: nat, d: Desc, i: nat)
    requires IsMode3(d.transform) && Bit(Canonical(v, d), FlagAt(d.transform)) == Bit(v, FlagAt(d.transform))
    ensures Counts(v, d, i) <==> Mode3Spanned(Canonical(v, d), d.transform, i)
  {
    hide Bit, Canonical;
  }

  lemma Mode3Bits(v: nat, d: Desc)
    requires IsMode3(d.transform)
    ensures AreRead(Mode3Fields(Canonical(v, d), d.transform), Canonical(v, d))
    ensures forall i: nat :: Spans(Mode3Fields(Canonical(v, d), d.transform), i) <==> Counts(v, d, i)
  {
    hide *;
    Mode3Canonical(v, d);
    Mode3AreRead(Canonical(v, d), d.transform);
    forall i: nat ensures Spans(Mode3Fields(Canonical(v, d), d.transform), i) <==> Counts(v, d, i) {
      Mode3Spans(Canonical(v, d), d.transform, i);
      Mode3Counts(v, d, i);
    }
  }

  lemma Mode3AreRead(u: nat, t: Transform)
    ensures AreRead(Mode3Fields(u, t), u)
  {
    hide Get, Bit;
  }

  lemma Mode3Case(regs: Registers, v: nat, d: Desc)
    requires ValidRegisters(regs) && IsMode3(d.transform)
    ensures DecodeMem(v, d).Some? && IsTaken(regs, v, d)
  {
    hide *;
    Mode3Form(regs, v, d);
    Mode3Bits(v, d);
    Mode3Canonical(v, d);
    PackedCase(regs, v, d, Mode3Fields(Canonical(v, d), d.transform));
  }

  // shifted register offsets

  function ShiftRead(v: nat): seq<Field> {
    [Field(0, 4, Get(v, 0, 4)), Field(5, 2, Get(v, 5, 2)), Field(7, 5, Get(v, 7, 5)), Field(12, 1, Get(v, 12, 1))]
  }

  function ShiftFieldsRead(v: nat, t: Transform): seq<Field> {
    ShiftRead(v) + if t.MemArmLdstSoReg? then [Field(13, 4, Get(v, 13, 4))] else []
  }

  /** The shift that was read gives its fields again, the amount 32 and RRX included. */
  lemma ShiftTaken(o: Operand, v: nat)
    requires Get(v, 5, 2) < 4 && Get(v, 7, 5) < 32
    ensures ShiftFields(Shifted(o, v).shiftKind, Shifted(o, v).shiftAmount) == Some((Get(v, 5, 2), Get(v, 7, 5)))
  {
    hide Get;
  }

  lemma ShiftForm(regs: Registers, v: nat, d: Desc)
    requires ValidRegisters(regs) && HasShift(d.transform)
    ensures DecodeMem(v, d).Some?
    ensures EncodeMem(regs, DecodeMem(v, d).value, d) == Some(Pack(ShiftFieldsRead(v, d.transform)))
  {
    Powers();
    GetBelow(v, 5, 2);
    GetBelow(v, 7, 5);
    GetFits(v, 0, 4);
    GetFits(v, 13, 4);
    OneBit(v, 12);
    hide Get, Bit, Pack, ValidRegisters, Pow2, ShiftFields, Shifted;
    Cores(regs, Get(v, 0, 4), Get(v, 13, 4));
    var base := if d.transform.MemArmLdstSoReg? then Core(Get(v, 13, 4)) else 0;
    var o := Indexed(base, Core(Get(v, 0, 4)), 1, d.width).(negativeOffset := Get(v, 12, 1) == 0);
    ShiftTaken(o, v);
    ShiftedKeeps(o, v);
    assert DecodeMem(v, d) == Some(Shifted(o, v));
    ShiftEncoded(regs, Shifted(o, v), v, d);
  }

  lemma ShiftedKeeps(o: Operand, v: nat)
    ensures Shifted(o, v) == o.(shiftKind := Shifted(o, v).shiftKind, shiftAmount := Shifted(o, v).shiftAmount)
  {
    hide Get;
  }

  lemma ShiftEncoded(regs: Registers, o: Operand, v: nat, d: Desc)
    requires HasShift(d.transform) && Simple(o) && NoShiftReg(o) && o.mem.displacement == 0
    requires ShiftFields(o.shiftKind, o.shiftAmount) == Some((Get(v, 5, 2), Get(v, 7, 5)))
    requires regs.gpr4(o.mem.index) == Some(Get(v, 0, 4)) && AddBit(o) == Get(v, 12, 1)
    requires if d.transform.MemArmLdstSoReg? then regs.gpr4(o.mem.base) == Some(Get(v, 13, 4)) else o.mem.base == 0
    ensures EncodeMem(regs, o, d) == Some(Pack(ShiftFieldsRead(v, d.transform)))
  {
    hide Get, Pack, ShiftFields, AddBit;
    assert ShiftRead(v) + [] == ShiftRead(v);
  }

  lemma ShiftSpans(v: nat, t: Transform, i: nat)
    requires HasShift(t)
    ensures Spans(ShiftFieldsRead(v, t), i) <==> i != 4 && i < if t.MemArmLdstSoReg? then 17 else 13
  {
    hide Get, Bit, Spans;
    var three := [Field(0, 4, Get(v, 0, 4)), Field(5, 2, Get(v, 5, 2)), Field(7, 5, Get(v, 7, 5))];
    ThreeSpans(three, i);
    assert three + [Field(12, 1, Get(v, 12, 1))] == ShiftRead(v);
    MoreSpans(three, Field(12, 1, Get(v, 12, 1)), i);
    MoreSpans(ShiftRead(v), Field(13, 4, Get(v, 13, 4)), i);
    assert ShiftRead(v) + [] == ShiftRead(v);
  }

  lemma ShiftBits(v: nat, d: Desc)
    requires HasShift(d.transform)
    ensures Canonical(v, d) == v && TakenBack(v, d)
    ensures forall i: nat :: Counts(v, d, i) <==> i != 4 && i < if d.transform.MemArmLdstSoReg? then 17 else 13
  {
    hide Get, Bit, And, Or, Pow2;
  }

  lemma ShiftAreRead(v: nat, t: Transform)
    ensures AreRead(ShiftFieldsRead(v, t), v)
  {
    hide Get;
  }

  lemma ShiftCase(regs: Registers, v: nat, d: Desc)
    requires ValidRegisters(regs) && HasShift(d.transform)
    ensures DecodeMem(v, d).Some? && IsTaken(regs, v, d)
  {
    hide *;
    ShiftForm(regs, v, d);
    ShiftBits(v, d);
    ShiftAreRead(v, d.transform);
    forall i: nat ensures Spans(ShiftFieldsRead(v, d.transform), i) <==> Counts(v, d, i) {
      ShiftSpans(v, d.transform, i);
    }
    PackedCase(regs, v, d, ShiftFieldsRead(v, d.transform));
  }

  // forms that are tested against the source mask

  /** What was read through a mask fits it again. */
  lemma ReadFitsMask(fields: seq<Field>, v: nat, mask: u32)
    requires AreRead(fields, And(v, mask))
    ensures Masked(Pack(fields), mask) == Some(Pack(fields))
  {
    hide Bit, Pack, Get, And, AndNot;
    forall i: nat ensures !Bit(AndNot(Pack(fields), mask), i) {
      PackRead(fields, And(v, mask), i);
      BitAndNot(Pack(fields), mask, i);
      BitAnd(v, mask, i);
    }
    NoBitsAtAll(AndNot(Pack(fields), mask));
  }

  lemma NoBitsAtAll(v: nat)
    requires forall i: nat :: !Bit(v, i)
    ensures v == 0
  {
    hide Bit;
    forall i: nat ensures Bit(v, i) == Bit(0, i) { BitZero(i); }
    SameBits(v, 0);
  }

  lemma SmallMasked(v: nat, mask: u32)
    ensures And(v, mask) <= mask && Masked(And(v, mask), mask) == Some(And(v, mask))
  {
    hide Bit, And, AndNot;
    AndAtMost(v, mask);
    forall i: nat ensures !Bit(AndNot(And(v, mask), mask), i) {
      BitAndNot(And(v, mask), mask, i);
      BitAnd(v, mask, i);
    }
    NoBitsAtAll(AndNot(And(v, mask), mask));
  }

  lemma WholeCase(regs: Registers, v: nat, d: Desc)
    requires ValidRegisters(regs) && (d.transform.MemBase? || d.transform.MemNeonAm6Offset?) && DecodeMem(v, d).Some?
    ensures IsTaken(regs, v, d)
  {
    hide And, AndNot, Bit, Masked, ValidRegisters, Get, Or;
    SmallMasked(v, d.sourceMask);
    var e := And(v, d.sourceMask);
    assert e < 16;
    Cores(regs, e, 0);
  }

  function NeonRead(m: nat): seq<Field> {
    [Field(0, 4, Get(m, 0, 4)), Field(4, 2, Get(m, 4, 2))]
  }

  lemma NeonForm(regs: Registers, v: nat, d: Desc)
    requires ValidRegisters(regs) && d.transform.MemNeonAddrMode6?
    ensures DecodeMem(v, d).Some?
    ensures EncodeMem(regs, DecodeMem(v, d).value, d) == Masked(Pack(NeonRead(Seen(v, d))), d.sourceMask)
  {
    var m := Seen(v, d);
    Powers();
    GetFits(m, 0, 4);
    GetBelow(m, 4, 2);
    hide Get, And, AndNot, Pack, ValidRegisters, Pow2, Masked;
    Cores(regs, Get(m, 0, 4), 0);
  }

  lemma NeonBits(v: nat, d: Desc)
    requires d.transform.MemNeonAddrMode6?
    ensures Canonical(v, d) == Seen(v, d) == And(v, d.sourceMask) && TakenBack(v, d)
    ensures AreRead(NeonRead(Seen(v, d)), Seen(v, d))
    ensures forall i: nat :: Spans(NeonRead(Seen(v, d)), i) <==> Counts(v, d, i)
  {
    hide Get, Bit, And, Or, Pow2, Spans;
    forall i: nat { TwoSpans(NeonRead(Seen(v, d)), i); }
  }

  lemma NeonCase(regs: Registers, v: nat, d: Desc)
    requires ValidRegisters(regs) && d.transform.MemNeonAddrMode6?
    ensures DecodeMem(v, d).Some? && IsTaken(regs, v, d)
  {
    hide *;
    NeonForm(regs, v, d);
    NeonBits(v, d);
    ReadFitsMask(NeonRead(Seen(v, d)), v, d.sourceMask);
    PackedCase(regs, v, d, NeonRead(Seen(v, d)));
  }

  // table branches

  function TableRead(v: nat): seq<Field> {
    [Field(0, 4, Get(v, 0, 4)), Field(4, 4, Get(v, 4, 4))]
  }

  lemma TableForm(regs: Registers, v: nat, d: Desc)
    requires ValidRegisters(regs) && (d.transform.MemTbb? || d.transform.MemTbh?)
    ensures DecodeMem(v, d).Some?
    ensures EncodeMem(regs, DecodeMem(v, d).value, d) == Masked(Pack(TableRead(v)), d.sourceMask)
  {
    GetFits(v, 0, 4);
    GetFits(v, 4, 4);
    hide Get, And, AndNot, Pack, ValidRegisters, Pow2, Masked;
    Cores(regs, Get(v, 0, 4), Get(v, 4, 4));
  }

  lemma TableBits(v: nat, d: Desc)
    requires d.transform.MemTbb? || d.transform.MemTbh?
    ensures Canonical(v, d) == v && AreRead(TableRead(v), v)
    ensures forall i: nat :: Spans(TableRead(v), i) <==> i < 8
    ensures forall i: nat :: Counts(v, d, i) <==> i < 8
    ensures TakenBack(v, d) <==> AndNot(Get(v, 0, 8), d.sourceMask) == 0
  {
    hide Get, Bit, And, Or, Pow2, Spans, AndNot;
    forall i: nat { TwoSpans(TableRead(v), i); }
  }

  lemma TableIsByte(v: nat)
    requires forall i: nat :: Spans(TableRead(v), i) <==> i < 8
    ensures Pack(TableRead(v)) == Get(v, 0, 8)
  {
    hide Bit, Pack, Get, Spans;
    forall i: nat ensures Bit(Pack(TableRead(v)), i) == Bit(Get(v, 0, 8), i) {
      PackRead(TableRead(v), v, i);
      BitOfGet(v, 0, 8, i);
    }
    SameBits(Pack(TableRead(v)), Get(v, 0, 8));
  }

  lemma TableCase(regs: Registers, v: nat, d: Desc)
    requires ValidRegisters(regs) && (d.transform.MemTbb? || d.transform.MemTbh?)
    ensures DecodeMem(v, d).Some? && IsTaken(regs, v, d)
  {
    TableForm(regs, v, d);
    TableBits(v, d);
    TableIsByte(v);
    hide Get, Bit, Pack, Spans, EncodeMem, DecodeMem, Canonical, TakenBack, Counts, TableRead, AndNot, IsAgain, ValidRegisters;
    if TakenBack(v, d) { PackedCase(regs, v, d, TableRead(v)); }
  }

  // MVE

  function MveIndexRead(m: nat): seq<Field> {
    [Field(0, 3, Get(m, 0, 3)), Field(3, 4, Get(m, 3, 4))]
  }

  predicate IsMveIndexed(d: Desc) {
    d.sourceMask == 0x7f && (d.transform.MemMveAddr? || d.transform.MemMveAddrQ?)
  }

  lemma MveIndexForm(regs: Registers, v: nat, d: Desc)
    requires ValidRegisters(regs) && IsMveIndexed(d)
    ensures DecodeMem(v, d).Some?
    ensures EncodeMem(regs, DecodeMem(v, d).value, d) == Masked(Pack(MveIndexRead(Seen(v, d))), d.sourceMask)
  {
    var m := Seen(v, d);
    GetFits(m, 0, 3);
    GetFits(m, 3, 4);
    hide Get, And, AndNot, Pack, ValidRegisters, Pow2, Masked, MveOffset;
    Cores(regs, Get(m, 3, 4), Get(m, 0, 3));
    Quads(regs, Get(m, 0, 3));
  }

  lemma Quads(regs: Registers, a: nat)
    requires ValidRegisters(regs) && a < 16
    ensures regs.quad(Quad(a)) == Some(a)
  {
  }

  lemma MveIndexBits(v: nat, d: Desc)
    requires IsMveIndexed(d)
    ensures Canonical(v, d) == Seen(v, d) == And(v, d.sourceMask) && TakenBack(v, d)
    ensures AreRead(MveIndexRead(Seen(v, d)), Seen(v, d))
    ensures forall i: nat :: Spans(MveIndexRead(Seen(v, d)), i) <==> Counts(v, d, i)
  {
    hide Get, Bit, And, Or, Pow2, Spans;
    forall i: nat { TwoSpans(MveIndexRead(Seen(v, d)), i); }
  }

  lemma MveIndexCase(regs: Registers, v: nat, d: Desc)
    requires ValidRegisters(regs) && IsMveIndexed(d)
    ensures DecodeMem(v, d).Some? && IsTaken(regs, v, d)
  {
    hide *;
    MveIndexForm(regs, v, d);
    MveIndexBits(v, d);
    ReadFitsMask(MveIndexRead(Seen(v, d)), v, d.sourceMask);
    PackedCase(regs, v, d, MveIndexRead(Seen(v, d)));
  }

  /** Where the base register of a form with a displacement is, if it has one. */
  function MveBaseWidth(d: Desc): nat {
    if d.transform.MemMveAddrQi? then 3 else if d.sourceMask == 0xff then 0 else if d.sourceMask == 0x7ff then 3 else 4
  }

  function MveOffsetRead(u: nat): seq<Field> {
    [Field(0, 7, Get(u, 0, 7)), Field(7, 1, Get(u, 7, 1))]
  }

  /** The encoder gives the base of the three-bit form four bits, of which the highest is 0. */
  function MveRead(u: nat, m: nat, d: Desc): seq<Field> {
    var width := if d.transform.MemMveAddrQi? then 3 else 4;
    MveOffsetRead(u) + if MveBaseWidth(d) == 0 then [] else [Field(8, width, Get(m, 8, MveBaseWidth(d)))]
  }

  predicate IsMveOffset(d: Desc) {
    (d.transform.MemMveAddr? && d.sourceMask != 0x7f) || (d.transform.MemMveAddrQi? && (d.sourceMask == 0x7ff || d.sourceMask == 0xfff))
  }

  lemma MveOffsetTaken(o: Operand, m: nat, d: Desc)
    requires o.mem.displacement == MveDisp(m, d)
    ensures MveOffset(o, d)
         == Some([Field(0, 7, Get(m, 0, 7)), Field(7, 1, if Bit(m, 7) || Get(m, 0, 7) == 0 then 1 else 0)])
  {
    Powers();
    GetBelow(m, 0, 7);
    OneBit(m, 7);
    hide Get, Bit, Pow2, MveScale;
    Rescaled(Get(m, 0, 7), MveScale(d), 128);
    MinusScaled(Get(m, 0, 7), MveScale(d));
    ZeroTimes(Get(m, 0, 7), MveScale(d));
  }

  lemma MinusScaled(magnitude: nat, scale: nat)
    requires scale > 0
    ensures -(magnitude as int) * scale / scale == -(magnitude as int) && -(magnitude as int) * scale % scale == 0
    ensures -(magnitude as int) * scale == -(magnitude * scale)
  {
    var minus := -(magnitude as int);
    Residues.Unique(minus * scale, minus, 0, scale);
  }

  lemma MveCanonical(v: nat, d: Desc)
    requires IsMveOffset(d)
    ensures var u, m := Canonical(v, d), Seen(v, d);
            && m == And(v, d.sourceMask)
            && Get(u, 0, 7) == Get(m, 0, 7)
            && Get(u, 7, 1) == (if Bit(m, 7) || Get(m, 0, 7) == 0 then 1 else 0)
            && Get(u, 8, 4) == Get(m, 8, 4) && Get(u, 8, 3) == Get(m, 8, 3)
  {
    hide Get, Bit, Canonical, And;
    CanonicalReads(v, d, 0, 7);
    CanonicalReads(v, d, 7, 1);
    CanonicalReads(v, d, 8, 4);
    CanonicalReads(v, d, 8, 3);
  }

  lemma MveDecoded(v: nat, d: Desc)
    requires IsMveOffset(d)
    ensures DecodeMem(v, d).Some?
    ensures var o, m := DecodeMem(v, d).value, Seen(v, d);
            && IsMem(o) && UnitScale(o) && o.mem.index == 0 && o.mem.displacement == MveDisp(m, d)
            && o.mem.base == (if MveBaseWidth(d) == 0 then 0
                              else if d.transform.MemMveAddrQi? then Quad(Get(m, 8, 3)) else Core(Get(m, 8, MveBaseWidth(d))))
            && o.mem.addressWidth == if d.transform.MemMveAddrQi? then 128 else 32
  {
    hide Get, And, MveDisp;
  }

  lemma MveEncoded(regs: Registers, o: Operand, offset: seq<Field>, base: nat, d: Desc)
    requires IsMveOffset(d) && IsMem(o) && UnitScale(o) && o.mem.index == 0 && MveOffset(o, d) == Some(offset)
    requires o.mem.addressWidth == if d.transform.MemMveAddrQi? then 128 else 32
    requires MveBaseWidth(d) == 0 || (if d.transform.MemMveAddrQi? then regs.quad(o.mem.base) else regs.gpr4(o.mem.base)) == Some(base)
    requires MveBaseWidth(d) == 3 ==> base < 8
    ensures var width := if d.transform.MemMveAddrQi? then 3 else 4;
            EncodeMem(regs, o, d)
            == Masked(Pack(offset + if MveBaseWidth(d) == 0 then [] else [Field(8, width, base)]), d.sourceMask)
  {
    hide Pack, Masked, MveOffset;
    assert offset + [] == offset;
  }

  lemma MveForm(regs: Registers, v: nat, d: Desc)
    requires ValidRegisters(regs) && IsMveOffset(d)
    ensures DecodeMem(v, d).Some?
    ensures EncodeMem(regs, DecodeMem(v, d).value, d) == Masked(Pack(MveRead(Canonical(v, d), Seen(v, d), d)), d.sourceMask)
  {
    var m, width := Seen(v, d), MveBaseWidth(d);
    MveCanonical(v, d);
    MveDecoded(v, d);
    GetFits(m, 8, width);
    GetFits(m, 8, 3);
    hide Get, Bit, Pack, Masked, ValidRegisters, Canonical, Seen, MveOffset, MveDisp, DecodeMem, EncodeMem, IsMveOffset;
    MveOffsetTaken(DecodeMem(v, d).value, m, d);
    Cores(regs, Get(m, 8, width), 0);
    Quads(regs, Get(m, 8, 3));
    MveEncoded(regs, DecodeMem(v, d).value, MveOffsetRead(Canonical(v, d)), Get(m, 8, width), d);
  }

  lemma MveSpans(u: nat, m: nat, d: Desc, i: nat)
    ensures Spans(MveRead(u, m, d), i)
            <==> i < if MveBaseWidth(d) == 0 then 8 else if d.transform.MemMveAddrQi? then 11 else 12
  {
    hide Get, Spans;
    TwoSpans(MveOffsetRead(u), i);
    MoreSpans(MveOffsetRead(u), Field(8, if d.transform.MemMveAddrQi? then 3 else 4, Get(m, 8, MveBaseWidth(d))), i);
    assert MveOffsetRead(u) + [] == MveOffsetRead(u);
  }

  lemma NarrowRead(v: nat, mask: u32)
    requires mask == 0x7ff
    ensures Get(And(v, mask), 8, 4) == Get(And(v, mask), 8, 3)
  {
    assert Pow2(11) == 0x800;
    hide Bit, Get, And, Pow2;
    var m := And(v, mask);
    AndAtMost(v, mask);
    forall i: nat ensures Bit(Get(m, 8, 4), i) == Bit(Get(m, 8, 3), i) {
      BitOfGet(m, 8, 4, i);
      BitOfGet(m, 8, 3, i);
      if i >= 3 { BitAbove(m, 11, i + 8); }
    }
    SameBits(Get(m, 8, 4), Get(m, 8, 3));
  }

  lemma MveAreRead(v: nat, d: Desc)
    requires IsMveOffset(d)
    ensures AreRead(MveRead(Canonical(v, d), Seen(v, d), d), Canonical(v, d))
  {
    MveCanonical(v, d);
    hide Get, And, Canonical, Seen;
    if d.sourceMask == 0x7ff { NarrowRead(v, d.sourceMask); }
  }

  lemma MveCounts(v: nat, d: Desc, i: nat)
    requires IsMveOffset(d)
    ensures Counts(v, d, i) <==> i < if MveBaseWidth(d) == 0 then 8 else if d.transform.MemMveAddrQi? then 11 else 12
  {
  }

  lemma MaskBits()
    ensures Bit(0xff, 7) && Bit(0x7ff, 7) && Bit(0xfff, 7)
  {
  }

  /** Only the added bit may be outside the mask. */
  lemma MveTakenBack(v: nat, d: Desc)
    requires IsMveOffset(d)
    ensures TakenBack(v, d) <==> (Bit(Canonical(v, d), 7) ==> Bit(d.sourceMask, 7))
    ensures forall i: nat :: i != 7 && Bit(Canonical(v, d), i) ==> Bit(d.sourceMask, i)
  {
    MaskBits();
    hide Get, Bit, Pow2, And, Or;
    var m := And(v, d.sourceMask);
    AndBits(v, d.sourceMask);
    OrBits(m, Pow2(7));
    Pow2Bits(7);
  }

  lemma MveMasked(fields: seq<Field>, u: nat, mask: u32)
    requires AreRead(fields, u) && Spans(fields, 7)
    requires forall i: nat :: i != 7 && Bit(u, i) ==> Bit(mask, i)
    ensures Masked(Pack(fields), mask).Some? <==> (Bit(u, 7) ==> Bit(mask, 7))
    ensures Masked(Pack(fields), mask).Some? ==> Masked(Pack(fields), mask).value == Pack(fields)
  {
    hide Bit, Pack, Get, AndNot, Spans;
    var w := AndNot(Pack(fields), mask);
    AndNotBits(Pack(fields), mask);
    forall i: nat ensures Bit(w, i) <==> i == 7 && Bit(u, 7) && !Bit(mask, 7) {
      PackRead(fields, u, i);
    }
    if Bit(u, 7) ==> Bit(mask, 7) { NoBitsAtAll(w); } else { BitZero(7); }
  }

  lemma MveCase(regs: Registers, v: nat, d: Desc)
    requires ValidRegisters(regs) && IsMveOffset(d)
    ensures DecodeMem(v, d).Some? && IsTaken(regs, v, d)
  {
    var u := Canonical(v, d);
    var fields := MveRead(u, Seen(v, d), d);
    MveForm(regs, v, d);
    MveAreRead(v, d);
    MveTakenBack(v, d);
    hide Get, Bit, Pack, Masked, ValidRegisters, Canonical, Seen, MveRead, DecodeMem, EncodeMem, IsMveOffset, Counts, Spans, TakenBack,
         IsAgain;
    MveSpans(u, Seen(v, d), d, 7);
    MveMasked(fields, u, d.sourceMask);
    forall i: nat ensures Spans(fields, i) <==> Counts(v, d, i) {
      MveSpans(u, Seen(v, d), d, i);
      MveCounts(v, d, i);
    }
    if TakenBack(v, d) { PackedCase(regs, v, d, fields); }
  }

  // ---- the two negative forms

  lemma ForceNegRead(v: nat)
    ensures Get(Or(v, 0x100), 0, 8) == Get(v, 0, 8) && Get(Or(v, 0x100), 9, 4) == Get(v, 9, 4) && Get(Or(v, 0x100), 8, 1) == 1
  {
    assert Pow2(8) == 0x100;
    hide Get, Or, Pow2;
    GetAside(v, 8, 0, 8);
    GetAside(v, 8, 9, 4);
  }

  function NegRead(v: nat): seq<Field> {
    [Field(0, 8, Get(v, 0, 8)), Field(9, 4, Get(v, 9, 4))]
  }

  lemma ForceNegForm(regs: Registers, v: nat, d: Desc)
    requires ValidRegisters(regs) && d.transform.MemT2ForceNegImm8?
    ensures DecodeMem(v, d).Some? && EncodeMem(regs, DecodeMem(v, d).value, d) == Some(Pack(NegRead(v)))
  {
    Powers();
    ForceNegRead(v);
    GetBelow(v, 0, 8);
    GetFits(v, 9, 4);
    GetBelow(v, 9, 4);
    hide Get, Or, Pack, ValidRegisters, Pow2;
    Cores(regs, Get(v, 9, 4), 0);
    var l := EncodeLayout(d).value;
    assert forall m: nat, base: nat, sign: nat :: LayoutFields(l, m, base, sign) == [Field(0, 8, m), Field(9, 4, base)];
  }

  lemma ForceNegBits(v: nat, d: Desc)
    requires d.transform.MemT2ForceNegImm8?
    ensures Canonical(v, d) == v && TakenBack(v, d) && AreRead(NegRead(v), v)
    ensures forall i: nat :: Spans(NegRead(v), i) <==> Counts(v, d, i)
  {
    hide Get, Bit, And, Or, Pow2, Spans;
    forall i: nat { TwoSpans(NegRead(v), i); }
  }

  lemma ForceNegCase(regs: Registers, v: nat, d: Desc)
    requires ValidRegisters(regs) && d.transform.MemT2ForceNegImm8?
    ensures DecodeMem(v, d).Some? && IsTaken(regs, v, d)
  {
    hide *;
    ForceNegForm(regs, v, d);
    ForceNegBits(v, d);
    PackedCase(regs, v, d, NegRead(v));
  }

  predicate IsUnsigned8(d: Desc) {
    d.transform.MemT2NegImm8? && And(d.sourceMask, 0x100) == 0
  }

  /** The sign is taken from the displacement, but the decoder reads it the other way round. */
  function Unsigned8Fields(v: nat): seq<Field> {
    NegRead(v) + [Field(8, 1, if Get(v, 0, 8) == 0 then 1 else 0)]
  }

  lemma Unsigned8Form(regs: Registers, v: nat, d: Desc)
    requires ValidRegisters(regs) && IsUnsigned8(d)
    ensures DecodeMem(v, d).Some?
    ensures EncodeMem(regs, DecodeMem(v, d).value, d) == if TakenBack(v, d) then Some(Pack(Unsigned8Fields(v))) else None
  {
    Powers();
    GetBelow(v, 0, 8);
    GetFits(v, 9, 4);
    GetBelow(v, 9, 4);
    OneBit(v, 8);
    hide Get, Bit, And, Pack, ValidRegisters, Pow2;
    Cores(regs, Get(v, 9, 4), 0);
    assert forall m: nat, base: nat, sign: nat ::
        LayoutFields(EncodeLayout(d).value, m, base, sign) == [Field(0, 8, m), Field(9, 4, base)] + [Field(8, 1, sign)];
  }

  lemma Unsigned8Pack(v: nat, i: nat)
    ensures Bit(Pack(Unsigned8Fields(v)), i)
            <==> ((i < 8 || 9 <= i < 13) && Bit(v, i)) || (i == 8 && Get(v, 0, 8) == 0)
  {
    hide Get, Bit, And, Pack, Pow2, Or, Spans, Shl;
    var sign := if Get(v, 0, 8) == 0 then 1 else 0;
    PackOneMore(NegRead(v), Field(8, 1, sign));
    TwoSpans(NegRead(v), i);
    PackRead(NegRead(v), v, i);
    BitOr(Pack(NegRead(v)), Shl(sign, 8), i);
    BitShl(sign, 8, i);
    if i >= 8 {
      BitOfOne(i - 8);
      BitZero(i - 8);
    }
  }

  lemma Unsigned8Bits(v: nat, d: Desc, i: nat)
    requires IsUnsigned8(d)
    ensures Bit(Pack(Unsigned8Fields(v)), i) <==> Counts(v, d, i) && Bit(Canonical(v, d), i)
  {
    Unsigned8Pack(v, i);
    hide Get, Bit, And, Pack, Pow2, Or, Unsigned8Fields;
    BitOr(v, Pow2(8), i);
    BitPow2(8, i);
  }

  lemma BitOfOne(i: nat)
    ensures Bit(1, i) <==> i == 0
  {
    if i > 0 { BitZero(i - 1); }
  }

  lemma Unsigned8Case(regs: Registers, v: nat, d: Desc)
    requires ValidRegisters(regs) && IsUnsigned8(d)
    ensures DecodeMem(v, d).Some? && IsTaken(regs, v, d)
  {
    Unsigned8Form(regs, v, d);
    hide EncodeMem, DecodeMem, TakenBack, Unsigned8Fields, Counts, Canonical, Bit, Pack, IsUnsigned8, ValidRegisters;
    forall i: nat { Unsigned8Bits(v, d, i); }
  }

  // ---- every form

  lemma Undecoded(v: nat, d: Desc)
    requires DecodeMem(v, d).Some?
    ensures IsForm(d.transform) || d.transform.MemT2ForceNegImm8? || HasLayout(d)
    ensures d.transform.MemMveAddrQ? ==> d.sourceMask == 0x7f
    ensures d.transform.MemMveAddrQi? ==> d.sourceMask == 0x7ff || d.sourceMask == 0xfff
  {
    hide Get, And, Or;
  }

  /** An operand that the decoder read is taken back by the encoder exactly for the fields that `TakenBack` names, and is
      packed to the bits of the field that count, with the add bit of a zero set. */
  lemma DecodedIsTaken(regs: Registers, v: nat, d: Desc)
    requires ValidRegisters(regs) && DecodeMem(v, d).Some?
    ensures IsTaken(regs, v, d)
  {
    Undecoded(v, d);
    hide DecodeMem, IsTaken, ValidRegisters, And, HasLayout;
    match d.transform
    case MemBase => WholeCase(regs, v, d);
    case MemNeonAm6Offset => WholeCase(regs, v, d);
    case MemThumbSp => FixedCase(regs, v, d);
    case MemThumbPc => FixedCase(regs, v, d);
    case MemThumbRr => ThumbRrCase(regs, v, d);
    case MemT2SoReg => T2SoRegCase(regs, v, d);
    case MemArmAddrMode3 => Mode3Case(regs, v, d);
    case MemArmAm3Offset => Mode3Case(regs, v, d);
    case MemArmLdstSoReg => ShiftCase(regs, v, d);
    case MemArmAm2OffsetReg => ShiftCase(regs, v, d);
    case MemNeonAddrMode6 => NeonCase(regs, v, d);
    case MemMveAddr => if d.sourceMask == 0x7f { MveIndexCase(regs, v, d); } else { MveCase(regs, v, d); }
    case MemMveAddrQ => MveIndexCase(regs, v, d);
    case MemMveAddrQi => MveCase(regs, v, d);
    case MemTbb => TableCase(regs, v, d);
    case MemTbh => TableCase(regs, v, d);
    case MemT2ForceNegImm8 => ForceNegCase(regs, v, d);
    case MemT2NegImm8 =>
      if IsUnsigned8(d) { Unsigned8Case(regs, v, d); } else { LayoutCase(regs, v, d); }
    case _ => LayoutCase(regs, v, d);
  }

  /** The field has no bits beside those that the form looks at, and does not subtract a zero. */
  ghost predicate IsExact(v: nat, d: Desc) {
    Seen(v, d) == v && !SubtractsZero(v, d) && forall i: nat :: Bit(v, i) ==> Counts(v, d, i)
  }

  /** The field itself comes back exactly when it is exact. */
  lemma ExactComesBack(regs: Registers, v: nat, d: Desc)
    requires ValidRegisters(regs) && DecodeMem(v, d).Some?
    ensures EncodeMem(regs, DecodeMem(v, d).value, d) == Some(v) <==> TakenBack(v, d) && IsExact(v, d)
  {
    DecodedIsTaken(regs, v, d);
    hide DecodeMem, EncodeMem, ValidRegisters, TakenBack, Counts, Bit, And, Or, Get, SubtractsZero, Seen, Canonical;
    var w := EncodeMem(regs, DecodeMem(v, d).value, d);
    if w.Some? {
      if IsExact(v, d) {
        ExactIsCanonical(v, d);
        SameBits(w.value, v);
      }
      if w.value == v {
        Undecoded(v, d);
        SameIsExact(v, d);
      }
    }
  }

  lemma ExactIsCanonical(v: nat, d: Desc)
    requires IsExact(v, d)
    ensures Canonical(v, d) == v
  {
  }

  lemma SameIsExact(v: nat, d: Desc)
    requires IsAgain(v, v, d) && TakenBack(v, d)
    requires d.transform.MemMveAddrQi? ==> d.sourceMask == 0x7ff || d.sourceMask == 0xfff
    ensures IsExact(v, d)
  {
    hide Counts, TakenBack, Bit, And, Get, Or, Pow2, AddAt, Seen, IsMasked;
    var m := Seen(v, d);
    SeenBits(v, d);
    if SubtractsZero(v, d) {
      var k := AddAt(v, d).value.0;
      AddCounts(v, d);
      OrBits(m, Pow2(k));
      Pow2Bits(k);
      assert false;
    }
    SameBits(m, v);
  }

  lemma SeenBits(v: nat, d: Desc)
    ensures forall i: nat :: Bit(Seen(v, d), i) <==> Bit(v, i) && (IsMasked(d.transform) ==> Bit(d.sourceMask, i))
  {
    hide Bit, And, IsMasked;
    AndBits(v, d.sourceMask);
  }

  /** The add bit counts, and is in the mask if the operand is taken back. */
  lemma AddCounts(v: nat, d: Desc)
    requires SubtractsZero(v, d) && TakenBack(v, d)
    requires d.transform.MemMveAddrQi? ==> d.sourceMask == 0x7ff || d.sourceMask == 0xfff
    ensures Counts(v, d, AddAt(v, d).value.0)
    ensures IsMasked(d.transform) ==> Bit(d.sourceMask, AddAt(v, d).value.0)
  {
    MaskBits();
    hide Bit, And, Get, Pow2;
  }

  // ---- operands that a field expresses

  /** Operands that differ in widths left open and in a scale of 1 left open. */
  predicate SaysTheSame(o: Operand, back: Operand, t: Transform) {
    && SameAddress(o, Some(back), t) && o.kind == OpMem
    && back.mem.scale == Scale(back)
    && back.mem.addressWidth == AddressWidth(t)
  }

  lemma SameTests(o: Operand, back: Operand, t: Transform)
    requires SaysTheSame(o, back, t)
    ensures Scale(o) == Scale(back) && UnitScale(o) == UnitScale(back) && IsMem(o) == IsMem(back)
    ensures !t.MemMveAddrQi? ==> Width32(o) && Width32(back)
    ensures t.MemMveAddrQi? ==> Width32(o) || o.mem.addressWidth == 128
    ensures NoShift(o) == NoShift(back) && NoShiftReg(o) == NoShiftReg(back) && AddBit(o) == AddBit(back)
  {
  }

  lemma SameParts(regs: Registers, o: Operand, back: Operand, d: Desc)
    requires SaysTheSame(o, back, d.transform)
    ensures MveOffset(o, d) == MveOffset(back, d)
    ensures forall flagAt: nat :: Mode3Offset(regs, o, flagAt) == Mode3Offset(regs, back, flagAt)
    ensures forall index: nat, shift: (nat, nat) :: ShiftedIndex(index, shift, o) == ShiftedIndex(index, shift, back)
    ensures !d.transform.MemMveAddrQi? ==> forall l: Layout :: BaseDispField(regs, o, l) == BaseDispField(regs, back, l)
  {
    SameTests(o, back, d.transform);
    hide Pack, MveScale, LayoutFields, SaysTheSame, IsMem, UnitScale, Width32, AddBit, Pow2;
    assert o.mem.base == back.mem.base && o.mem.index == back.mem.index && o.mem.displacement == back.mem.displacement by {
      assert SaysTheSame(o, back, d.transform);
    }
  }

  lemma IndexedAlike(regs: Registers, o: Operand, back: Operand, d: Desc)
    requires SaysTheSame(o, back, d.transform)
    requires d.transform.MemBase? || d.transform.MemThumbRr? || d.transform.MemT2SoReg? || d.transform.MemTbb? || d.transform.MemTbh?
             || d.transform.MemThumbSp? || d.transform.MemThumbPc?
    ensures EncodeMem(regs, o, d) == EncodeMem(regs, back, d)
  {
    SameTests(o, back, d.transform);
    hide Pack, Masked, IsMem, UnitScale, Width32, ScaleBits, AddBit, NoShift, NoShiftReg;
  }

  lemma OffsetAlike(regs: Registers, o: Operand, back: Operand, d: Desc)
    requires SaysTheSame(o, back, d.transform)
    requires IsMode3(d.transform) || HasShift(d.transform)
    ensures EncodeMem(regs, o, d) == EncodeMem(regs, back, d)
  {
    SameTests(o, back, d.transform);
    SameParts(regs, o, back, d);
    hide Pack, IsMem, UnitScale, Width32, ShiftFields, ShiftedIndex, Mode3Offset, AddBit, NoShift, NoShiftReg, Scale;
  }

  lemma NeonAlike(regs: Registers, o: Operand, back: Operand, d: Desc)
    requires SaysTheSame(o, back, d.transform) && (d.transform.MemNeonAddrMode6? || d.transform.MemNeonAm6Offset?)
    ensures EncodeMem(regs, o, d) == EncodeMem(regs, back, d)
  {
    SameTests(o, back, d.transform);
    hide Pack, Masked, IsMem, UnitScale, Scale;
  }

  lemma MveAlike(regs: Registers, o: Operand, back: Operand, d: Desc)
    requires SaysTheSame(o, back, d.transform)
    requires d.transform.MemMveAddr? || d.transform.MemMveAddrQ? || d.transform.MemMveAddrQi?
    ensures EncodeMem(regs, o, d) == EncodeMem(regs, back, d)
  {
    SameTests(o, back, d.transform);
    SameParts(regs, o, back, d);
    hide Pack, Masked, IsMem, UnitScale, MveOffset, Scale, Width32;
    assert o.mem == back.mem.(scale := o.mem.scale, addressWidth := o.mem.addressWidth);
    hide SaysTheSame;
  }

  lemma LayoutAlike(regs: Registers, o: Operand, back: Operand, d: Desc)
    requires SaysTheSame(o, back, d.transform) && !IsForm(d.transform)
    ensures EncodeMem(regs, o, d) == EncodeMem(regs, back, d)
  {
    SameParts(regs, o, back, d);
    hide BaseDispField, EncodeLayout, SaysTheSame;
  }

  /** Such operands are encoded alike. */
  lemma EncodedAlike(regs: Registers, o: Operand, back: Operand, d: Desc)
    requires SaysTheSame(o, back, d.transform)
    ensures EncodeMem(regs, o, d) == EncodeMem(regs, back, d)
  {
    hide EncodeMem, SaysTheSame;
    if !IsForm(d.transform) {
      LayoutAlike(regs, o, back, d);
    } else if IsMode3(d.transform) || HasShift(d.transform) {
      OffsetAlike(regs, o, back, d);
    } else if d.transform.MemNeonAddrMode6? || d.transform.MemNeonAm6Offset? {
      NeonAlike(regs, o, back, d);
    } else if IsMasked(d.transform) && !d.transform.MemBase? {
      MveAlike(regs, o, back, d);
    } else {
      IndexedAlike(regs, o, back, d);
    }
  }

  /** An operand that some field is read as, with or without its widths, is accepted exactly when `TakenBack` holds of the
      field, and is packed as `DecodedIsTaken` says. */
  lemma ExpressedIsAccepted(regs: Registers, o: Operand, v: nat, d: Desc)
    requires ValidRegisters(regs) && DecodeMem(v, d).Some? && o.kind == OpMem && SameAddress(o, DecodeMem(v, d), d.transform)
    ensures EncodeMem(regs, o, d).Some? <==> TakenBack(v, d)
    ensures EncodeMem(regs, o, d).Some? ==> IsAgain(EncodeMem(regs, o, d).value, v, d)
  {
    hide EncodeMem, DecodeMem, ValidRegisters, TakenBack, IsAgain;
    DecodedModifiers(v, d);
    DecodedIsTaken(regs, v, d);
    EncodedAlike(regs, o, DecodeMem(v, d).value, d);
  }

  /** The immediate of a memory operand is an alignment. */
  lemma MemImm(v: nat, d: Desc)
    requires DecodeMem(v, d).Some?
    ensures 0 <= DecodeMem(v, d).value.imm <= 32
  {
    hide Get, And, Or, DecodeLayout, Shifted, MveDisp, Pow2, Alignment;
    AlignmentIsSmall(Get(And(v, d.sourceMask), 4, 2));
    ShiftedImm(Indexed(Core(Get(v, 13, 4)), Core(Get(v, 0, 4)), 1, d.width).(negativeOffset := Get(v, 12, 1) == 0), v);
    ShiftedImm(Indexed(0, Core(Get(v, 0, 4)), 1, d.width).(negativeOffset := Get(v, 12, 1) == 0), v);
  }

  lemma AlignmentIsSmall(code: nat)
    ensures 0 <= Alignment(code) <= 32
  {
  }

  lemma ShiftedImm(o: Operand, v: nat)
    ensures Shifted(o, v).imm == o.imm
  {
    hide Get;
  }
}
