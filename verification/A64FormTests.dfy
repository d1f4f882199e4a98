/** What the AArch64 relocator takes a word for: the fields that it compares are the mask tests of the source. */
module A64FormTests {
  import opened Bits
  import opened Wrappers
  import opened PackedFields
  import opened A64Code

  // ---- mask tests

  /** Where the low `n` bits of a mask are set, the word has the bits of the value from bit `at` on. */
  predicate Agrees(word: nat, at: nat, mask: nat, value: nat, n: nat) {
    n == 0
    || (Agrees(word, at, mask, value, n - 1) && (Bit(mask, n - 1) ==> (Bit(word, n - 1 + at) <==> Bit(value, n - 1))))
  }

  lemma {:induction false} AgreesAt(word: nat, at: nat, mask: nat, value: nat, n: nat, j: nat)
    requires Agrees(word, at, mask, value, n) && j < n && Bit(mask, j)
    ensures Bit(word, j + at) <==> Bit(value, j)
    decreases n
  {
    hide Bit;
    if j < n - 1 { AgreesAt(word, at, mask, value, n - 1, j); }
  }

  lemma {:induction false} AgreesWhen(word: nat, at: nat, mask: nat, value: nat, n: nat, tested: nat)
    requires forall j: nat :: j < n && Bit(mask, j) ==> Bit(tested, j) == Bit(word, j + at)
    requires forall j: nat :: j < n && Bit(mask, j) ==> Bit(tested, j) == Bit(value, j)
    ensures Agrees(word, at, mask, value, n)
    decreases n
  {
    hide Bit;
    if n > 0 { AgreesWhen(word, at, mask, value, n - 1, tested); }
  }

  /** A field has a value when its bits do. */
  lemma FieldTest(word: nat, at: nat, n: nat, value: nat)
    requires value < Pow2(n)
    ensures Get(word, at, n) == value <==> Agrees(word, at, Ones(n), value, n)
  {
    hide Bit, Get, Pow2, Ones, Agrees;
    var field := Get(word, at, n);
    forall j: nat ensures Bit(field, j) <==> j < n && Bit(word, j + at) { BitOfGet(word, at, n, j); }
    if field == value { AgreesWhen(word, at, Ones(n), value, n, field); }
    if Agrees(word, at, Ones(n), value, n) {
      forall j: nat ensures Bit(field, j) == Bit(value, j) {
        BitOnes(n, j);
        if j >= n { BitAbove(value, n, j); } else { AgreesAt(word, at, Ones(n), value, n, j); }
      }
      SameBits(field, value);
    }
  }

  lemma ByteSizes()
    ensures Pow2(8) == 0x100 && Pow2(24) == 0x100_0000
  {
    Pow2Add(8, 8);
    Pow2Add(16, 8);
  }

  /** The bits of a byte above 24 low bits. */
  lemma HighBits(lo: nat, hi: nat, i: nat)
    requires lo < 0x100_0000 && hi < 0x100
    ensures Bit(lo + 0x100_0000 * hi, i) <==> if i < 24 then Bit(lo, i) else i < 32 && Bit(hi, i - 24)
  {
    hide Bit, Or, Shl, Pow2;
    ByteSizes();
    ShlIsTimes(hi, 24);
    Joined(lo, hi, 24);
    BitOr(Shl(hi, 24), lo, i);
    BitShl(hi, 24, i);
    if i >= 24 { BitAbove(lo, 24, i); }
    if i >= 32 { BitAbove(hi, 8, i - 24); }
  }

  /** The bits of one byte are among those of another. */
  predicate InByte(value: nat, mask: nat) {
    && (Bit(value, 0) ==> Bit(mask, 0)) && (Bit(value, 1) ==> Bit(mask, 1)) && (Bit(value, 2) ==> Bit(mask, 2))
    && (Bit(value, 3) ==> Bit(mask, 3)) && (Bit(value, 4) ==> Bit(mask, 4)) && (Bit(value, 5) ==> Bit(mask, 5))
    && (Bit(value, 6) ==> Bit(mask, 6)) && (Bit(value, 7) ==> Bit(mask, 7))
  }

  lemma InsideByte(value: nat, mask: nat)
    requires value < 0x100 && InByte(value, mask)
    ensures AndNot(value, mask) == 0
  {
    hide Bit, AndNot, Pow2;
    ByteSizes();
    forall i: nat ensures Bit(AndNot(value, mask), i) == Bit(0, i) {
      BitZero(i);
      BitAndNot(value, mask, i);
      if i >= 8 { BitAbove(value, 8, i); }
    }
    SameBits(AndNot(value, mask), 0);
  }

  /** `(word & mask) == value` for a mask in the highest byte and in the low bits. */
  lemma MaskTest(word: nat, lo: nat, hi: nat, value: nat)
    requires lo < 0x100_0000 && hi < 0x100 && AndNot(value, hi) == 0
    ensures And(word, lo + 0x100_0000 * hi) == 0x100_0000 * value
            <==> And(word, lo) == 0 && Agrees(word, 24, hi, value, 8)
  {
    hide Bit, And, AndNot, Agrees;
    var mask := lo + 0x100_0000 * hi;
    Within(value, hi);
    if And(word, mask) == 0x100_0000 * value { MaskedHas(word, lo, hi, value); }
    if And(word, lo) == 0 && Agrees(word, 24, hi, value, 8) {
      forall i: nat ensures Bit(And(word, mask), i) == Bit(0x100_0000 * value, i) { HasMasked(word, lo, hi, value, i); }
      SameBits(And(word, mask), 0x100_0000 * value);
    }
  }

  lemma MaskedHas(word: nat, lo: nat, hi: nat, value: nat)
    requires lo < 0x100_0000 && hi < 0x100 && value < 0x100
    requires And(word, lo + 0x100_0000 * hi) == 0x100_0000 * value
    ensures And(word, lo) == 0 && Agrees(word, 24, hi, value, 8)
  {
    hide Bit, And, Agrees;
    var mask := lo + 0x100_0000 * hi;
    forall i: nat ensures Bit(And(word, lo), i) == Bit(0, i) {
      BitZero(i);
      BitAnd(word, lo, i);
      BitAnd(word, mask, i);
      HighBits(lo, hi, i);
      HighBits(0, value, i);
      LowOnly(lo, i);
    }
    SameBits(And(word, lo), 0);
    forall j: nat | j < 8 && Bit(hi, j) ensures Bit(value, j) == Bit(word, j + 24) {
      BitAnd(word, mask, j + 24);
      HighBits(lo, hi, j + 24);
      HighBits(0, value, j + 24);
    }
    AgreesWhen(word, 24, hi, value, 8, value);
  }

  lemma LowOnly(lo: nat, i: nat)
    requires lo < 0x100_0000
    ensures i >= 24 ==> !Bit(lo, i)
  {
    hide Bit, Pow2;
    ByteSizes();
    if i >= 24 { BitAbove(lo, 24, i); }
  }

  lemma HasMasked(word: nat, lo: nat, hi: nat, value: nat, i: nat)
    requires lo < 0x100_0000 && hi < 0x100 && AndNot(value, hi) == 0
    requires And(word, lo) == 0 && Agrees(word, 24, hi, value, 8)
    ensures Bit(And(word, lo + 0x100_0000 * hi), i) == Bit(0x100_0000 * value, i)
  {
    hide Bit, And, AndNot, Agrees;
    Within(value, hi);
    BitAnd(word, lo + 0x100_0000 * hi, i);
    HighBits(lo, hi, i);
    HighBits(0, value, i);
    BitZero(i);
    BitAnd(word, lo, i);
    if 24 <= i < 32 {
      BitAnd(value, hi, i - 24);
      if Bit(hi, i - 24) { AgreesAt(word, 24, hi, value, 8, i - 24); }
    }
  }

  /** The tests that the source makes, one mask each. */
  predicate Tested(word: u32, form: Form) {
    match form
    case Jump26 => And(word, 0xfc00_0000) == 0x1400_0000 || And(word, 0xfc00_0000) == 0x9400_0000
    case Cond19 => And(word, 0xff00_0010) == 0x5400_0000
    case Compare19 => And(word, 0x7e00_0000) == 0x3400_0000
    case Test14 => And(word, 0x7e00_0000) == 0x3600_0000
    case Literal19 => And(word, 0x3b00_0000) == 0x1800_0000
    case Adr => And(word, 0x9f00_0000) == 0x1000_0000
    case Adrp => And(word, 0x9f00_0000) == 0x9000_0000
  }

  /** The same tests on bits 24 to 31 and bit 4. */
  predicate HasBits(word: u32, form: Form) {
    match form
    case Jump26 => Bit(word, 26) && !Bit(word, 27) && Bit(word, 28) && !Bit(word, 29) && !Bit(word, 30)
    case Cond19 =>
      && !Bit(word, 4) && !Bit(word, 24) && !Bit(word, 25) && Bit(word, 26) && !Bit(word, 27) && Bit(word, 28) && !Bit(word, 29)
      && Bit(word, 30) && !Bit(word, 31)
    case Compare19 => !Bit(word, 25) && Bit(word, 26) && !Bit(word, 27) && Bit(word, 28) && Bit(word, 29) && !Bit(word, 30)
    case Test14 => Bit(word, 25) && Bit(word, 26) && !Bit(word, 27) && Bit(word, 28) && Bit(word, 29) && !Bit(word, 30)
    case Literal19 => !Bit(word, 24) && !Bit(word, 25) && Bit(word, 27) && Bit(word, 28) && !Bit(word, 29)
    case Adr => !Bit(word, 24) && !Bit(word, 25) && !Bit(word, 26) && !Bit(word, 27) && Bit(word, 28) && !Bit(word, 31)
    case Adrp => !Bit(word, 24) && !Bit(word, 25) && !Bit(word, 26) && !Bit(word, 27) && Bit(word, 28) && Bit(word, 31)
  }

  /** The tests, bit by bit. */
  lemma EachBit(word: nat, at: nat, mask: nat, value: nat)
    ensures Agrees(word, at, mask, value, 1) <==> (Bit(mask, 0) ==> (Bit(word, at) <==> Bit(value, 0)))
    ensures Agrees(word, at, mask, value, 2) <==>
              Agrees(word, at, mask, value, 1) && (Bit(mask, 1) ==> (Bit(word, 1 + at) <==> Bit(value, 1)))
    ensures Agrees(word, at, mask, value, 3) <==>
              Agrees(word, at, mask, value, 2) && (Bit(mask, 2) ==> (Bit(word, 2 + at) <==> Bit(value, 2)))
    ensures Agrees(word, at, mask, value, 4) <==>
              Agrees(word, at, mask, value, 3) && (Bit(mask, 3) ==> (Bit(word, 3 + at) <==> Bit(value, 3)))
    ensures Agrees(word, at, mask, value, 5) <==>
              Agrees(word, at, mask, value, 4) && (Bit(mask, 4) ==> (Bit(word, 4 + at) <==> Bit(value, 4)))
    ensures Agrees(word, at, mask, value, 6) <==>
              Agrees(word, at, mask, value, 5) && (Bit(mask, 5) ==> (Bit(word, 5 + at) <==> Bit(value, 5)))
    ensures Agrees(word, at, mask, value, 7) <==>
              Agrees(word, at, mask, value, 6) && (Bit(mask, 6) ==> (Bit(word, 6 + at) <==> Bit(value, 6)))
    ensures Agrees(word, at, mask, value, 8) <==>
              Agrees(word, at, mask, value, 7) && (Bit(mask, 7) ==> (Bit(word, 7 + at) <==> Bit(value, 7)))
  {
    hide Bit;
  }

  lemma TopFour(word: nat)
    ensures And(word, 0) == 0 && (And(word, 0x10) == 0 <==> !Bit(word, 4))
  {
    assert Pow2(4) == 0x10;
    TestPow2(word, 4);
    AndZero(word);
  }

  lemma JumpMask()
    ensures !Bit(0xfc, 0) && !Bit(0xfc, 1) && Bit(0xfc, 2) && Bit(0xfc, 3)
            && Bit(0xfc, 4) && Bit(0xfc, 5) && Bit(0xfc, 6) && Bit(0xfc, 7)
  {
  }

  lemma JumpByte()
    ensures !Bit(0x14, 0) && !Bit(0x14, 1) && Bit(0x14, 2) && !Bit(0x14, 3)
            && Bit(0x14, 4) && !Bit(0x14, 5) && !Bit(0x14, 6) && !Bit(0x14, 7)
  {
  }

  lemma CallBits()
    ensures !Bit(0x94, 0) && !Bit(0x94, 1) && Bit(0x94, 2) && !Bit(0x94, 3)
            && Bit(0x94, 4) && !Bit(0x94, 5) && !Bit(0x94, 6) && Bit(0x94, 7)
  {
  }

  lemma JumpTest(word: u32)
    ensures Tested(word, Jump26) <==> HasBits(word, Jump26)
  {
    hide And, AndNot, Bit, Agrees;
    JumpMask();
    JumpByte();
    CallBits();
    TopFour(word);
    InsideByte(0x14, 0xfc);
    MaskTest(word, 0, 0xfc, 0x14);
    EachBit(word, 24, 0xfc, 0x14);
    InsideByte(0x94, 0xfc);
    MaskTest(word, 0, 0xfc, 0x94);
    EachBit(word, 24, 0xfc, 0x94);
  }

  lemma CondByte()
    ensures Bit(0xff, 0) && Bit(0xff, 1) && Bit(0xff, 2) && Bit(0xff, 3)
            && Bit(0xff, 4) && Bit(0xff, 5) && Bit(0xff, 6) && Bit(0xff, 7)
    ensures !Bit(0x54, 0) && !Bit(0x54, 1) && Bit(0x54, 2) && !Bit(0x54, 3)
            && Bit(0x54, 4) && !Bit(0x54, 5) && Bit(0x54, 6) && !Bit(0x54, 7)
  {
  }

  lemma CondTest(word: u32)
    ensures Tested(word, Cond19) <==> HasBits(word, Cond19)
  {
    hide And, AndNot, Bit, Agrees;
    CondByte();
    TopFour(word);
    InsideByte(0x54, 0xff);
    MaskTest(word, 0x10, 0xff, 0x54);
    EachBit(word, 24, 0xff, 0x54);
  }

  lemma CompareByte()
    ensures !Bit(0x7e, 0) && Bit(0x7e, 1) && Bit(0x7e, 2) && Bit(0x7e, 3)
            && Bit(0x7e, 4) && Bit(0x7e, 5) && Bit(0x7e, 6) && !Bit(0x7e, 7)
    ensures !Bit(0x34, 0) && !Bit(0x34, 1) && Bit(0x34, 2) && !Bit(0x34, 3)
            && Bit(0x34, 4) && Bit(0x34, 5) && !Bit(0x34, 6) && !Bit(0x34, 7)
  {
  }

  lemma CompareTest(word: u32)
    ensures Tested(word, Compare19) <==> HasBits(word, Compare19)
  {
    hide And, AndNot, Bit, Agrees;
    CompareByte();
    TopFour(word);
    InsideByte(0x34, 0x7e);
    MaskTest(word, 0, 0x7e, 0x34);
    EachBit(word, 24, 0x7e, 0x34);
  }

  lemma SingleBitByte()
    ensures !Bit(0x7e, 0) && Bit(0x7e, 1) && Bit(0x7e, 2) && Bit(0x7e, 3)
            && Bit(0x7e, 4) && Bit(0x7e, 5) && Bit(0x7e, 6) && !Bit(0x7e, 7)
    ensures !Bit(0x36, 0) && Bit(0x36, 1) && Bit(0x36, 2) && !Bit(0x36, 3)
            && Bit(0x36, 4) && Bit(0x36, 5) && !Bit(0x36, 6) && !Bit(0x36, 7)
  {
  }

  lemma SingleBitTest(word: u32)
    ensures Tested(word, Test14) <==> HasBits(word, Test14)
  {
    hide And, AndNot, Bit, Agrees;
    SingleBitByte();
    TopFour(word);
    InsideByte(0x36, 0x7e);
    MaskTest(word, 0, 0x7e, 0x36);
    EachBit(word, 24, 0x7e, 0x36);
  }

  lemma LiteralByte()
    ensures Bit(0x3b, 0) && Bit(0x3b, 1) && !Bit(0x3b, 2) && Bit(0x3b, 3)
            && Bit(0x3b, 4) && Bit(0x3b, 5) && !Bit(0x3b, 6) && !Bit(0x3b, 7)
    ensures !Bit(0x18, 0) && !Bit(0x18, 1) && !Bit(0x18, 2) && Bit(0x18, 3)
            && Bit(0x18, 4) && !Bit(0x18, 5) && !Bit(0x18, 6) && !Bit(0x18, 7)
  {
  }

  lemma LiteralTest(word: u32)
    ensures Tested(word, Literal19) <==> HasBits(word, Literal19)
  {
    hide And, AndNot, Bit, Agrees;
    LiteralByte();
    TopFour(word);
    InsideByte(0x18, 0x3b);
    MaskTest(word, 0, 0x3b, 0x18);
    EachBit(word, 24, 0x3b, 0x18);
  }

  lemma AdrByte()
    ensures Bit(0x9f, 0) && Bit(0x9f, 1) && Bit(0x9f, 2) && Bit(0x9f, 3)
            && Bit(0x9f, 4) && !Bit(0x9f, 5) && !Bit(0x9f, 6) && Bit(0x9f, 7)
    ensures !Bit(0x10, 0) && !Bit(0x10, 1) && !Bit(0x10, 2) && !Bit(0x10, 3)
            && Bit(0x10, 4) && !Bit(0x10, 5) && !Bit(0x10, 6) && !Bit(0x10, 7)
  {
  }

  lemma AdrTest(word: u32)
    ensures Tested(word, Adr) <==> HasBits(word, Adr)
  {
    hide And, AndNot, Bit, Agrees;
    AdrByte();
    TopFour(word);
    InsideByte(0x10, 0x9f);
    MaskTest(word, 0, 0x9f, 0x10);
    EachBit(word, 24, 0x9f, 0x10);
  }

  lemma AdrpByte()
    ensures Bit(0x9f, 0) && Bit(0x9f, 1) && Bit(0x9f, 2) && Bit(0x9f, 3)
            && Bit(0x9f, 4) && !Bit(0x9f, 5) && !Bit(0x9f, 6) && Bit(0x9f, 7)
    ensures !Bit(0x90, 0) && !Bit(0x90, 1) && !Bit(0x90, 2) && !Bit(0x90, 3)
            && Bit(0x90, 4) && !Bit(0x90, 5) && !Bit(0x90, 6) && Bit(0x90, 7)
  {
  }

  lemma AdrpTest(word: u32)
    ensures Tested(word, Adrp) <==> HasBits(word, Adrp)
  {
    hide And, AndNot, Bit, Agrees;
    AdrpByte();
    TopFour(word);
    InsideByte(0x90, 0x9f);
    MaskTest(word, 0, 0x9f, 0x90);
    EachBit(word, 24, 0x9f, 0x90);
  }

  lemma TestedBits(word: u32, form: Form)
    ensures Tested(word, form) <==> HasBits(word, form)
  {
    hide Tested, HasBits;
    match form
    case Jump26 => JumpTest(word);
    case Cond19 => CondTest(word);
    case Compare19 => CompareTest(word);
    case Test14 => SingleBitTest(word);
    case Literal19 => LiteralTest(word);
    case Adr => AdrTest(word);
    case Adrp => AdrpTest(word);
  }

  lemma JumpValue()
    ensures Bit(0x5, 0) && !Bit(0x5, 1) && Bit(0x5, 2) && !Bit(0x5, 3)
            && !Bit(0x5, 4) && 0x5 < Pow2(5)
  {
  }

  lemma JumpFields(word: u32)
    ensures Get(word, 26, 5) == 5 <==> HasBits(word, Jump26)
  {
    hide Get, Bit, Agrees, Ones, Pow2;
    JumpValue();
    FieldTest(word, 26, 5, 0x5);
    EachBit(word, 26, Ones(5), 0x5);
    OnesBits(5);
  }

  lemma CondValue()
    ensures !Bit(0x54, 0) && !Bit(0x54, 1) && Bit(0x54, 2) && !Bit(0x54, 3)
            && Bit(0x54, 4) && !Bit(0x54, 5) && Bit(0x54, 6) && !Bit(0x54, 7) && 0x54 < Pow2(8)
    ensures !Bit(0x0, 0) && 0x0 < Pow2(1)
  {
  }

  lemma CondFields(word: u32)
    ensures Get(word, 24, 8) == 0x54 && Get(word, 4, 1) == 0 <==> HasBits(word, Cond19)
  {
    hide Get, Bit, Agrees, Ones, Pow2;
    CondValue();
    FieldTest(word, 24, 8, 0x54);
    EachBit(word, 24, Ones(8), 0x54);
    OnesBits(8);
    FieldTest(word, 4, 1, 0x0);
    EachBit(word, 4, Ones(1), 0x0);
    OnesBits(1);
  }

  lemma CompareValue()
    ensures !Bit(0x1a, 0) && Bit(0x1a, 1) && !Bit(0x1a, 2) && Bit(0x1a, 3)
            && Bit(0x1a, 4) && !Bit(0x1a, 5) && 0x1a < Pow2(6)
  {
  }

  lemma CompareFields(word: u32)
    ensures Get(word, 25, 6) == 0x1a <==> HasBits(word, Compare19)
  {
    hide Get, Bit, Agrees, Ones, Pow2;
    CompareValue();
    FieldTest(word, 25, 6, 0x1a);
    EachBit(word, 25, Ones(6), 0x1a);
    OnesBits(6);
  }

  lemma SingleBitValue()
    ensures Bit(0x1b, 0) && Bit(0x1b, 1) && !Bit(0x1b, 2) && Bit(0x1b, 3)
            && Bit(0x1b, 4) && !Bit(0x1b, 5) && 0x1b < Pow2(6)
  {
  }

  lemma SingleBitFields(word: u32)
    ensures Get(word, 25, 6) == 0x1b <==> HasBits(word, Test14)
  {
    hide Get, Bit, Agrees, Ones, Pow2;
    SingleBitValue();
    FieldTest(word, 25, 6, 0x1b);
    EachBit(word, 25, Ones(6), 0x1b);
    OnesBits(6);
  }

  lemma LiteralValue()
    ensures !Bit(0x0, 0) && !Bit(0x0, 1) && 0x0 < Pow2(2)
    ensures Bit(0x3, 0) && Bit(0x3, 1) && !Bit(0x3, 2) && 0x3 < Pow2(3)
  {
  }

  lemma LiteralFields(word: u32)
    ensures Get(word, 24, 2) == 0 && Get(word, 27, 3) == 3 <==> HasBits(word, Literal19)
  {
    hide Get, Bit, Agrees, Ones, Pow2;
    LiteralValue();
    FieldTest(word, 24, 2, 0x0);
    EachBit(word, 24, Ones(2), 0x0);
    OnesBits(2);
    FieldTest(word, 27, 3, 0x3);
    EachBit(word, 27, Ones(3), 0x3);
    OnesBits(3);
  }

  lemma AdrValue()
    ensures !Bit(0x10, 0) && !Bit(0x10, 1) && !Bit(0x10, 2) && !Bit(0x10, 3)
            && Bit(0x10, 4) && 0x10 < Pow2(5)
    ensures !Bit(0x0, 0) && 0x0 < Pow2(1)
  {
  }

  lemma AdrFields(word: u32)
    ensures Get(word, 24, 5) == 0x10 && Get(word, 31, 1) == 0 <==> HasBits(word, Adr)
  {
    hide Get, Bit, Agrees, Ones, Pow2;
    AdrValue();
    FieldTest(word, 24, 5, 0x10);
    EachBit(word, 24, Ones(5), 0x10);
    OnesBits(5);
    FieldTest(word, 31, 1, 0x0);
    EachBit(word, 31, Ones(1), 0x0);
    OnesBits(1);
  }

  lemma AdrpFields(word: u32)
    ensures Get(word, 24, 5) == 0x10 && Get(word, 31, 1) != 0 <==> HasBits(word, Adrp)
  {
    hide Get, Bit, Agrees, Ones, Pow2;
    AdrValue();
    FieldTest(word, 24, 5, 0x10);
    EachBit(word, 24, Ones(5), 0x10);
    OnesBits(5);
    FieldTest(word, 31, 1, 0);
    EachBit(word, 31, Ones(1), 0);
    OnesBits(1);
  }

  /** A word has a form exactly when it passes the mask test of the form; no word passes two. */
  lemma FormTests(word: u32, form: Form)
    ensures FormOf(word) == Some(form) <==> Tested(word, form)
  {
    hide Get, Bit, Tested;
    TestedBits(word, form);
    JumpFields(word);
    CondFields(word);
    CompareFields(word);
    SingleBitFields(word);
    LiteralFields(word);
    AdrFields(word);
    AdrpFields(word);
  }

  // ---- conditions

  lemma LowNibble(word: nat)
    ensures Get(word, 0, 4) == word % 16
  {
    assert Pow2(4) == 16;
    assert Shr(word, 0) == word;
    hide Low, Pow2, Shr, And, Ones;
    AndOnes(word, 4);
    LowIsMod(word, 4);
  }

  lemma SenseBit(word: nat)
    ensures Get(word, 24, 1) == 1 <==> Bit(word, 24)
  {
    hide Get, Bit, Agrees, Ones, Pow2;
    OneValue();
    FieldTest(word, 24, 1, 1);
    EachBit(word, 24, Ones(1), 1);
    OnesBits(1);
  }

  lemma OneValue()
    ensures Bit(1, 0) && 1 < Pow2(1)
  {
  }

  /** When a conditional branch is taken: codes 14 and 15 always, even codes when the flags say so, odd codes when they
      do not; CBZ and TBZ when the register or bit is zero, CBNZ and TBNZ, which set bit 24, when it is not. */
  lemma ConditionMeaning(env: Env, word: u32, form: Form)
    ensures form.Cond19? ==>
              var cond := word % 16; Holds(env, word, form) <==> cond >= 14 || env.flag(cond / 2) == (cond % 2 == 0)
    ensures form.Compare19? || form.Test14? ==>
              (Holds(env, word, form) <==> env.zero(Put(Rest(word, form), 24, 1, 0)) == !Bit(word, 24))
  {
    hide Get, Put, Rest, Bit;
    LowNibble(word);
    SenseBit(word);
    if form.Cond19? { CodeMeaning(env, word, word % 16, form); }
  }

  lemma CodeMeaning(env: Env, word: nat, cond: nat, form: Form)
    requires form.Cond19? && Get(word, 0, 4) == cond
    ensures Holds(env, word, form) <==> cond >= 14 || env.flag(cond / 2) == (cond % 2 == 0)
  {
    hide Get;
  }
}
