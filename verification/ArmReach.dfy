/** How far the A32 and T32 PC-relative forms reach, and which shifts fit a lane, under the masks of the tables. */
module ArmReach {
  import opened Bits
  import opened Wrappers
  import opened Immediates
  import opened ArmDescs
  import opened ArmImmediates
  import opened ArmPcRel

  lemma UnsignedReach(imm: i64, n: nat)
    requires n <= 32
    ensures Ones(n) < U32
    ensures RawUnsigned(imm, Ones(n)).Some? <==> 0 <= imm < Pow2(n)
  {
    hide AndNot;
    Pow2Monotone(n, 32);
    WordSizes();
    if 0 <= imm {
      if imm < Pow2(n) { InOnes(imm, n); }
      if AndNot(imm, Ones(n)) == 0 { Within(imm, Ones(n)); }
    }
  }

  lemma SignedReach(imm: i64, n: nat)
    requires 0 < n <= 31
    ensures Ones(n) < U32
    ensures RawSignedMasked(imm, Ones(n)).Some? <==> -(Pow2(n - 1) as int) <= imm < Pow2(n - 1)
  {
    Pow2Monotone(n, 32);
    WordSizes();
    WidthOfOnes(n);
    PositivePower(n);
    hide SourceWidth, And, Pow2;
  }

  lemma PositivePower(n: nat)
    requires n > 0
    ensures Ones(n) > 0
  {
  }

  lemma Powers()
    ensures Pow2(6) == 0x40 && Pow2(8) == 0x100 && Pow2(12) == 0x1000 && Pow2(13) == 0x2000 && Pow2(23) == 0x80_0000
    ensures Pow2(24) == 0x100_0000 && Pow2(25) == 0x200_0000
  {
    Pow2Add(6, 6);
    Pow2Add(12, 12);
  }

  /** A downward offset in a field of 12 bits below its direction. */
  lemma Downward(disp: i64)
    requires -0xfff <= disp < 0
    ensures AndNot(Or(-disp, 0x1000), 0x1fff) == 0
  {
    assert Shl(1, 12) == 0x1000;
    Powers();
    hide Or, AndNot, Shl, Pow2;
    Joined(-disp, 1, 12);
    InOnes(-disp + 0x1000, 13);
  }

  lemma Upward(disp: i64)
    requires 0 <= disp <= 0xfff
    ensures AndNot(Or(disp, 0x1000), 0x1fff) == 0
  {
    assert Shl(1, 12) == 0x1000;
    Powers();
    hide Or, AndNot, Shl, Pow2;
    Joined(disp, 1, 12);
    InOnes(disp + 0x1000, 13);
  }

  /** The reach of the signed forms, in the units that their masks count. */
  lemma SignedForms(disp: i64, d: Desc, n: nat)
    requires 0 < n <= 31
    ensures d.transform.PcRelA32Words4? && d.sourceMask == Ones(n) ==>
              (DispField(disp, d).Some? <==> disp % 4 == 0 && -4 * Pow2(n - 1) <= disp < 4 * Pow2(n - 1))
    ensures (d.transform.PcRelA32Words2? || d.transform.PcRelThumbWords2?) && d.sourceMask == Ones(n) ==>
              (DispField(disp, d).Some? <==> disp % 2 == 0 && -2 * Pow2(n - 1) <= disp < 2 * Pow2(n - 1))
  {
    hide RawSignedMasked, Pow2, Ones;
    SignedReach(disp / 4, n);
    SignedReach(disp / 2, n);
  }

  lemma UnsignedForms(disp: i64, d: Desc, n: nat)
    requires n <= 32
    ensures d.transform.PcRelThumbCb? && d.sourceMask == Ones(n) ==>
              (DispField(disp, d).Some? <==> disp % 2 == 0 && 0 <= disp < 2 * Pow2(n))
    ensures d.transform.PcRelThumbAdr? && d.sourceMask == Ones(n) ==>
              (DispField(disp, d).Some? <==> disp % 4 == 0 && 0 <= disp < 4 * Pow2(n))
  {
    hide RawUnsigned, Pow2, Ones;
    UnsignedReach(disp / 4, n);
    UnsignedReach(disp / 2, n);
  }

  /** Which displacements each form expresses: A32 branches 32 MB, two-byte Thumb branches by the width of their field,
      compare-and-branch 126 bytes forward, two-byte ADR 1020 bytes forward, wide Thumb branches 16 MB, or 1 MB when
      conditional, and wide ADR and literal loads 4095 bytes either way. */
  lemma DispReach(disp: i64, d: Desc, n: nat)
    requires 0 < n <= 31
    ensures d.transform.PcRelA32Words4? && d.sourceMask == 0xff_ffff ==>
              (DispField(disp, d).Some? <==> disp % 4 == 0 && -0x200_0000 <= disp < 0x200_0000)
    ensures d.transform.PcRelA32Words2? && d.sourceMask == 0x1ff_ffff ==>
              (DispField(disp, d).Some? <==> disp % 2 == 0 && -0x200_0000 <= disp < 0x200_0000)
    ensures d.transform.PcRelThumbWords2? && d.sourceMask == Ones(n) ==>
              (DispField(disp, d).Some? <==> disp % 2 == 0 && -2 * Pow2(n - 1) <= disp < 2 * Pow2(n - 1))
    ensures d.transform.PcRelThumbCb? && d.sourceMask == 0x3f ==>
              (DispField(disp, d).Some? <==> disp % 2 == 0 && 0 <= disp <= 126)
    ensures d.transform.PcRelThumbAdr? && d.sourceMask == 0xff ==>
              (DispField(disp, d).Some? <==> disp % 4 == 0 && 0 <= disp <= 1020)
    ensures (d.transform.PcRelT2Adr? || d.transform.PcRelT2LdrLabel?) && d.sourceMask == 0x1fff ==>
              (DispField(disp, d).Some? <==> -4095 <= disp <= 4095)
    ensures (d.transform.PcRelThumbT2B? || d.transform.PcRelThumbT2Blx?) && (d.sourceMask == 0xff_ffff || d.sourceMask == 0xff_fffe) ==>
              (DispField(disp, d).Some? <==> disp % 2 == 0 && -0x100_0000 <= disp < 0x100_0000)
    ensures d.transform.PcRelThumbT2Bcc? && d.sourceMask == 0x1f_fffe ==>
              (DispField(disp, d).Some? <==> disp % 2 == 0 && -0x10_0000 <= disp < 0x10_0000)
  {
    hide DispField, Pow2;
    Powers();
    SignedForms(disp, d, 24);
    SignedForms(disp, d, 25);
    SignedForms(disp, d, n);
    UnsignedForms(disp, d, 6);
    UnsignedForms(disp, d, 8);
    ByteForms(disp, d);
    WideForms(disp, d);
  }

  lemma ByteForms(disp: i64, d: Desc)
    ensures (d.transform.PcRelT2Adr? || d.transform.PcRelT2LdrLabel?) && d.sourceMask == 0x1fff ==>
              (DispField(disp, d).Some? <==> -4095 <= disp <= 4095)
  {
    hide Or, AndNot, RawUnsigned, Pow2;
    Powers();
    UnsignedReach(disp, 13);
    if -0xfff <= disp < 0 { UnsignedReach(-(disp as int), 13); }
    if -0xfff <= disp < 0 { Downward(disp); }
    if 0 <= disp <= 0xfff { Upward(disp); }
  }

  lemma WideForms(disp: i64, d: Desc)
    ensures (d.transform.PcRelThumbT2B? || d.transform.PcRelThumbT2Blx?) && (d.sourceMask == 0xff_ffff || d.sourceMask == 0xff_fffe) ==>
              (DispField(disp, d).Some? <==> disp % 2 == 0 && -0x100_0000 <= disp < 0x100_0000)
    ensures d.transform.PcRelThumbT2Bcc? && d.sourceMask == 0x1f_fffe ==>
              (DispField(disp, d).Some? <==> disp % 2 == 0 && -0x10_0000 <= disp < 0x10_0000)
  {
    hide And;
  }

  /** A shift right by an immediate is possible by 1 up to the lane width, for lanes of 8, 16, 32 and 64 bits. */
  lemma ShiftReach(imm: i64, lsb: Option<int>, d: Desc, n: nat)
    requires d.transform.VecShiftRight? && d.sourceMask == Ones(n) && 3 <= n <= 6
    ensures EncodeImm(imm, lsb, d).Some? <==> 1 <= imm <= Pow2(n)
    ensures forall field: nat :: field < Pow2(n) ==> DecodeImm(field, None, d) == Some(Pow2(n) - field)
  {
    hide And, AndNot, SourceWidth, Pow2;
    Lanes(n);
    WidthOfOnes(n);
    if 1 <= imm <= Pow2(n) { InOnes(Pow2(n) - imm, n); }
    forall field: nat | field < Pow2(n) ensures And(field, Ones(n)) == field {
      AndOnes(field, n);
      LowSmall(field, n);
    }
  }

  lemma Lanes(n: nat)
    requires 3 <= n <= 6
    ensures 8 <= Pow2(n) <= 64
  {
    Pow2Monotone(3, n);
    Pow2Monotone(n, 6);
    assert Pow2(3) == 8 && Pow2(6) == 64;
  }
}
