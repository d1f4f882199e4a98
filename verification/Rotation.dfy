/** 32-bit rotations. */
module Rotation {
  import opened Bits

  /** `arm_bf_rol32`. */
  function Rol32(v: u32, rotate: nat): nat {
    var r := rotate % 32;
    if r == 0 then v else Or(Low(Shl(v, r), 32), Shr(v, 32 - r))
  }

  /** `arm_td_ror32`. */
  function Ror32(v: u32, rotate: nat): nat {
    var r := rotate % 32;
    if r == 0 then v else Or(Shr(v, r), Low(Shl(v, 32 - r), 32))
  }

  /** Bit `i` of the rotated word comes from the bit `r` places below, around the word. */
  lemma BitOfRol(v: u32, r: nat, i: nat)
    requires r < 32
    ensures Bit(Rol32(v, r), i) <==> i < 32 && Bit(v, if i >= r then i - r else i + 32 - r)
  {
    hide Bit, Or, Low, Shl, Shr, Pow2;
    WordSizes();
    if r == 0 {
      if i >= 32 { BitAbove(v, 32, i); }
    } else {
      BitOr(Low(Shl(v, r), 32), Shr(v, 32 - r), i);
      BitLow(Shl(v, r), 32, i);
      BitShl(v, r, i);
      BitShr(v, 32 - r, i);
      if i >= r { BitAbove(v, 32, i + 32 - r); }
    }
  }

  lemma BitOfRor(v: u32, r: nat, i: nat)
    requires r < 32
    ensures Bit(Ror32(v, r), i) <==> i < 32 && Bit(v, if i + r < 32 then i + r else i + r - 32)
  {
    hide Bit, Or, Low, Shl, Shr, Pow2;
    WordSizes();
    if r == 0 {
      if i >= 32 { BitAbove(v, 32, i); }
    } else {
      BitOr(Shr(v, r), Low(Shl(v, 32 - r), 32), i);
      BitShr(v, r, i);
      BitLow(Shl(v, 32 - r), 32, i);
      BitShl(v, 32 - r, i);
      if i + r >= 32 { BitAbove(v, 32, i + r); }
    }
  }

  lemma RolIsWord(v: u32, r: nat)
    requires r < 32
    ensures Rol32(v, r) < U32
  {
    hide Bit, Rol32, Pow2;
    forall i: nat | i >= 32 ensures !Bit(Rol32(v, r), i) { BitOfRol(v, r, i); }
    BelowPow2(Rol32(v, r), 32);
    WordSizes();
  }

  lemma RorIsWord(v: u32, r: nat)
    requires r < 32
    ensures Ror32(v, r) < U32
  {
    hide Bit, Ror32, Pow2;
    forall i: nat | i >= 32 ensures !Bit(Ror32(v, r), i) { BitOfRor(v, r, i); }
    BelowPow2(Ror32(v, r), 32);
    WordSizes();
  }

  /** The two rotations undo each other. */
  lemma RorOfRol(v: u32, r: nat)
    requires r < 32
    ensures Rol32(v, r) < U32 && Ror32(Rol32(v, r), r) == v
  {
    hide Bit, Rol32, Ror32, Pow2;
    RolIsWord(v, r);
    WordSizes();
    forall i: nat ensures Bit(Ror32(Rol32(v, r), r), i) == Bit(v, i) {
      BitOfRor(Rol32(v, r), r, i);
      if i < 32 {
        BitOfRol(v, r, if i + r < 32 then i + r else i + r - 32);
      } else {
        BitAbove(v, 32, i);
      }
    }
    SameBits(Ror32(Rol32(v, r), r), v);
  }

  lemma RolOfRor(v: u32, r: nat)
    requires r < 32
    ensures Ror32(v, r) < U32 && Rol32(Ror32(v, r), r) == v
  {
    hide Bit, Rol32, Ror32, Pow2;
    RorIsWord(v, r);
    WordSizes();
    forall i: nat ensures Bit(Rol32(Ror32(v, r), r), i) == Bit(v, i) {
      BitOfRol(Ror32(v, r), r, i);
      if i < 32 {
        BitOfRor(v, r, if i >= r then i - r else i + 32 - r);
      } else {
        BitAbove(v, 32, i);
      }
    }
    SameBits(Rol32(Ror32(v, r), r), v);
  }
}
