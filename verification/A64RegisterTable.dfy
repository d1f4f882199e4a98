/** The AArch64 register table: ids, encodings and classes. */
module A64RegisterTable {
  import opened Bits
  import opened Wrappers

  const GPR: nat := 1
  const SIMD: nat := 2
  const ZPR: nat := 3
  const PPR: nat := 4
  const PNR: nat := 5
  const ZTR: nat := 6
  const TILE: nat := 7
  const ARRAY: nat := 8

  const REG_W0: nat := 1
  const REG_WSP: nat := 32
  const REG_WZR: nat := 33
  const REG_X0: nat := 34
  const REG_SP: nat := 65
  const REG_XZR: nat := 66
  const REG_B0: nat := 73
  const REG_H0: nat := 105
  const REG_S0: nat := 137
  const REG_D0: nat := 169
  const REG_Q0: nat := 201
  const REG_PN0: nat := 233
  const REG_P0: nat := 249
  const REG_Z0: nat := 265
  const REG_ZAQ0: nat := 297
  const REG_ZAD0: nat := 313
  const REG_ZAS0: nat := 321
  const REG_ZAH0: nat := 325
  const REG_ZAB0: nat := 327
  const REG_ZA: nat := 328
  const REG_ZT0: nat := 329

  datatype Info = Info(encoding: nat, width: nat)

  /** The register with an id; the predicate, vector and matrix registers have no width. */
  function InfoOf(id: nat): Option<Info> {
    if id < REG_W0 then None
    else if id < REG_WZR then Some(Info(id - REG_W0, 32))
    else if id < REG_X0 then Some(Info(31, 32))
    else if id < REG_XZR then Some(Info(id - REG_X0, 64))
    else if id == REG_XZR then Some(Info(31, 64))
    else if id < REG_B0 then Some(Info(0, 64))
    else if id < REG_H0 then Some(Info(id - REG_B0, 8))
    else if id < REG_S0 then Some(Info(id - REG_H0, 16))
    else if id < REG_D0 then Some(Info(id - REG_S0, 32))
    else if id < REG_Q0 then Some(Info(id - REG_D0, 64))
    else if id < REG_PN0 then Some(Info(id - REG_Q0, 128))
    else if id < REG_P0 then Some(Info(id - REG_PN0, 0))
    else if id < REG_Z0 then Some(Info(id - REG_P0, 0))
    else if id < REG_ZAQ0 then Some(Info(id - REG_Z0, 0))
    else if id < REG_ZAD0 then Some(Info(id - REG_ZAQ0, 0))
    else if id < REG_ZAS0 then Some(Info(id - REG_ZAD0, 0))
    else if id < REG_ZAH0 then Some(Info(id - REG_ZAS0, 0))
    else if id < REG_ZAB0 then Some(Info(id - REG_ZAH0, 0))
    else if id <= REG_ZT0 then Some(Info(0, 0))
    else None
  }

  /** `asmkit_gen_aarch64_register_info` of a 64-bit register number, which is cut to 32 bits. */
  function Lookup(reg: nat): Option<Info> {
    InfoOf(reg % U32)
  }

  // ---- from encodings to ids

  /** `a64_td_gpr_id`. */
  function GprId(encoding: nat, width: nat, sp: bool): nat {
    if encoding > 31 then 0
    else if width == 32 then
      if encoding < 31 then REG_W0 + encoding else if sp then REG_WSP else REG_WZR
    else if width == 64 then
      if encoding < 31 then REG_X0 + encoding else if sp then REG_SP else REG_XZR
    else 0
  }

  function Below(encoding: nat, count: nat, first: nat): nat {
    if encoding < count then first + encoding else 0
  }

  /** `a64_td_simd_id`. */
  function SimdId(encoding: nat, width: nat): nat {
    if width == 8 then Below(encoding, 32, REG_B0)
    else if width == 16 then Below(encoding, 32, REG_H0)
    else if width == 32 then Below(encoding, 32, REG_S0)
    else if width == 64 then Below(encoding, 32, REG_D0)
    else if width == 128 then Below(encoding, 32, REG_Q0)
    else 0
  }

  function TileId(encoding: nat, width: nat): nat {
    if width == 8 then Below(encoding, 1, REG_ZAB0)
    else if width == 16 then Below(encoding, 2, REG_ZAH0)
    else if width == 32 then Below(encoding, 4, REG_ZAS0)
    else if width == 64 then Below(encoding, 8, REG_ZAD0)
    else if width == 128 then Below(encoding, 16, REG_ZAQ0)
    else 0
  }

  /** `a64_td_vector_id`; other classes are read as general registers. */
  function RegId(encoding: nat, width: nat, sp: bool, cls: nat): nat {
    if cls == SIMD then SimdId(encoding, width)
    else if cls == ZPR then Below(encoding, 32, REG_Z0)
    else if cls == PPR then Below(encoding, 16, REG_P0)
    else if cls == PNR then Below(encoding, 16, REG_PN0)
    else if cls == ZTR then Below(encoding, 1, REG_ZT0)
    else if cls == ARRAY then Below(encoding, 1, REG_ZA)
    else if cls == TILE then TileId(encoding, width)
    else GprId(encoding, width, sp)
  }

  // ---- from register numbers to encodings

  predicate Among(reg: nat, first: nat, count: nat) {
    first <= reg < first + count
  }

  predicate IsSimd(reg: nat, width: nat) {
    || (width == 8 && Among(reg, REG_B0, 32)) || (width == 16 && Among(reg, REG_H0, 32))
    || (width == 32 && Among(reg, REG_S0, 32)) || (width == 64 && Among(reg, REG_D0, 32))
    || (width == 128 && Among(reg, REG_Q0, 32))
  }

  predicate IsTile(reg: nat, width: nat) {
    || (width == 8 && reg == REG_ZAB0) || (width == 16 && Among(reg, REG_ZAH0, 2)) || (width == 32 && Among(reg, REG_ZAS0, 4))
    || (width == 64 && Among(reg, REG_ZAD0, 8)) || (width == 128 && Among(reg, REG_ZAQ0, 16))
  }

  predicate IsGpr(reg: nat, width: nat, sp: bool) {
    || (width == 32 && (Among(reg, REG_W0, 31) || reg == (if sp then REG_WSP else REG_WZR)))
    || (width == 64 && (Among(reg, REG_X0, 31) || reg == (if sp then REG_SP else REG_XZR)))
  }

  /** `reg` is the id of a register of the class and the width. */
  predicate IsRegister(reg: nat, width: nat, sp: bool, cls: nat) {
    if cls == SIMD then IsSimd(reg, width)
    else if cls == ZPR then Among(reg, REG_Z0, 32)
    else if cls == PPR then Among(reg, REG_P0, 16)
    else if cls == PNR then Among(reg, REG_PN0, 16)
    else if cls == ZTR then reg == REG_ZT0
    else if cls == ARRAY then reg == REG_ZA
    else if cls == TILE then IsTile(reg, width)
    else IsGpr(reg, width, sp)
  }

  /** The ranges that `a64_bf_reg_encoding` admits for a class, whatever the width but for tiles. */
  predicate Admitted(id: nat, width: nat, cls: nat) {
    if cls == GPR then id <= REG_XZR
    else if cls == SIMD then REG_B0 <= id < REG_PN0
    else if cls == ZPR then Among(id, REG_Z0, 32)
    else if cls == PPR then Among(id, REG_P0, 16)
    else if cls == PNR then Among(id, REG_PN0, 16)
    else if cls == ZTR then id == REG_ZT0
    else if cls == ARRAY then id == REG_ZA
    else if cls == TILE then IsTile(id, width)
    else true
  }

  /** Register 31 is named as the field reads it. */
  predicate Reg31Fits(id: nat, sp: bool) {
    if sp then id == REG_WSP || id == REG_SP else id == REG_WZR || id == REG_XZR
  }

  /** The register test of `a64_bf_reg_encoding`.  The operand's width may stand in for the register's, and a number up
      to 30 may be taken as the encoding itself. */
  function Encoding(reg: nat, operandWidth: nat, width: nat, sp: bool, cls: nat): Option<nat> {
    var id, info := reg % U32, Lookup(reg);
    if !Admitted(id, width, cls) then None
    else if cls == GPR && info.Some? && info.value.encoding == 31 && !Reg31Fits(id, sp) then None
    else if info.Some? && (width == 0 || info.value.width == width || (operandWidth != 0 && operandWidth == width))
    then Some(info.value.encoding)
    else if reg <= 30 && (width == 0 || operandWidth == 0 || operandWidth == width) then Some(reg)
    else None
  }

  // ---- the two directions

  /** The id found is a register of the class and has the encoding. */
  lemma IdIsRegister(encoding: nat, width: nat, sp: bool, cls: nat)
    ensures var id := RegId(encoding, width, sp, cls);
            id != 0 ==> IsRegister(id, width, sp, cls) && InfoOf(id).Some? && InfoOf(id).value.encoding == encoding
  {
  }

  /** The decoder finds every register of a class from its encoding. */
  lemma IdBack(reg: nat, width: nat, sp: bool, cls: nat)
    requires IsRegister(reg, width, sp, cls)
    ensures InfoOf(reg).Some? && InfoOf(reg).value.encoding < 32 && reg <= REG_ZT0
    ensures RegId(InfoOf(reg).value.encoding, width, sp, cls) == reg
  {
  }

  /** A register number comes back from its encoding exactly when it is the id of a register of the class and width. */
  lemma EncodingBack(reg: nat, operandWidth: nat, width: nat, sp: bool, cls: nat)
    requires Encoding(reg, operandWidth, width, sp, cls).Some?
    ensures Encoding(reg, operandWidth, width, sp, cls).value < 32
    ensures var id := RegId(Encoding(reg, operandWidth, width, sp, cls).value, width, sp, cls);
            id != 0 && id == reg <==> IsRegister(reg, width, sp, cls)
  {
    var encoding := Encoding(reg, operandWidth, width, sp, cls).value;
    Encodings(reg);
    hide RegId, InfoOf;
    IdIsRegister(encoding, width, sp, cls);
    if IsRegister(reg, width, sp, cls) {
      IdBack(reg, width, sp, cls);
      OwnEncoding(reg, operandWidth, width, sp, cls);
    }
  }

  lemma Encodings(reg: nat)
    ensures Lookup(reg).Some? ==> Lookup(reg).value.encoding < 32
  {
  }

  lemma OwnEncoding(reg: nat, operandWidth: nat, width: nat, sp: bool, cls: nat)
    requires IsRegister(reg, width, sp, cls) && Encoding(reg, operandWidth, width, sp, cls).Some?
    ensures InfoOf(reg).Some? && Encoding(reg, operandWidth, width, sp, cls).value == InfoOf(reg).value.encoding
  {
    hide InfoOf, IsRegister, Admitted, Reg31Fits;
    OwnInfo(reg, width, sp, cls);
  }

  lemma OwnInfo(reg: nat, width: nat, sp: bool, cls: nat)
    requires IsRegister(reg, width, sp, cls)
    ensures 0 < reg < U32 && InfoOf(reg).Some?
    ensures reg <= 30 ==> InfoOf(reg).value.width == width
  {
  }

  /** The widths that the registers of a class come in. */
  predicate HasWidth(width: nat, cls: nat) {
    if cls == SIMD || cls == TILE then width == 8 || width == 16 || width == 32 || width == 64 || width == 128
    else if cls == ZPR || cls == PPR || cls == PNR || cls == ZTR || cls == ARRAY then true
    else width == 32 || width == 64
  }

  /** A raw number is taken for the 64-bit register with that encoding when it leaves its width open. */
  lemma NumberTaken(n: nat, sp: bool)
    requires n <= 30
    ensures Encoding(n, 0, 64, sp, GPR) == Some(n)
    ensures RegId(n, 64, sp, GPR) == REG_X0 + n
  {
  }

  /** What the encoder accepts is some register for the decoder. */
  lemma EncodingDecodes(reg: nat, operandWidth: nat, width: nat, sp: bool, cls: nat)
    requires Encoding(reg, operandWidth, width, sp, cls).Some? && HasWidth(width, cls)
    ensures RegId(Encoding(reg, operandWidth, width, sp, cls).value, width, sp, cls) != 0
  {
  }
}
