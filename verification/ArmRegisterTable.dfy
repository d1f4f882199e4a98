/** The ARM register table: ids, encodings and classes, and the two lookups between them. */
module ArmRegisterTable {
  import opened Bits
  import opened Wrappers
  import opened ArmMemory
  import opened ArmRecords

  const VCCR: nat := 5
  const SINGLE_FIRST: nat := 17
  const DOUBLE_FIRST: nat := 33
  const SYSTEM_FIRST: nat := 81
  const REG_P0: nat := 98
  const REG_S1: nat := 103
  const REGISTER_COUNT: nat := 119

  datatype Info = Info(id: nat, encoding: nat, parent: nat, width: nat)

  /** Encoding and width of CPSR to RA_AUTH_CODE. */
  function SystemInfo(id: nat): (nat, nat) {
    match id - SYSTEM_FIRST
    case 0 => (0, 32)
    case 1 => (15, 32)
    case 2 => (15, 0)
    case 3 => (2, 32)
    case 4 => (3, 32)
    case 5 => (3, 0)
    case 6 => (3, 0)
    case 7 => (4, 0)
    case 8 => (0, 0)
    case 9 => (5, 0)
    case 10 => (6, 0)
    case 11 => (7, 0)
    case 12 => (8, 0)
    case 13 => (9, 32)
    case 14 => (10, 32)
    case 15 => (64, 0)
    case 16 => (2, 0)
    case 17 => (13, 0)
    case 18 => (14, 0)
    case 19 => (15, 32)
    case 20 => (15, 0)
    case _ => (12, 0)
  }

  /** The odd single-precision registers come last, in alphabetical order. */
  function OddSingle(id: nat): nat {
    if id == REG_S1 then 1
    else if id <= 113 then 11 + 2 * Less(id, 104)
    else if id == 114 then 3
    else if id == 115 then 31
    else 5 + 2 * Less(id, 116)
  }

  function Less(a: nat, b: nat): nat {
    if a < b then 0 else a - b
  }

  /** The register with an id. */
  function InfoOf(id: nat): Option<Info> {
    if id < CORE_FIRST then None
    else if id < SINGLE_FIRST then Some(Info(id, id - CORE_FIRST, 0, 32))
    else if id < DOUBLE_FIRST then Some(Info(id, 2 * (id - SINGLE_FIRST), DOUBLE_FIRST + (id - SINGLE_FIRST), 32))
    else if id < QUAD_FIRST then Some(Info(id, id - DOUBLE_FIRST, QUAD_FIRST + (id - DOUBLE_FIRST) / 2, 64))
    else if id < SYSTEM_FIRST then Some(Info(id, id - QUAD_FIRST, 0, 128))
    else if id < REG_S1 then Some(Info(id, SystemInfo(id).0, 0, SystemInfo(id).1))
    else if id < REGISTER_COUNT then Some(Info(id, OddSingle(id), DOUBLE_FIRST + OddSingle(id) / 2, 32))
    else None
  }

  /** `asmkit_gen_arm_register_info` of a 64-bit register number, which is cut to 32 bits. */
  function Lookup(reg: nat): Option<Info> {
    InfoOf(reg % U32)
  }

  /** `arm_bf_register_info_matches_class` and `arm_td_register_info_matches_class`. */
  predicate InClass(info: Info, cls: nat, width: nat) {
    if width != 0 && info.width != 0 && info.width != width then false
    else if cls == GPR then CORE_FIRST <= info.id <= REG_PC
    else if cls == SPR then info.width == 32 && DOUBLE_FIRST <= info.parent < DOUBLE_FIRST + 16
    else if cls == DPR then info.width == 64 && QUAD_FIRST <= info.parent < QUAD_FIRST + 16
    else if cls == QPR then QUAD_FIRST <= info.id < QUAD_FIRST + 16
    else cls == VCCR && info.id == REG_P0
  }

  /** `reg` is the id of a register of the class. */
  predicate Member(reg: nat, cls: nat, width: nat) {
    InfoOf(reg).Some? && InClass(InfoOf(reg).value, cls, width)
  }

  // ---- from encodings to ids

  predicate Hit(index: nat, encoding: nat, width: nat, cls: nat) {
    Member(index + 1, cls, width) && InfoOf(index + 1).value.encoding == encoding
  }

  /** The first hit at `index` or later. */
  function FirstHit(index: nat, encoding: nat, width: nat, cls: nat): nat
    decreases REGISTER_COUNT - index
  {
    if index >= REGISTER_COUNT then 0
    else if Hit(index, encoding, width, cls) then index + 1
    else FirstHit(index + 1, encoding, width, cls)
  }

  /** `arm_td_reg_id`. */
  function RegId(encoding: nat, width: nat, cls: nat): nat {
    if cls == GPR && width == 32 && encoding <= 15 then CORE_FIRST + encoding
    else if cls == DPR && encoding <= 31 then DOUBLE_FIRST + encoding
    else if cls == QPR && encoding <= 15 then QUAD_FIRST + encoding
    else FirstHit(0, encoding, width, cls)
  }

  method RegIdLoop(encoding: nat, width: nat, cls: nat) returns (id: nat)
    ensures id == RegId(encoding, width, cls)
  {
    hide Hit;
    if cls == GPR && width == 32 && encoding <= 15 {
      return CORE_FIRST + encoding;
    }
    if cls == DPR && encoding <= 31 {
      return DOUBLE_FIRST + encoding;
    }
    if cls == QPR && encoding <= 15 {
      return QUAD_FIRST + encoding;
    }
    var index := 0;
    while index < REGISTER_COUNT
      invariant 0 <= index <= REGISTER_COUNT
      invariant FirstHit(0, encoding, width, cls) == FirstHit(index, encoding, width, cls)
    {
      if Hit(index, encoding, width, cls) {
        return index + 1;
      }
      index := index + 1;
    }
    id := 0;
  }

  /** Inside a class an encoding belongs to one register, and is below 32. */
  lemma UniqueEncoding(a: nat, b: nat, cls: nat, width: nat)
    requires Member(a, cls, width) && Member(b, cls, width) && InfoOf(a).value.encoding == InfoOf(b).value.encoding
    ensures a == b && InfoOf(a).value.encoding < 32
  {
  }

  lemma {:induction false} FirstHitIsHit(index: nat, encoding: nat, width: nat, cls: nat)
    ensures var id := FirstHit(index, encoding, width, cls);
            if id == 0 then forall k: nat :: index <= k < REGISTER_COUNT ==> !Hit(k, encoding, width, cls)
            else id > index && Hit(id - 1, encoding, width, cls)
    decreases REGISTER_COUNT - index
  {
    hide Hit;
    if index < REGISTER_COUNT && !Hit(index, encoding, width, cls) {
      FirstHitIsHit(index + 1, encoding, width, cls);
    }
  }

  /** The id found has the encoding, and a general register is found as such. */
  lemma IdHasEncoding(encoding: nat, width: nat, cls: nat)
    ensures var id := RegId(encoding, width, cls);
            id != 0 ==> InfoOf(id).Some? && InfoOf(id).value.encoding == encoding && (cls == GPR ==> IsCore(id))
  {
    hide FirstHit, SystemInfo;
    FirstHitIsHit(0, encoding, width, cls);
  }

  /** The decoder finds every register of a class from its encoding. */
  lemma IdBack(reg: nat, width: nat, cls: nat)
    requires Member(reg, cls, width)
    ensures RegId(InfoOf(reg).value.encoding, width, cls) == reg
  {
    hide FirstHit, SystemInfo, OddSingle;
    var encoding := InfoOf(reg).value.encoding;
    FirstHitIsHit(0, encoding, width, cls);
    assert Hit(reg - 1, encoding, width, cls);
    if FirstHit(0, encoding, width, cls) != 0 {
      UniqueEncoding(reg, FirstHit(0, encoding, width, cls), cls, width);
    }
  }

  // ---- from register numbers to encodings

  predicate WidthFits(operandWidth: nat, width: nat) {
    width == 0 || operandWidth == 0 || operandWidth == width
  }

  /** The encoding of a register number of the class. */
  function ListedEncoding(reg: nat, operandWidth: nat, cls: nat, width: nat): Option<nat> {
    var info := Lookup(reg);
    if info.Some? && info.value.encoding <= 31 && InClass(info.value, cls, width)
       && (WidthFits(operandWidth, width) || info.value.width == 0) then Some(info.value.encoding)
    else None
  }

  /** The register test of `arm_bf_reg_value`, `arm_bf_plain_reg_encoding` and `arm_td_operand_reg_encoding`: a
      number up to 15 that is no register of the class is taken as the encoding itself. */
  function PlainEncoding(reg: nat, operandWidth: nat, cls: nat, width: nat): Option<nat> {
    var listed := ListedEncoding(reg, operandWidth, cls, width);
    if listed.Some? then listed
    else if cls == GPR && reg <= 15 && WidthFits(operandWidth, width) then Some(reg)
    else None
  }

  /** `arm_bf_gpr4_encoding`. */
  function Gpr4(reg: nat, width: nat): Option<nat> {
    var info := Lookup(reg);
    if reg == 0 then None
    else if info.Some? && info.value.encoding <= 15 && (width == 0 || info.value.width == width) then Some(info.value.encoding)
    else if reg <= 15 && width == 32 then Some(reg)
    else None
  }

  /** `arm_bf_qpr_encoding`. */
  function Quad(reg: nat): Option<nat> {
    var info := Lookup(reg);
    if reg != 0 && info.Some? && info.value.encoding <= 15 && InClass(info.value, QPR, 128) then Some(info.value.encoding)
    else None
  }

  /** The table as the memory encoders and the record decoder use it. */
  const MEMORY: Registers := Registers((reg: nat) => Gpr4(reg, 32), (reg: nat) => Quad(reg))

  const TABLE: RegisterTable :=
    RegisterTable((encoding: nat, width: nat, cls: nat) => RegId(encoding, width, cls),
                  (reg: nat, operandWidth: nat, cls: nat, width: nat) => PlainEncoding(reg, operandWidth, cls, width))

  lemma LowEncodings(reg: nat)
    ensures Gpr4(reg, 32).Some? ==> reg != 0 && Gpr4(reg, 32).value < 16
    ensures Quad(reg).Some? ==> reg != 0 && Quad(reg).value < 16
    ensures IsCore(reg) ==> Gpr4(reg, 32) == Some(reg - CORE_FIRST)
    ensures IsQuad(reg) ==> Quad(reg) == Some(reg - QUAD_FIRST)
  {
    hide SystemInfo, OddSingle;
  }

  lemma MemoryIsValid()
    ensures ValidRegisters(MEMORY)
  {
    hide Gpr4, Quad;
    forall reg: nat
      ensures MEMORY.gpr4(reg).Some? ==> MEMORY.gpr4(reg).value < 16
      ensures MEMORY.quad(reg).Some? ==> MEMORY.quad(reg).value < 16
      ensures IsCore(reg) ==> MEMORY.gpr4(reg) == Some(reg - CORE_FIRST)
      ensures IsQuad(reg) ==> MEMORY.quad(reg) == Some(reg - QUAD_FIRST)
    {
      LowEncodings(reg);
    }
    LowEncodings(0);
  }

  /** A raw number up to 15 is taken for the core register with that encoding where it is no id of a core register: 0, and
      every number in a width that core registers do not have. */
  lemma NumberTaken(n: nat, width: nat)
    requires n <= 15
    ensures PlainEncoding(n, 0, GPR, width) == Some(if width == 0 || width == 32 then if n == 0 then 0 else n - 1 else n)
  {
  }

  /** A register number comes back from its encoding exactly when it is the id of a register of the class. */
  lemma PlainBack(reg: nat, operandWidth: nat, cls: nat, width: nat)
    requires PlainEncoding(reg, operandWidth, cls, width).Some?
    ensures var id := RegId(PlainEncoding(reg, operandWidth, cls, width).value, width, cls);
            id != 0 && id == reg <==> Member(reg, cls, width)
    ensures PlainEncoding(reg, operandWidth, cls, width).value < 32
  {
    hide RegId, InfoOf, InClass, WidthFits, Lookup;
    var encoding := PlainEncoding(reg, operandWidth, cls, width).value;
    CutNumber(reg);
    if ListedEncoding(reg, operandWidth, cls, width).Some? {
      IdBack(reg % U32, width, cls);
      UniqueEncoding(reg % U32, reg % U32, cls, width);
    } else {
      IdHasEncoding(reg, width, cls);
      CoreInfo(RegId(reg, width, cls));
      CoreInfo(reg);
      if Member(reg, cls, width) { MemberIsListed(reg, operandWidth, cls, width); }
    }
  }

  lemma CutNumber(reg: nat)
    ensures Lookup(reg) == InfoOf(reg % U32) && (reg < U32 ==> reg % U32 == reg)
    ensures InfoOf(reg).Some? ==> 0 < reg < U32
    ensures InfoOf(reg % U32).Some? ==> reg % U32 != 0
  {
    hide SystemInfo, OddSingle;
  }

  lemma CoreInfo(reg: nat)
    ensures IsCore(reg) ==> InfoOf(reg) == Some(Info(reg, reg - CORE_FIRST, 0, 32))
  {
    hide SystemInfo, OddSingle;
  }

  lemma MemberIsListed(reg: nat, operandWidth: nat, cls: nat, width: nat)
    requires WidthFits(operandWidth, width) && reg < 16 && Member(reg, cls, width)
    ensures ListedEncoding(reg, operandWidth, cls, width).Some?
  {
    hide SystemInfo, OddSingle;
  }

  /** Only the core registers come back from their low encodings. */
  lemma Gpr4Back(reg: nat, width: nat)
    requires Gpr4(reg, width).Some? && width != 0
    ensures Gpr4(reg, width).value < 16
    ensures var id := RegId(Gpr4(reg, width).value, width, GPR); id != 0 && id == reg <==> IsCore(reg)
  {
    hide RegId, SystemInfo, OddSingle;
    var encoding := Gpr4(reg, width).value;
    IdHasEncoding(encoding, width, GPR);
    if IsCore(reg) {
      IdBack(reg, width, GPR);
    }
  }
}
