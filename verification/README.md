# ASMKIT: a verified model of its codecs, lookups and relocator

ASMKIT decodes, encodes, analyses, prints and relocates machine instructions from generated
tables. This project models its table-driven core and proves what that core promises, for every
table that satisfies the stated well-formedness predicates. `dafny verify dfyconfig.toml` checks
everything.

## What is modelled

- **Indexed lookup.** AArch64, A32 and Thumb words are looked up through binary-searched buckets,
  sub-buckets and two fallback levels while running best candidates are kept. The index is proved to
  agree with a scan of the whole table, whatever the visiting order (`DecodeIndex`, `Selection`,
  `A64Lookup`, `ArmLookup`), and to be monotone in the engine's features (`Features`).
- **Bitfield codec.** Operand bits are scattered into a word and gathered back (`OperandBits`), and
  each operand passes through a transform: logical immediates (`LogicalImm`, `LogicalImmTheory`), A32
  and T32 modified immediates (`ArmModifiedImm`), other immediates (`Immediates`, `A64Immediates`,
  `ArmImmediates`, `LogicalLiteral`), registers (`A64RegisterTable`, `A64Registers`, `ArmRegisterTable`,
  `ArmRegisters`), PC-relative targets (`PcRelative`, `A64PcRel`,
  `ArmPcRel`, `BranchBits`) and memory operands (`ArmMemory`, `PackedFields`). The encoder and the
  decoder are modelled separately, each after its own file, and proved inverse to each other, with the
  exact condition where they are not. The chain is closed from the operands over the stored bytes back
  to the found record and the decoded operands, for AArch64 (`A64Records`, `A64Packing`, `A64EndToEnd`)
  and for A32 and Thumb (`ArmRecords`, `ArmPacking`, `ArmMasks`, `ArmEndToEnd`). The other way round,
  what the decoder reads is proved to be accepted by the encoder and given its own field and word back,
  again with the exact condition (`A64RegistersAgain`, `A64DecodeEncode`; `ArmMemoryAgain`,
  `ArmRegistersAgain`, `ArmTakenBack`, `ArmReach`, `ArmDecodeEncode`).
- **Blocks, relocation and detours.** `Block`, `Relocate` and `Detour` follow the block loop, the
  relocator and the planner over any target that keeps the stated contracts. `A64Code`,
  `A64Relocate` and `A64Target` give the AArch64 target with a small semantics of its
  control flow; `A64FormTests`, `A64Reach` and `A64Jumps` say which words it takes for which form, where
  they can be moved, and which jumps it emits. `A64Detour` compares planned with reported clobbers, and
  `A64Trampoline` proves that a relocated prologue, run from the caller's buffer, does what the
  overwritten words did at their own addresses.
- **IT blocks and text.** `ItState` follows the Thumb IT state over whole runs, `Text` the builder,
  the number printers and the IT mnemonic. `EmitRel` emits direct branches, `ByteOrder` stores words.

Machine words are natural numbers below a power of two; `Bits` defines the C operators on them and
gives each one law about single bits. `Residues`, `Rotation`, `Operands`, `ArmDescs` and `Wrappers`
are shared vocabulary.

## Where the code falls short of an unconditional promise

Each of these is the code's behaviour, kept as it is, with the exact condition and a concrete input:

- The T32 modified-immediate encoder refuses every value 0xXY00XY00, although it has a branch for
  them: that branch looks at the low byte (`T2SoMeaning`, `OddPairsBranchIsDead`, `T2SoCounterexample`).
- The A32/T32 signed field masks instead of checking, and loses bits under masks with holes such as
  0x2ff (`SignedExact`, `SignedCounterexample`).
- Thumb BL/B with mask 0xfffffe drops bit 1 of the displacement (`DispRoundTrip`,
  `BranchCounterexample`); A32 ADR takes 32-bit wrapped displacements, and INT32_MIN becomes 0
  (`AdrBack`, `AdrModulo`, `AdrCounterexample`).
- Every A32/T32 memory form takes other 32-bit registers for core registers with the same encoding
  (`MemRoundTrip`, `BaseIsCore`, `CoreCounterexample`), and drops a direction, a shift, an extension or a
  NEON alignment that it has no bits for (`ModifierCounterexample`, `AlignmentCounterexample`); the MVE
  register-offset form accepts operands without an index register (`MveBack`, `MveCounterexample`); the
  8-bit negative form without bit 0x100 loses the sign (`MemRoundTrip`, `NegImm8Counterexample`).
- A32/T32 register operands may be raw numbers or, when shifted, registers of another kind, lists may
  leave their shape open, and flags that a form does not express are dropped
  (`ArmRegisters.RegRoundTrip`, `AliasBack`, `ZeroCounterexample`, `SingleCounterexample`).
- AArch64 register operands may be raw numbers, registers of another width, or, as pairs, any register
  with an even encoding, and the pair flag of a single register is dropped (`A64Registers.RegRoundTrip`,
  `WidthCounterexample`, `SystemPairCounterexample`, `PairCounterexample`).
- Modifiers on immediates, opaque values and targets are dropped, and so is a width given to an immediate or
  a target that is not the record's (`A64Packing.OperandRoundTrip`, `ArmPacking.OperandBack`, `StrayCounterexample`).
- AArch64 immediates come back exactly under descriptors whose literal the transform leaves alone
  (`ImmExact`, `LiteralExact`); a narrowing shift needs a power of two (`NarrowExact`, `NarrowCounterexample`).
- The AArch64 relocator turns a call out of direct range into a sequence whose return address is its
  own literal, and inverts the condition of `B.cond` codes 14 and 15, which both mean "always"
  (`RelocationMeaning`, `TrampolineMeaning`, `FarCallCounterexample`, `FarAlwaysCounterexample`).
- A clobberless AArch64 plan announces no clobbers, but an instruction that has to be expanded clobbers
  X16 (`DetourClobbers`, `ClobberCounterexample`).
- Overwritten code that branches back into itself keeps its old target when relocated (`LoopingMeaning`,
  `LoopCounterexample`).
- A decoded A32/T32 instruction is not always encoded to the word that it was decoded from
  (`ArmDecodeEncode.DecodedWordAgain`): a subtracted zero offset becomes an added one, the 8-bit negative form
  without bit 0x100 refuses positive displacements that it is read as (`DecodedIsTaken`), and a target of 0 is
  taken for a missing one where the program counter is aligned (`DecodedTarget`, `ZeroTargetCounterexample`).
- On AArch64 (`A64DecodeEncode.DecodedWordAgain`) the encoder refuses a 64-bit extension of a 32-bit register
  that the decoder reads (`A64RegistersAgain.DecodedRegister`), and gives immediates with several fields the
  least one (`DecodedField`).

## Model

| member | source | states |
|---|---|---|
| `DecodeIndex.FindKey` | src/generated/aarch64/asmkit_gen_aarch64_decode.c:200-244 | The binary search over sorted bucket or sub-bucket keys returns the position of the key when it is there and nothing when it is not. |
| `DecodeIndex.FindSubbucket` | src/generated/aarch64/asmkit_gen_aarch64_decode.c:246-270 | The sub-bucket of a word: none when the bucket has no sub-buckets or the word's masked key is not listed. |
| `DecodeIndex.KeyAtUnique` | src/generated/aarch64/asmkit_gen_aarch64_decode.c:200-221 | In a sorted key range a key occurs once, so the search cannot land on another entry with the same key. |
| `DecodeIndex.KeyOfWord` | src/generated/aarch64/asmkit_gen_aarch64_decode.c:223-244 | A word of a record has the record's own key under every index mask that the record's fixed bits cover: the key under which the record is filed is the key that is searched for. |
| `DecodeIndex.Complete` | src/generated/aarch64/asmkit_gen_aarch64_decode.c:917-979 | For every well-formed index, a lookup visits every record whose pattern the word matches, and only records of its own family. |
| `Selection.ScanIsBest` | src/generated/aarch64/asmkit_gen_aarch64_decode.c:909-914 | A linear scan over all candidates ends in the best one: nothing outranks it, and among equals it has the lowest index. |
| `Selection.BestIsScan` | src/generated/aarch64/asmkit_gen_aarch64_decode.c:909-914 | There is exactly one best candidate, so any search that ends in a best one, in any order and with repetitions, agrees with the scan. |
| `A64Lookup.Search.GuardMatches` | src/generated/aarch64/asmkit_gen_aarch64_decode.c:860-884 | The PSTATE guard of a record holds for the word exactly when its operand bits spell an allowed literal. |
| `A64Lookup.Search.Acceptable` | src/generated/aarch64/asmkit_gen_aarch64_decode.c:886-902 | A record is acceptable exactly when its pattern, guard, operands and (if asked) features fit the word. |
| `A64Lookup.Search.Consider` | src/generated/aarch64/asmkit_gen_aarch64_decode.c:886-915 | The running best stays the best of all records seen so far when one more is looked at. |
| `A64Lookup.Search.ConsiderBucket` | src/generated/aarch64/asmkit_gen_aarch64_decode.c:917-957 | A bucket adds exactly the records of its sub-bucket, of its sub-bucket fallback list, or of the whole bucket. |
| `A64Lookup.FindRecord` | src/generated/aarch64/asmkit_gen_aarch64_decode.c:959-979 | The indexed search returns what a scan of the whole record table returns. |
| `A64Lookup.ReachDecides` | src/generated/aarch64/asmkit_gen_aarch64_decode.c:917-979 | The records that the index visits contain every acceptable record of the table. |
| `A64Lookup.FindMeaning` | src/generated/aarch64/asmkit_gen_aarch64_decode.c:886-979 | A lookup fails exactly when every record lacks the word's fixed bits, a feature (when checked), an enabled PSTATE literal or a decodable operand; otherwise the result lacks none, has the most fixed bits, and among those the lowest index. |
| `A64Lookup.FoundIsEnabled` | src/generated/aarch64/asmkit_gen_aarch64_decode.c:886-902 | A checked lookup returns only records whose features are all enabled and whose fixed bits the word has. |
| `A64Lookup.GuardFieldIs` | src/generated/aarch64/asmkit_gen_aarch64_decode.c:843-884 | The PSTATE field and the invalid fields as numbers. |
| `A64Lookup.FindGrows` | src/generated/aarch64/asmkit_gen_aarch64_decode.c:819-829 | On an engine with more features a found word stays found, with no fewer fixed bits. |
| `A64Lookup.AllFeaturesUnchecked` | src/generated/aarch64/asmkit_gen_aarch64_decode.c:1384-1390 | With all features on, the checked and the unchecked lookup find the same record. |
| `ArmLookup.Search.Consider` | src/generated/arm/asmkit_gen_arm_decode.c:1888-1934 | Both running results, best enabled and best feature-blocked, stay the best of the records seen so far. |
| `ArmLookup.Search.ConsiderBucket` | src/generated/arm/asmkit_gen_arm_decode.c:1936-2081 | A bucket of any of the three index families adds exactly its sub-bucket, fallback or whole-bucket records. |
| `ArmLookup.FindInSpace` | src/generated/arm/asmkit_gen_arm_decode.c:2083-2111 | The A32 lookup returns what two linear scans over the family, one of enabled and one of blocked records, decide. |
| `ArmLookup.FindThumb` | src/generated/arm/asmkit_gen_arm_decode.c:2118-2159 | The Thumb lookup does the same over the records of the requested instruction size. |
| `ArmLookup.CheckedMeaning` | src/generated/arm/asmkit_gen_arm_decode.c:2107-2110 | A checked lookup returns nothing exactly when no enabled record describes the word or a blocked one strictly outranks all enabled ones; otherwise it returns the best enabled record, whose (priority, fixed bits) equals that of the unchecked winner. |
| `ArmLookup.FindMeaning` | src/generated/arm/asmkit_gen_arm_decode.c:1870-2111 | The winner spelled out: in its space, with its fixed bits in the word and its operands decodable, enabled, with the highest priority, then the most fixed bits, then the lowest index; nothing is found exactly when there is none or a disabled one has a strictly higher rank. |
| `ArmLookup.FindGrows` | src/generated/arm/asmkit_gen_arm_decode.c:1858-1868 | More features never lose a found word, and the new winner has the same rank. |
| `ArmLookup.AllFeaturesUnchecked` | src/generated/arm/asmkit_gen_arm_decode.c:1858-1868 | With all features on, checked and unchecked lookup coincide. |
| `ArmLookup.FoundDecodes` | src/generated/arm/asmkit_gen_arm_decode.c:2213-2215 | A record returned by a lookup decodes its operands at every address, so finishing it never fails. |
| `A64Records.OperandValuesLoop` | src/generated/aarch64/asmkit_gen_aarch64_decode.c:678-707 | Gathering operand values and overwriting literals computes the specified values, and fails on exactly the out-of-range pieces. |
| `A64Records.OperandsMatchLoop` | src/generated/aarch64/asmkit_gen_aarch64_decode.c:709-733 | The check before selection passes exactly when every operand can be decoded. |
| `A64Records.DecodeOperandsLoop` | src/generated/aarch64/asmkit_gen_aarch64_decode.c:735-775 | The final decode fills the operand array with the specified operands. |
| `A64Records.MatchIsDecodable` | src/generated/aarch64/asmkit_gen_aarch64_decode.c:709-775 | The final decode succeeds, at every address, exactly when the check before selection passed and no operand is of an unknown kind; a record without operands always decodes. |
| `A64Records.OperandsMatchIs` | src/generated/aarch64/asmkit_gen_aarch64_decode.c:709-733 | The check before selection passes exactly when every operand of a known kind decodes. |
| `A64Records.OnlyPcRelMoves` | src/generated/aarch64/asmkit_gen_aarch64_decode.c:735-775 | Decoding the same word at another address changes PC-relative operands only. |
| `A64Records.LiteralMatchLoop` | src/generated/aarch64/asmkit_gen_aarch64_decode.c:848-858 | The PSTATE literal loop finds an entry that has the guard, the encoding and the features exactly when there is one. |
| `ArmRecords.FirstPassLoop` | src/generated/arm/asmkit_gen_arm_decode.c:1737-1816 | The first pass decodes each operand that does not depend on another one. |
| `ArmRecords.SecondPassLoop` | src/generated/arm/asmkit_gen_arm_decode.c:1817-1853 | The second pass fills in operands derived from the first ones. |
| `ArmRecords.DecodeOperandsLoop` | src/generated/arm/asmkit_gen_arm_decode.c:1710-1856 | Decoding a record's operands gives the specified operands, and fails on a duplicate-bit conflict, an undecodable operand or a refused register. |
| `ArmRecords.DecodesAnywhere` | src/generated/arm/asmkit_gen_arm_decode.c:1870-1875 | Whether the operands decode, and to what but for absolute targets, does not depend on the address: the trial decode at address 0 stands for the final one. |
| `OperandBits.GatherLoop` | src/generated/aarch64/asmkit_gen_aarch64_decode.c:678-707 | The gather loop moves each piece's word bit to its operand bit. |
| `OperandBits.ScatterLoop` | src/generated/aarch64/asmkit_gen_aarch64_encode.c:865-890 | The scatter loop moves each piece's operand bit to its word bit. |
| `OperandBits.PackedKeepsFixedBits` | src/generated/aarch64/asmkit_gen_aarch64_encode.c:865-890 | A packed word still satisfies `word & mask == value`. |
| `OperandBits.GatherPacked` | src/generated/aarch64/asmkit_gen_aarch64_decode.c:678-707 | Gathering from a packed word gives each operand bit that some piece carries, and no other bit. |
| `OperandBits.GatherOfScatter` | src/generated/aarch64/asmkit_gen_aarch64_encode.c:865-890 | Gather undoes scatter when the pieces carry all operand bits. |
| `OperandBits.ScatterOfGather` | src/generated/aarch64/asmkit_gen_aarch64_decode.c:678-707 | Scatter rebuilds every word of the record from its gathered operands when the pieces cover all free bits. |
| `OperandBits.ArmGatherLoop` | src/generated/arm/asmkit_gen_arm_decode.c:1725-1736 | The ARM gather loop with its `seen` masks passes over pieces out of range, gathers the operands from the others and reports the first conflict. |
| `OperandBits.GatherPiece` | src/generated/arm/asmkit_gen_arm_decode.c:1727-1735 | One piece: a bit that was seen before must agree, and is otherwise recorded. |
| `OperandBits.ArmGatherComplete` | src/generated/arm/asmkit_gen_arm_decode.c:1725-1736 | The duplicate-bit check passes exactly when some operand values could have produced the word. |
| `OperandBits.ArmRepack` | src/generated/arm/asmkit_gen_arm_decode.c:1725-1736 | A word that passes the conflict check packs to itself again when the pieces reach every free bit. |
| `OperandBits.ArmGatherOfScatter` | src/generated/arm/asmkit_gen_arm_encode.c:1678-1693 | What the ARM packer writes passes the conflict check and is read back, also when one operand bit goes to several places. |
| `LogicalImm.HighestSetBitLoop` | src/generated/aarch64/asmkit_gen_aarch64_decode.c:290-299 | The loop finds the highest set bit, or -1. |
| `LogicalImm.HighestIsTop` | src/generated/aarch64/asmkit_gen_aarch64_decode.c:290-299 | The specified bit is set and none above it is. |
| `LogicalImm.ReplicateLoop` | src/generated/aarch64/asmkit_gen_aarch64_decode.c:321-334 | The loop ORs one copy of the element at every multiple of its width. |
| `LogicalImm.LogicalImmValue` | src/generated/aarch64/asmkit_gen_aarch64_encode.c:381-415 | The subset-enumerating loop terminates for every mask and returns the specified encoding. |
| `LogicalImm.EncoderMeaning` | src/generated/aarch64/asmkit_gen_aarch64_encode.c:381-415 | The encoder is sound and complete: it returns the least encoding inside the source mask that decodes to the wanted value, and fails exactly when there is none. |
| `LogicalImmTheory.BitOfRor` | src/generated/aarch64/asmkit_gen_aarch64_decode.c:306-319 | Bit i of a rotated element is bit i+r modulo the width. |
| `LogicalImmTheory.BitOfValue` | src/generated/aarch64/asmkit_gen_aarch64_decode.c:336-371 | The bits of a decoded value are exactly the positions inside the rotated, replicated run. |
| `LogicalImmTheory.Periodic` | src/generated/aarch64/asmkit_gen_aarch64_decode.c:336-371 | A decoded value has the element width as a period. |
| `LogicalImmTheory.OnesCount` | src/generated/aarch64/asmkit_gen_aarch64_decode.c:336-371 | A decoded value has exactly (register width / element width) * (s + 1) one bits. |
| `LogicalImmTheory.NeverTrivial` | src/generated/aarch64/asmkit_gen_aarch64_decode.c:336-371 | No encoding decodes to zero or to all ones. |
| `LogicalImmTheory.ShapeUnique` | src/generated/aarch64/asmkit_gen_aarch64_decode.c:336-371 | A value determines its element width, rotation and run length. |
| `LogicalImmTheory.SameValueSameFields` | src/generated/aarch64/asmkit_gen_aarch64_decode.c:336-371 | Two accepted encodings decode to one value exactly when they agree on N, on imms and on immr modulo the element width. |
| `LogicalImmTheory.EveryShapeEncodes` | src/generated/aarch64/asmkit_gen_aarch64_encode.c:344-379 | Every rotated, replicated run has an encoding. |
| `LogicalImmTheory.LeastIsCanonical` | src/generated/aarch64/asmkit_gen_aarch64_encode.c:381-415 | Under a full source mask the least encoding is the one whose immr is already reduced. |
| `LogicalImmTheory.EncoderAcceptsRuns` | src/generated/aarch64/asmkit_gen_aarch64_encode.c:381-415 | With a full source mask the encoder accepts exactly the rotated, replicated runs, a 32-bit one also written with a sign, and returns the canonical encoding. |
| `Immediates.SourceWidthLoop` | src/generated/aarch64/asmkit_gen_aarch64_decode.c:279-288 | The loop counts the bits up to the highest bit of the mask. |
| `Immediates.SignExtendValue` | src/generated/aarch64/asmkit_gen_aarch64_decode.c:272-277 | Sign extension is the two's-complement reading of the field. |
| `Immediates.SignExtendOfMod` | src/generated/aarch64/asmkit_gen_aarch64_decode.c:272-277 | An immediate in range is read back from its two's-complement digits. |
| `Immediates.RawSignedRoundTrip` | src/generated/aarch64/asmkit_gen_aarch64_encode.c:238-266 | The signed field accepts an immediate exactly when it is in range and its digits lie in the mask, and then reads it back. |
| `Immediates.RawSignedContiguous` | src/generated/aarch64/asmkit_gen_aarch64_encode.c:238-266 | A contiguous mask accepts exactly the signed range. |
| `A64Immediates.ImmRoundTrip` | src/generated/aarch64/asmkit_gen_aarch64_encode.c:417-486 | Every accepted immediate is decoded unchanged, for every transform and mask (32-bit logical immediates modulo 2^32). |
| `A64Immediates.LiteralExact` | src/generated/aarch64/asmkit_gen_aarch64_decode.c:574-646 | A descriptor with only a literal gives the literal back exactly when its transform leaves literals alone; logical immediates never do. |
| `LogicalLiteral.NeverItself` | src/generated/aarch64/asmkit_gen_aarch64_decode.c:336-371 | No word, read as the N:immr:imms fields of a logical immediate, decodes to itself, at either register width. |
| `A64Immediates.ImmExact` | src/generated/aarch64/asmkit_gen_aarch64_encode.c:417-486 | A descriptor, of any transform, mask and literal, gives every accepted immediate back exactly when its literal is one that its transform leaves alone and a narrowing literal is a power of two. |
| `A64Immediates.NarrowExact` | src/generated/aarch64/asmkit_gen_aarch64_encode.c:464-468 | The narrowing vector shift round-trips, for every mask, exactly when its literal is zero or a power of two under a nonzero mask. |
| `A64Immediates.NarrowCounterexample` | src/generated/aarch64/asmkit_gen_aarch64_encode.c:464-468 | With literal 12 the narrowing shift accepts 4 and reads 6. |
| `A64Immediates.DecodedIsAccepted` | src/generated/aarch64/asmkit_gen_aarch64_decode.c:574-646 | A decoded immediate of any transform, logical ones and narrowing shifts with any literal included, is accepted by the encoder exactly for the field values named by `Reencodes`. |
| `A64Immediates.DecodedField` | src/generated/aarch64/asmkit_gen_aarch64_encode.c:417-486 | Which field it is then encoded to: the same one, up to a shift of zero and bits that the form does not keep; for logical immediates the least one in the mask that decodes alike, under a full mask the canonical one. |
| `A64Immediates.PowerReencodes` | src/generated/aarch64/asmkit_gen_aarch64_encode.c:464-468 | For a narrowing literal that is a power of two those are all field values, unless the literal is 1. |
| `A64RegisterTable.IdIsRegister` | src/generated/aarch64/asmkit_gen_aarch64_decode.c:373-456 | Whatever id the decoder finds for an encoding is a register of the class and width, with that encoding. |
| `A64RegisterTable.IdBack` | src/generated/aarch64/asmkit_gen_aarch64_decode.c:373-456 | The decoder finds every register of every class and width from its encoding. |
| `A64RegisterTable.EncodingBack` | src/generated/aarch64/asmkit_gen_aarch64_encode.c:488-549 | A register number that the encoder accepts is found again from its encoding exactly when it is the id of a register of the class and width: not for open widths, raw numbers, or numbers above 32 bits. |
| `A64RegisterTable.EncodingDecodes` | src/generated/aarch64/asmkit_gen_aarch64_encode.c:488-549 | Whatever the encoder accepts is some register for the decoder. |
| `A64RegisterTable.NumberTaken` | src/generated/aarch64/asmkit_gen_aarch64_encode.c:547-556 | A raw number up to 30 without a width is taken for the 64-bit register with that encoding. |
| `A64Registers.RegRoundTrip` | src/generated/aarch64/asmkit_gen_aarch64_encode.c:488-762 | A register operand the encoder accepts (plain, shifted, extended, pair, windowed) decodes to the same register and modifiers exactly when `KeepsRegister` holds; where it decodes, which is always under a descriptor with a width of its class, the pair and list flags come back exactly when `KeepsFlags` holds. |
| `A64RegistersAgain.DecodedRegister` | src/generated/aarch64/asmkit_gen_aarch64_encode.c:594-762 | Which register operands that the decoder reads are taken back by the encoder, and the field that each is given. |
| `A64Registers.PairCounterexample` | src/generated/aarch64/asmkit_gen_aarch64_encode.c:706-762 | X2 marked as a pair is accepted as a single register and read back as one. |
| `A64Registers.WidthCounterexample` | src/generated/aarch64/asmkit_gen_aarch64_encode.c:547-556 | In a 64-bit field W0 (id 1) is encoded as X1 when it leaves its width open, and as X0 when it claims 64 bits. |
| `A64Registers.SystemPairCounterexample` | src/generated/aarch64/asmkit_gen_aarch64_encode.c:659-688 | NZCV is accepted as the register pair X0, X1. |
| `A64PcRel.PcRelRoundTrip` | src/generated/aarch64/asmkit_gen_aarch64_encode.c:782-815 | An accepted target decodes at the same address, exactly under a nonzero mask, to the same target modulo 2^64, for ADRP to its page. |
| `A64PcRel.PcRelExact` | src/generated/aarch64/asmkit_gen_aarch64_encode.c:782-815 | The target itself comes back except for ADRP to an address inside a page. |
| `A64PcRel.PcRelComplete` | src/generated/aarch64/asmkit_gen_aarch64_decode.c:648-676 | If some field value inside the mask decodes to the target, the encoder returns that field value. |
| `A64PcRel.EncodedTarget` | src/generated/aarch64/asmkit_gen_aarch64_encode.c:782-815 | The target that is encoded is the absolute one, or the one that the displacement leads to when only that is given. |
| `A64PcRel.WordsReach` | src/generated/aarch64/asmkit_gen_aarch64_encode.c:782-815 | With a contiguous mask the reach is the whole word-aligned signed range. |
| `A64Packing.PstateLiteralLoop` | src/generated/aarch64/asmkit_gen_aarch64_encode.c:197-212 | The encoder's PSTATE loop accepts exactly listed literals whose features are on, and tells a missing feature from a missing literal. |
| `A64Packing.GuardLoop` | src/generated/aarch64/asmkit_gen_aarch64_encode.c:842-863 | The encoder's guard check agrees with the specified guard and reports feature mismatches. |
| `A64Packing.PackRecord` | src/generated/aarch64/asmkit_gen_aarch64_encode.c:865-890 | Packing one record gives the specified word or the specified kind of mismatch. |
| `A64Packing.EncodeBitfield` | src/generated/aarch64/asmkit_gen_aarch64_encode.c:892-935 | The first record in table order that can encode the instruction is used; the bytes written are its word, the rest of the buffer is untouched, and the error statuses are distinguished. |
| `A64Packing.EncodableMeaning` | src/generated/aarch64/asmkit_gen_aarch64_encode.c:834-935 | A record is usable for its own instructions, or as the default or the only signature for those of its mnemonic without an id, with its features and PSTATE literal on and every operand accepted. |
| `A64Packing.OperandRoundTrip` | src/generated/aarch64/asmkit_gen_aarch64_encode.c:817-832 | An encoded operand of any kind decodes, to one with the same meaning, modifiers and width (if given) exactly when `KeepsOperand` holds: registers named as the field reads them, numbers without modifiers and not negative in a 32-bit logical field, ADRP targets at the start of a page. |
| `A64Packing.StrayCounterexample` | src/generated/aarch64/asmkit_gen_aarch64_encode.c:817-832 | The immediate 5 with a shift is accepted and read back without it. |
| `A64Packing.EncodedWithin` | src/generated/aarch64/asmkit_gen_aarch64_encode.c:817-832 | An encoded field value never leaves its source mask. |
| `A64Packing.ValuesReadBack` | src/generated/aarch64/asmkit_gen_aarch64_decode.c:678-707 | The decoder reads back every operand value that was packed. |
| `A64Packing.PackedMatches` | src/generated/aarch64/asmkit_gen_aarch64_encode.c:865-890 | A packed word matches the pattern of its decode record. |
| `A64Packing.PackRoundTrip` | src/generated/aarch64/asmkit_gen_aarch64_encode.c:865-890 | A packed instruction matches its decode record and decodes at the same address; each operand means the same exactly when `KeepsOperand` holds of it. |
| `A64Packing.GuardsAgree` | src/generated/aarch64/asmkit_gen_aarch64_encode.c:842-863 | What the encoder's guard admits, the decoder's guard admits. |
| `A64EndToEnd.PackedIsAccepted` | src/generated/aarch64/asmkit_gen_aarch64_decode.c:886-902 | The mirroring decode record accepts the packed word on an engine with the encoder's features. |
| `A64EndToEnd.EncodedIsFound` | src/generated/aarch64/asmkit_gen_aarch64_decode.c:959-979 | An encoded and stored instruction is found again by the indexed lookup: by its own record, with operands that mean the same exactly when `KeepsOperand` holds of them, or by a record that the order prefers. |
| `A64DecodeEncode.OperandComesBack` | src/generated/aarch64/asmkit_gen_aarch64_encode.c:817-832 | An operand of any kind that was read from a field is encoded to that field exactly when `FieldComesBack` holds. |
| `A64DecodeEncode.DecodedWordAgain` | src/generated/aarch64/asmkit_gen_aarch64_encode.c:865-890 | A word that the decoder reads is packed to the same word exactly when each of its operands comes back and it has the encode record's bits wherever no piece writes. |
| `A64DecodeEncode.DecodedIsEncodable` | src/generated/aarch64/asmkit_gen_aarch64_encode.c:834-890 | With the features on such a word is one that the encoder's record can be used for. |
| `A64DecodeEncode.OpaqueWidth` | src/generated/aarch64/asmkit_gen_aarch64_encode.c:764-780 | An opaque operand may leave its width open, as may its record. |
| `ArmPacking.PiecesLoop` | src/generated/arm/asmkit_gen_arm_encode.c:1678-1693 | The loop over the pieces fails on the first operand that does not encode, and otherwise sets or clears each destination bit in turn; operands without pieces are not looked at. |
| `ArmPacking.EncodeBitfield` | src/generated/arm/asmkit_gen_arm_encode.c:1649-1718 | The first record in table order that stands for the instruction, has its features and packs is used; its bytes are stored in the order of its mode, the rest of the buffer is untouched, and a missing feature is reported only when no candidate had its features. |
| `ArmPacking.EncodableMeaning` | src/generated/arm/asmkit_gen_arm_encode.c:1602-1693 | A record is usable for its own instructions, or as the default for those of its mnemonic without an id, in its mode, with its features on and each carried operand accepted. |
| `ArmPacking.StoredBack` | src/generated/arm/asmkit_gen_arm_decode.c:2413-2416 | A stored instruction is loaded back as the packed word, wide Thumb with its high halfword first. |
| `ArmPacking.StoredBytes` | src/generated/arm/asmkit_gen_arm_encode.c:1706-1714 | Each stored byte, with the high halfword of a wide Thumb instruction first. |
| `ArmPacking.PackedReadsBack` | src/generated/arm/asmkit_gen_arm_decode.c:1725-1736 | Every packed word passes the decoder's conflict check, and the decoder reads back the packed fields exactly when the pieces carry all their bits. |
| `ArmPacking.PackedKeepsMask` | src/generated/arm/asmkit_gen_arm_encode.c:1676-1693 | A packed word keeps the fixed bits of the record. |
| `ArmPacking.OperandBack` | src/generated/arm/asmkit_gen_arm_decode.c:1737-1816 | A register, immediate, memory or PC-relative operand whose field is read back decodes to the same meaning exactly when `KeepsOperand` holds. |
| `ArmPacking.PackedOperand` | src/generated/arm/asmkit_gen_arm_encode.c:1649-1718 | From operands over the packed word and the conflict check back to operands: each operand that pieces carry means the same exactly under that condition. |
| `ArmMasks.EncodedInside` | src/generated/arm/asmkit_gen_arm_encode.c:1496-1539 | An encoded field of any kind stays inside the source mask, also of the forms without a mask test, if the mask holds the bits of the form. |
| `ArmMasks.FieldsCovered` | src/generated/arm/asmkit_gen_arm_encode.c:1678-1693 | So pieces that carry the source masks carry every bit of the fields of every instruction that packs. |
| `ArmEndToEnd.WordMatches` | src/generated/arm/asmkit_gen_arm_encode.c:1676-1693 | A packed word has the fixed bits of the mirroring decode record, also where pieces write a bit that the pattern fixes (the top bit of a fixed-point conversion). |
| `ArmEndToEnd.FirstPassSlots` | src/generated/arm/asmkit_gen_arm_decode.c:1737-1816 | The first pass succeeds exactly when each operand that repeats no other decodes, and puts each where its descriptor says. |
| `ArmEndToEnd.SecondPassSlots` | src/generated/arm/asmkit_gen_arm_decode.c:1817-1853 | The second pass succeeds exactly when each repeated register can be made from the first slots, and changes no other slot. |
| `ArmEndToEnd.EncodedDecodes` | src/generated/arm/asmkit_gen_arm_decode.c:1710-1856 | The mirroring record decodes a packed instruction, both passes and the refused registers included, to the same instruction exactly when every operand is kept and the record accepts its registers. |
| `ArmEndToEnd.EncodedIsFound` | src/generated/arm/asmkit_gen_arm_decode.c:2083-2159 | Such an instruction, encoded, stored, loaded and looked up, is found: by its own record, with the same operands, or by a record that the order prefers; nothing is found only if a record that a missing feature blocks outranks its own. |
| `ArmDecodeEncode.OperandComesBack` | src/generated/arm/asmkit_gen_arm_encode.c:1496-1539 | An operand of any kind that was read from a field is encoded to that field exactly when `FieldComesBack` holds. |
| `ArmDecodeEncode.DecodedWordAgain` | src/generated/arm/asmkit_gen_arm_encode.c:1649-1718 | A word that the decoder reads is packed to the same word exactly when each of its operands comes back and it has the encode record's bits wherever no piece writes. |
| `ArmDecodeEncode.DecodedIsEncodable` | src/generated/arm/asmkit_gen_arm_encode.c:1649-1718 | With the features on such a word is one that the encoder accepts. |
| `Rotation.RorOfRol` | src/generated/arm/asmkit_gen_arm_encode.c:260-264 | Right rotation undoes left rotation. |
| `Rotation.RolOfRor` | src/generated/arm/asmkit_gen_arm_decode.c:820-824 | And left rotation undoes right rotation. |
| `ArmModifiedImm.ModImmLoop` | src/generated/arm/asmkit_gen_arm_encode.c:266-285 | The A32 loop over sixteen rotations returns the specified field. |
| `ArmModifiedImm.ModImmMeaning` | src/generated/arm/asmkit_gen_arm_encode.c:266-285 | The A32 encoder accepts a value exactly when some encoding inside the mask rotates to it, and returns the least encoding, which has the least rotation (section A5.2.4 of ARM DDI 0406C). |
| `ArmModifiedImm.T2SoImmLoop` | src/generated/arm/asmkit_gen_arm_encode.c:287-322 | The T32 loop returns the specified field. |
| `ArmModifiedImm.T2SoRoundTrip` | src/generated/arm/asmkit_gen_arm_encode.c:287-322 | Every accepted T32 modified immediate decodes back (section A6.3.2 of ARM DDI 0406C). |
| `ArmModifiedImm.T2SoMeaning` | src/generated/arm/asmkit_gen_arm_encode.c:287-322 | The T32 encoder accepts exactly the decodable values other than those of the form 0xXY00XY00. |
| `ArmModifiedImm.OddPairsBranchIsDead` | src/generated/arm/asmkit_gen_arm_encode.c:301-309 | The encoder's branch for 0xXY00XY00 looks at the wrong byte and is never taken. |
| `ArmModifiedImm.OddPairsRejected` | src/generated/arm/asmkit_gen_arm_encode.c:287-322 | Every nonzero value of that form is refused. |
| `ArmModifiedImm.T2SoCounterexample` | src/generated/arm/asmkit_gen_arm_decode.c:826-844 | 0xab00ab00 is decodable and refused by the encoder. |
| `ArmRegisterTable.RegIdLoop` | src/generated/arm/asmkit_gen_arm_decode.c:870-889 | The shortcuts and the loop over the register table return the specified id. |
| `ArmRegisterTable.UniqueEncoding` | src/generated/arm/asmkit_gen_arm_decode.c:846-868 | Inside a register class an encoding belongs to one register. |
| `ArmRegisterTable.IdBack` | src/generated/arm/asmkit_gen_arm_decode.c:870-889 | The decoder finds every register of a class from its encoding. |
| `ArmRegisterTable.PlainBack` | src/generated/arm/asmkit_gen_arm_encode.c:745-768 | An accepted register number is found again from its encoding exactly when it is the id of a register of the class. |
| `ArmRegisterTable.Gpr4Back` | src/generated/arm/asmkit_gen_arm_encode.c:770-787 | An accepted base, index or shifted register is found again exactly when it is a core register. |
| `ArmRegisterTable.MemoryIsValid` | src/generated/arm/asmkit_gen_arm_encode.c:770-801 | The register table meets what the memory operand proofs ask of it. |
| `ArmRegisters.RegRoundTrip` | src/generated/arm/asmkit_gen_arm_encode.c:1496-1524 | Every register operand that the encoder accepts (plain, shifted by an amount or a register, set, counted list, vector list, post-index, quad from double, even and odd) decodes to the same operand, flags included, exactly when `KeepsRegister` holds. |
| `ArmRegistersAgain.DecodedRegister` | src/generated/arm/asmkit_gen_arm_encode.c:1496-1524 | Which register operands that the decoder reads are taken back by the encoder, and the field that each is given. |
| `ArmRegistersAgain.RegisterFieldBack` | src/generated/arm/asmkit_gen_arm_encode.c:1496-1524 | The field itself comes back exactly when it has no bits beside those that count. |
| `ArmRegistersAgain.OpenWidth` | src/generated/arm/asmkit_gen_arm_encode.c:1496-1524 | An operand that is accepted with its width is accepted, and encoded alike, when it leaves the width open. |
| `ArmRegisters.AliasBack` | src/generated/arm/asmkit_gen_arm_encode.c:1541-1600 | A register that the encoder accepts as a repetition (memory base, following register, fixed register) is rebuilt by the decoder from the other operand exactly when `KeepsAlias` holds. |
| `ArmRegisters.ZeroCounterexample` | src/generated/arm/asmkit_gen_arm_encode.c:763-766 | Register number 0 is encoded as R0 and read back as its id 1. |
| `ArmRegisters.SingleCounterexample` | src/generated/arm/asmkit_gen_arm_encode.c:1434-1436 | S0 is accepted as a shifted register and read back as R0. |
| `ArmRegisterTable.NumberTaken` | src/generated/arm/asmkit_gen_arm_encode.c:763-766 | A raw number up to 15 is taken for a core register: as an id where it is one, and otherwise by encoding. |
| `ArmImmediates.StoredSigned` | src/generated/arm/asmkit_gen_arm_encode.c:239-258 | What the A32/T32 signed field stores: the low digits, masked. |
| `ArmImmediates.SignedExact` | src/generated/arm/asmkit_gen_arm_encode.c:239-258 | An accepted signed immediate is read back exactly when its digits lie inside the mask. |
| `ArmImmediates.SignedCounterexample` | src/generated/arm/asmkit_gen_arm_encode.c:239-258 | With mask 0x2ff the encoder accepts 256 and stores 0. |
| `ArmImmediates.ArmImmRoundTrip` | src/generated/arm/asmkit_gen_arm_encode.c:501-622 | An accepted immediate is decoded unchanged for every transform; the signed field needs the condition of `SignedExact`. |
| `ArmTakenBack.DecodedImm` | src/generated/arm/asmkit_gen_arm_encode.c:501-622 | Which immediates that the decoder reads are taken back by the encoder, and the field that each is given. |
| `ArmReach.ShiftReach` | src/generated/arm/asmkit_gen_arm_encode.c:501-622 | A vector shift right takes exactly 1 up to the lane width, for lanes of 8 to 64 bits. |
| `BranchBits.LoadOfStore` | src/generated/arm/asmkit_gen_arm_encode.c:424-474 | The J1/J2 conversions of the encoder and the decoder are one and the same involution (section A8.8.18, encoding T4, of ARM DDI 0406C). |
| `BranchBits.LowBitAside` | src/generated/arm/asmkit_gen_arm_decode.c:1623-1655 | Clearing bit 0 commutes with the J1/J2 conversion. |
| `ArmPcRel.AddressIrrelevant` | src/generated/arm/asmkit_gen_arm_decode.c:1566-1681 | Whether a PC-relative operand decodes does not depend on the address, nor does its displacement. |
| `ArmPcRel.TargetOrigin` | src/generated/arm/asmkit_gen_arm_decode.c:1566-1681 | The decoded displacement leads to the decoded target from the instruction, or from its aligned program counter in the four forms that align it. |
| `ArmPcRel.BranchTargets` | src/generated/arm/asmkit_gen_arm_decode.c:2283-2370 | The record decoder and the branch cases of the decoder read the same target from an A32 and a two-byte Thumb branch. |
| `ArmPcRel.DispRoundTrip` | src/generated/arm/asmkit_gen_arm_encode.c:369-499 | Every accepted displacement, of every A32 and Thumb form and every mask, is decoded exactly under a nonzero mask, and comes back unchanged exactly for the displacements that `Keeps` names. |
| `ArmPcRel.ArmPcRelRoundTrip` | src/generated/arm/asmkit_gen_arm_encode.c:369-499 | An accepted target decodes at the same address to the same target modulo 2^64 exactly under that condition. |
| `ArmPcRel.AdrBack` | src/generated/arm/asmkit_gen_arm_encode.c:332-367 | What every accepted A32 ADR displacement reads back as. |
| `ArmPcRel.AdrModulo` | src/generated/arm/asmkit_gen_arm_encode.c:332-367 | Modulo 2^32 every accepted A32 ADR displacement comes back, except the least one. |
| `ArmPcRel.BranchCounterexample` | src/generated/arm/asmkit_gen_arm_encode.c:424-474 | With mask 0xfffffe a branch over two bytes is accepted and read as a branch over none. |
| `ArmPcRel.AdrCounterexample` | src/generated/arm/asmkit_gen_arm_encode.c:332-367 | ADR to 2^31 bytes below is accepted and read as ADR to itself. |
| `ArmReach.DispReach` | src/generated/arm/asmkit_gen_arm_encode.c:369-499 | Under the masks of the tables each form expresses exactly its displacements: 32 MB, 16 MB, 1 MB, the width of a two-byte field, 126, 1020 or 4095 bytes, in its units. |
| `ArmTakenBack.DecodedDisp` | src/generated/arm/asmkit_gen_arm_encode.c:332-499 | Which displacements that the decoder reads are taken back by the encoder, and the field that each is given. |
| `ArmTakenBack.DecodedTarget` | src/generated/arm/asmkit_gen_arm_encode.c:324-330 | A decoded operand stands for its own target exactly when the target is not 0, or the form counts from the instruction. |
| `ArmTakenBack.TargetFieldBack` | src/generated/arm/asmkit_gen_arm_encode.c:369-499 | A decoded PC-relative operand is encoded to the field that it was read from exactly under those two conditions. |
| `ArmTakenBack.ZeroTargetCounterexample` | src/generated/arm/asmkit_gen_arm_encode.c:324-330 | A literal load at address 2 that reads address 0 is encoded again as another load. |
| `PackedFields.GetPacked` | src/generated/arm/asmkit_gen_arm_encode.c:929-963 | A field packed with others is read back whatever the others hold. |
| `ArmMemory.BaseDispReads` | src/generated/arm/asmkit_gen_arm_encode.c:929-963 | The base-and-displacement word holds base, scaled magnitude and sign where the layout puts them. |
| `ArmMemory.Mode3Back` | src/generated/arm/asmkit_gen_arm_decode.c:1205-1236 | An addressing mode 3 operand comes back from its offset fields. |
| `ArmMemory.MveBack` | src/generated/arm/asmkit_gen_arm_encode.c:1068-1119 | The MVE address form comes back exactly under its condition: the register form must be meant, registers must be core registers, and nothing beyond the form be asked for. |
| `ArmMemory.MemRoundTrip` | src/generated/arm/asmkit_gen_arm_encode.c:1355-1420 | For every memory form an accepted operand decodes to the same base, index, displacement, scale, direction, shift, extension, flags, widths (if given) and NEON alignment exactly when its registers are ones that the form can express, it asks for nothing that the form has no bits for (`IsExpressed`), and `KeepsPlace` holds, which is a condition for three forms only. |
| `ArmMemoryAgain.DecodedIsTaken` | src/generated/arm/asmkit_gen_arm_encode.c:1355-1420 | Every memory operand that the decoder reads is taken back by the encoder, but for the fields that `TakenBack` names in four forms, and is packed to the bits of its field that count, with the add bit of a zero set. |
| `ArmMemoryAgain.ExactComesBack` | src/generated/arm/asmkit_gen_arm_encode.c:1355-1420 | The field itself comes back exactly when it has no other bits and does not subtract a zero. |
| `ArmMemoryAgain.ExpressedIsAccepted` | src/generated/arm/asmkit_gen_arm_encode.c:1355-1420 | An operand that some field is read as, with or without its widths, is accepted under the same condition: each form takes its whole displacement range. |
| `ArmMemory.DecodedIsProper` | src/generated/arm/asmkit_gen_arm_decode.c:1334-1399 | Whatever the field, the decoder names core registers, or quad registers where the form takes them. |
| `ArmMemory.DecodedModifiers` | src/generated/arm/asmkit_gen_arm_decode.c:1334-1399 | Whatever the field, the decoder sets no direction, shift, alignment or width that the form does not express. |
| `ArmMemory.MveCounterexample` | src/generated/arm/asmkit_gen_arm_encode.c:1068-1119 | A negative displacement with mask 0x7f is accepted and read back as a register offset. |
| `ArmMemory.NegImm8Counterexample` | src/generated/arm/asmkit_gen_arm_encode.c:1382-1386 | [r0, #-4] in the 8-bit negative form without mask bit 0x100 is accepted and read back as another address. |
| `ArmMemory.BaseIsCore` | src/generated/arm/asmkit_gen_arm_encode.c:908-927 | A base-only operand comes back, for every mask, exactly when the mask is 0x07 or 0x0f, its register is a core register, and nothing beyond it is asked for. |
| `ArmMemory.CoreCounterexample` | src/generated/arm/asmkit_gen_arm_encode.c:770-787 | [s0, #4] is accepted by the twelve-bit form and read back as [r0, #4]. |
| `ArmMemory.ModifierCounterexample` | src/generated/arm/asmkit_gen_arm_encode.c:986-1026 | [r0, -r1, lsr #3] is accepted by the Thumb register forms and read back as [r0, r1]. |
| `ArmMemory.AlignmentCounterexample` | src/generated/arm/asmkit_gen_arm_encode.c:1028-1051 | A NEON address with alignment 64 is accepted and read back without alignment. |
| `ByteOrder.Store16` | src/core/asmkit_bounds.c:74-78 | Two bytes are written little-endian and nothing else changes. |
| `ByteOrder.Store32` | src/core/asmkit_bounds.c:80-86 | Four bytes are written little-endian and nothing else changes. |
| `ByteOrder.LoadOfBytes16` | src/core/asmkit_bounds.c:56-59 | A stored halfword is loaded back. |
| `ByteOrder.LoadOfBytes32` | src/core/asmkit_bounds.c:61-67 | A stored word is loaded back. |
| `ByteOrder.LoadIsSum` | src/core/asmkit_bounds.c:56-67 | A load is the sum of its bytes, the first one the lowest. |
| `ByteOrder.BytesOfLoad32` | src/core/asmkit_bounds.c:61-86 | Loading and storing gives the same four bytes. |
| `EmitRel.EmitA64` | src/generated/aarch64/asmkit_gen_aarch64_encode.c:945-973 | AArch64 B/BL: the status tells range from capacity, the written word decodes to a branch or call to the target, and no other byte changes. |
| `EmitRel.EmitA32` | src/generated/arm/asmkit_gen_arm_encode.c:1728-1770 | The same for A32 B/BL. |
| `EmitRel.EmitThumb` | src/generated/arm/asmkit_gen_arm_encode.c:1728-1770 | The same for the two-byte Thumb B; calls are refused. |
| `EmitRel.A64RoundTrip` | src/generated/aarch64/asmkit_gen_aarch64_decode.c:1392-1406 | A word built for a reachable target decodes to that target. |
| `EmitRel.A32RoundTrip` | src/generated/arm/asmkit_gen_arm_decode.c:2293-2302 | The same for A32. |
| `EmitRel.ThumbRoundTrip` | src/generated/arm/asmkit_gen_arm_decode.c:2362-2370 | The same for Thumb. |
| `Features.FeatureSet.Clear` | src/core/asmkit_engine.c:87-98 | The set becomes empty. |
| `Features.FeatureSet.Fill` | src/core/asmkit_engine.c:100-111 | Every feature id is in the set. |
| `Features.FeatureSet.Enable` | src/core/asmkit_engine.c:113-123 | One id is added; ids out of range are refused and change nothing. |
| `Features.FeatureSet.Disable` | src/core/asmkit_engine.c:125-135 | One id is removed; ids out of range are refused and change nothing. |
| `Features.FeatureSet.Contains` | src/core/asmkit_engine.c:137-148 | Membership. |
| `Features.SupportsLoop` | src/generated/arm/asmkit_gen_arm_decode.c:1858-1868 | The loop over feature words tests each word of the requirement. |
| `Features.SupportsIsInclusion` | src/core/asmkit_engine.c:61-85 | The word tests together are set inclusion of feature ids. |
| `Features.InitialisedFeatures` | src/core/asmkit_engine.c:284-318 | An initialised engine has all features, or exactly the listed ones when the configuration lists some explicitly. |
| `Features.SupportGrows` | src/core/asmkit_engine.c:66-85 | Support is monotone in the enabled features. |
| `Features.AllSupportsAll` | src/core/asmkit_engine.c:66-85 | An engine with all features supports every requirement. |
| `Block.DecodeBlockUntil` | src/decode/asmkit_decode.c:113-160 | The loop returns the specified status, count (at most 32), total and instructions, for every capacity. |
| `Block.BlockMeaning` | src/decode/asmkit_decode.c:133-159 | The loop succeeds with some instructions exactly when each is what the decoder makes of the code behind the earlier ones at the address behind them, they reach the wanted size but not without the last one, fit the capacity, and have no terminator before the end. |
| `Block.BlockAddresses` | src/decode/asmkit_decode.c:133-159 | Instruction k of a block has the start address plus the sizes of those before it, wrapped to 64 bits. |
| `Block.StoppedMeaning` | src/decode/asmkit_decode.c:133-159 | A failing loop returns the instructions up to the one that stopped it, and the reason: the decoder's status, a size that does not fit, or too few bytes. |
| `Block.SameBlock` | src/decode/asmkit_decode.c:133-159 | Asking for any size between the original one and the returned total gives the same block. |
| `Block.LargerBlock` | src/decode/asmkit_decode.c:133-159 | Asking for more only adds instructions at the end. |
| `Relocate.JumpClobbers` | src/encode/asmkit_emit.c:3-29 | An emitted jump clobbers only allowed registers, and none when clobberless emission is preferred. |
| `Relocate.RelocateInsts` | src/relocate/asmkit_relocate.c:163-192 | The instruction loop stops with the first failure, or lays out every emission, accumulates masks and hazards, and leaves the rest of the buffer alone. |
| `Relocate.RelocatePrologue` | src/relocate/asmkit_relocate.c:118-217 | The relocator ends with the specified status and, on success, the specified report and buffer. |
| `Relocate.OffsetsTile` | src/relocate/asmkit_relocate.c:177-212 | The reported offsets are prefix sums that tile [0, jump_back_offset), the jump back follows, and relocated_size fits the buffer. |
| `Relocate.RecordsOfCode` | src/relocate/asmkit_relocate.c:118-192 | Record k names the original address plus the sizes of the records before it; the overwritten bytes reach the wanted minimum, not without the last record, and lie inside the code. |
| `Relocate.BytesKept` | src/relocate/asmkit_relocate.c:163-196 | No instruction's bytes are overwritten later and nothing beyond relocated_size is written. |
| `Relocate.ClobbersReported` | src/relocate/asmkit_relocate.c:182-215 | The reported clobber masks are bit for bit the union of everything emitted, jump back included, and a subset of what was allowed. |
| `Relocate.NoFailure` | src/relocate/asmkit_relocate.c:163-192 | The instruction loop succeeds exactly when every instruction is analysed, emitted and clobbers only what is allowed. |
| `Detour.PlanDetour` | src/relocate/asmkit_relocate.c:32-116 | The planner ends with the status of the first obstacle, or the specified plan. |
| `Detour.RefusalMeaning` | src/relocate/asmkit_relocate.c:99-113 | No obstacle is met exactly when every instruction of the block can be planned for. |
| `Detour.PlanSucceeds` | src/relocate/asmkit_relocate.c:65-116 | Planning succeeds exactly when the patch and the jump back are possible in the mode and the code begins with a block of the wanted size whose instructions can all be planned for. |
| `Detour.PlanCoversPatch` | src/relocate/asmkit_relocate.c:65-87 | The overwritten bytes hold the patch and the caller's own minimum, lie inside the code, and would not suffice without the last instruction. |
| `Detour.PlannedBits` | src/relocate/asmkit_relocate.c:94-113 | Bit by bit the plan announces the clobbers of the patch, the jump back and the instructions, and the hazards of the instructions, and no others. |
| `Detour.SameBlockAsPlanned` | src/relocate/asmkit_relocate.c:80-158 | Relocating with the planned overwrite size decodes the block that was planned for. |
| `Detour.PlanBoundsRelocation` | src/relocate/asmkit_relocate.c:98-114 | Carrying out a plan overwrites the planned bytes and its relocated_size is at most trampoline_min_size, with the planned hazards. |
| `Detour.PlanIsTight` | src/relocate/asmkit_relocate.c:98-114 | The planned trampoline is used up exactly when every instruction takes its reserve and the jump back its bound. |
| `Detour.PlanSuffices` | src/relocate/asmkit_relocate.c:98-114 | A trampoline of the planned size never fails for want of room. |
| `Detour.PlanCoversClobbers` | src/relocate/asmkit_relocate.c:98-114 | On any target the reported clobbers stay inside the planned ones exactly when every emission and the jump back keep to them. |
| `A64Detour.InstClobbers` | src/target/aarch64/asmkit_aarch64_overlay.c:412-547 | A relocated instruction clobbers X16 exactly when it has to be expanded, and nothing else ever. |
| `A64Detour.PlannedClobbers` | src/target/aarch64/asmkit_aarch64_overlay.c:359-397 | An AArch64 plan announces X16 exactly when its branch mode is not a clobberless one. |
| `A64Detour.DetourClobbers` | src/relocate/asmkit_relocate.c:182-215 | Carrying out an AArch64 plan clobbers no more than it announced exactly when the mode is not clobberless or no instruction has to be expanded. |
| `A64Detour.ClobberCounterexample` | src/target/aarch64/asmkit_aarch64_overlay.c:412-446 | A clobberless plan for B.AL to itself, moved 2 MB, is carried out successfully and reports X16, which it did not announce. |
| `A64Relocate.ReencodedWord` | src/target/aarch64/asmkit_aarch64_overlay.c:480-547 | A re-encoded instruction keeps its form and all fields but the immediate, which holds the new displacement. |
| `A64FormTests.FormTests` | src/target/aarch64/asmkit_aarch64_overlay.c:186-224 | The form that the relocator and the semantics take a word for is the one whose mask test it passes; no word passes two. |
| `A64Reach.ReachIsRange` | src/target/aarch64/asmkit_aarch64_overlay.c:448-478 | The relocator's range check passes exactly when some word with the same opcode and other operands reaches the target from the new address. |
| `A64Reach.RelocationSucceeds` | src/target/aarch64/asmkit_aarch64_overlay.c:480-547 | When a word can be moved and in how many bytes: one word in reach, four or five words for branches out of reach, and a refusal for address forms. |
| `A64Reach.OperandTarget` | src/generated/aarch64/asmkit_gen_aarch64_decode.c:648-676 | The decoder's PC-relative operand has the target that the relocator computes from the word. |
| `A64FormTests.ConditionMeaning` | src/target/aarch64/asmkit_aarch64_overlay.c:412-425 | When a conditional branch word is taken, by its condition code or its sense bit (sections C1.2.4 and C6.2 of ARM DDI 0487). |
| `A64Relocate.SameTarget` | src/target/aarch64/asmkit_aarch64_overlay.c:480-547 | A re-encoded instruction refers to the same address from its new place. |
| `A64Relocate.SkipMeaning` | src/target/aarch64/asmkit_aarch64_overlay.c:412-425 | The inverted branch jumps over the five words of the expansion and tests the opposite, except that the opposite of "always" is still "always". |
| `A64Relocate.AbsoluteRuns` | src/target/aarch64/asmkit_aarch64_overlay.c:106-118 | The literal load and register branch leave for the target; a call returns into its own literal. |
| `A64Relocate.RelocationMeaning` | src/target/aarch64/asmkit_aarch64_overlay.c:480-547 | Relocated code has the exit and effects of the instruction in every processor state exactly when it is no out-of-range call and no out-of-reach "always" conditional branch. |
| `A64Relocate.FarCallCounterexample` | src/target/aarch64/asmkit_aarch64_overlay.c:106-143 | BL to itself, moved 2^30 bytes, is relocated successfully and no longer returns behind itself. |
| `A64Relocate.FarAlwaysCounterexample` | src/target/aarch64/asmkit_aarch64_overlay.c:412-446 | B.AL to itself, moved 2^30 bytes, is relocated successfully and falls through. |
| `A64Target.KeepsContracts` | src/target/aarch64/asmkit_aarch64_overlay.c:43-104 | The AArch64 operations stay in their space and never take more than the analysis and the jump-back bound announce; that much room is enough. |
| `A64Target.JumpMeans` | src/target/aarch64/asmkit_aarch64_overlay.c:120-149 | An emitted jump leaves for its target in every processor state. |
| `A64Jumps.JumpSucceeds` | src/target/aarch64/asmkit_aarch64_overlay.c:120-149 | A jump is emitted exactly when a direct branch reaches and the mode permits one, in four bytes, or the mode and the caller permit one through X16, in sixteen. |
| `A64Jumps.PatchIsJump` | src/target/aarch64/asmkit_aarch64_overlay.c:359-381 | The patch size and its clobbers are those of the jump that the mode emits, and 0 exactly when there is none. |
| `A64Jumps.JumpBackIsBound` | src/target/aarch64/asmkit_aarch64_overlay.c:383-402 | The bound for the jump back is the least one: far jumps take it, or are impossible and the plan demands a near island. |
| `A64Jumps.InstRoom` | src/target/aarch64/asmkit_aarch64_overlay.c:43-104 | A PC-relative instruction takes four bytes where it still reaches and otherwise exactly the room its analysis announces. |
| `A64Trampoline.WordsOfFlatten` | src/target/aarch64/asmkit_aarch64_overlay.c:106-118 | Stored words are read back. |
| `A64Trampoline.Unfaithful` | src/target/aarch64/asmkit_aarch64_overlay.c:427-446 | A relocation that is not faithful returns into its own code, or falls through where the instruction left. |
| `A64Trampoline.OneWord` | src/target/aarch64/asmkit_aarch64_overlay.c:480-547 | One relocated instruction continues the run as the original did, exactly for faithful relocations. |
| `A64Trampoline.TrampolineMeaning` | src/relocate/asmkit_relocate.c:118-217 | The whole relocated prologue, executed from the caller's buffer, does what the overwritten words of the code did at their own addresses and ends at the continuation, exactly when every instruction the run gets to was relocated faithfully; the records name those addresses. |
| `A64Trampoline.LoopingMeaning` | src/relocate/asmkit_relocate.c:118-217 | If every branch of the overwritten words back to one of them is taken to run them again, a faithful trampoline does what they did exactly when the run does not branch back to them. |
| `A64Trampoline.LoopCounterexample` | src/target/aarch64/asmkit_aarch64_overlay.c:480-547 | A branch to itself, whatever follows it, leaves for the address that is overwritten. |
| `A64Trampoline.SelfBranch` | src/target/aarch64/asmkit_aarch64_overlay.c:120-149 | There is such a branch at every address. |
| `Relocate.EmissionEach` | src/relocate/asmkit_relocate.c:166-188 | Each record names the address, offset and bytes of its instruction's emission. |
| `Relocate.JumpStored` | src/relocate/asmkit_relocate.c:194-212 | The jump back is stored where the report says. |
| `ItState.ControlAnalysis.AddSuccessor` | src/analysis/asmkit_analysis.c:495-505 | A successor is appended, or dropped when the list is full. |
| `ItState.AnalyzeWithState` | src/analysis/asmkit_analysis.c:538-621 | The analysis accepts no state, or one of the instruction's or the default mode that is empty or an IT state of a Thumb instruction; it lists a target first for every call and branch, with the mode of bit 0 for BX and BLX targets, a fallthrough exactly for calls that return, conditional branches and plain instructions, and the predicate in force. |
| `ItState.ListedMeaning` | src/analysis/asmkit_analysis.c:577-613 | The same of the specified successors, in words of the instruction's own analysis. |
| `ItState.OwnPredicate` | src/analysis/asmkit_analysis.c:507-536 | Outside an IT block the predicate is the condition in the encoding, of A32 instructions and Thumb conditional branches. |
| `ItState.StepConsistent` | src/analysis/asmkit_analysis.c:577-589 | From a consistent state the next state is consistent exactly when the instruction is not a Thumb IT with an empty mask, and then every successor is. |
| `ItState.RunConsistent` | src/analysis/asmkit_analysis.c:577-589 | In every run, along every branch, the state is an IT state exactly while its low nibble is not zero. |
| `ItState.StatesOfBlock` | src/analysis/asmkit_analysis.c:487-493 | The state counts an IT block down in 4 - ctz(mask) steps and carries each instruction's condition on top (section A2.5.2 of ARM DDI 0406C). |
| `ItState.ItBlock` | src/analysis/asmkit_analysis.c:507-536 | After an IT with condition c and mask m exactly 4 - ctz(m) instructions reached by falling through are predicated, the first on c, the j-th after it on (c & 0xE) \| m[4-j], branches, calls and returns included; then the state is empty. |
| `ItState.FallthroughState` | src/analysis/asmkit_analysis.c:577-589 | A step that falls through, of whatever instruction, ends in the state that the analysis computes. |
| `ItState.LettersMatch` | src/text/asmkit_text.c:400-407 | The printed t/e letters are as many as the block has further instructions and agree with their conditions. |
| `Text.Builder.constructor` | src/text/asmkit_text.c:470-477 | A new builder has nothing appended. |
| `Text.Builder.AppendChar` | src/text/asmkit_text.c:12-19 | One more character counts as required and is stored while room for the NUL remains; earlier text and cells past the capacity stay. |
| `Text.Builder.AppendString` | src/text/asmkit_text.c:21-33 | The same for a string. |
| `Text.Builder.AppendUnsignedDec` | src/text/asmkit_text.c:69-84 | The decimal digits of every 64-bit number are appended; the local array suffices. |
| `Text.Builder.AppendSignedDec` | src/text/asmkit_text.c:86-97 | Sign and digits of every signed 64-bit number, INT64_MIN included. |
| `Text.Builder.AppendHex` | src/text/asmkit_text.c:99-116 | "0x" and the hexadecimal digits. |
| `Text.Builder.AppendItMnemonic` | src/text/asmkit_text.c:362-411 | "it", the letters, a space and the condition name; nothing when the mask is empty or the condition has no name. |
| `Text.Builder.Finish` | src/text/asmkit_text.c:118-132 | The buffer holds a NUL-terminated prefix of everything appended; status, required and written are those of `OutcomeOf`. |
| `Text.Copy` | src/text/asmkit_text.c:134-144 | A whole formatting run has the outcome of `OutcomeOf` and touches nothing past the capacity. |
| `Text.RetrySucceeds` | src/text/asmkit_text.c:118-132 | Formatting succeeds exactly when the buffer has at least required + 1 characters, whichever call reported `required`, and exactly then shows the whole text. |
| `Text.LargerShowsMore` | src/text/asmkit_text.c:12-19 | A larger buffer shows an extension of what a smaller one shows. |
| `Text.DigitsReadBack` | src/text/asmkit_text.c:69-116 | The printed digits, decimal or hexadecimal, read back as the number, without superfluous leading zero. |
| `Text.DigitsFit` | src/text/asmkit_text.c:71-79 | Twenty decimal and sixteen hexadecimal digits are enough for 64 bits. |
| `Text.SignedReadsBack` | src/text/asmkit_text.c:86-97 | The printed signed number reads back as that number. |

## Left out

- The generated tables: records, pieces, descriptors and indexes are parameters under the predicates `WellFormed`, `ValidTables`, `Mirrors` and `Wired`; the register tables are modelled as they are.
- x86, WebAssembly and BPF, and the ARM target operations: not part of this model; `Relocate` and `Detour` take any target that keeps the contracts `ValidTarget`, `HonoursBounds` and `NeedsNoMore`.
- `asmkit_analyze_inst_values`, compare relations and memory effects: shallow facts per mnemonic.
- Mnemonic and register name tables, metadata lookups and the operand printer; of the text printers only the builder, the numbers and the IT mnemonic are modelled.
- The inline special cases of the AArch64 decoder other than B and BL, and the folding of memory operands after decoding.
- The A32/Thumb instructions that are decoded without tables, other than B and BL.
- Operand metadata (`operand_index`, flags, access) that is patched in after decoding.
- Null-pointer checks and architecture or mode checks in front of the loops; a missing text buffer is modelled.
- Overflow of 32-bit sizes, counts and offsets: they are natural numbers here.
- Clobber masks reported with a failure status; reports are specified on success only.
- Hazard bits of the AArch64 analysis: they are 0 in `A64Target`, and arbitrary in `Relocate` and `Detour`.
- The rewriting of condition 15 to 14 in a decoded Thumb IT instruction; the analysis and the printer are modelled for all sixteen conditions.
- `asmkit_emit_padding` and `asmkit_plan_control_transfer`: they would only add easy members.
- ArmPacking.OperandBack: fields that a kind has no use for are not compared (the register and absolute target of a memory operand, its immediate outside NEON, the displacement beside the absolute target of a PC-relative operand); a width left open by the caller fits every width.
- A64Packing.OperandRoundTrip: the same.
- ArmEndToEnd.EncodedIsFound: a record that the order prefers or blocks may win, which depends on the concrete table.
- A64EndToEnd.EncodedIsFound: a record that the order prefers may win, which depends on the concrete table.
- Block.DecodeBlockUntil: does not say what the caller's array holds beyond the returned count.
- A64Relocate.RelocationMeaning: addresses are multiples of four, as AArch64 requires of instructions.
- A64Trampoline.TrampolineMeaning: a branch into the overwritten bytes leaves for its original address in both runs (`A64Trampoline.LoopingMeaning` takes it as running them again), and X16 is not part of the compared state; the relocator reports it as clobbered.
- Aliasing between the code that is decoded and the buffer that is written.
