/** The AArch64 part of instruction/static_insn_filter.cc. */
module InsnFilter {
  import opened Bits

  datatype BitMatcher = BitMatcher(mask: nat, bits: nat) {
    predicate Matches(insn: nat) {
      And(insn, mask) == bits
    }
  }

  datatype RequiredBits = RequiredBits(pattern: BitMatcher, expected: BitMatcher) {
    predicate ViolatedBy(insn: nat) {
      pattern.Matches(insn) && !expected.Matches(insn)
    }
  }

  datatype FilterConfig = FilterConfig(sveAllowed: bool, loadStoreAllowed: bool)

  // Instructions that would make the runner unreliable.
  const UNRELIABLE_INSTRUCTIONS: seq<BitMatcher> :=
    [
      BitMatcher(0x3FC0_0000, 0x0800_0000),
      BitMatcher(0x3B20_0400, 0x3820_0400),
      BitMatcher(0xFE00_0800, 0xD600_0800),
      BitMatcher(0xFFFF_FD1F, 0xD503_211F),
      BitMatcher(0x5FE1_0000, 0x5AC1_0000),
      BitMatcher(0xFFFF_FFFF, 0xD503_205F),
      BitMatcher(0xFFFF_FFFF, 0xD503_207F),
      BitMatcher(0xFFFF_F000, 0xD503_1000)
    ]

  // Unallocated or always faulting parts of the instruction space.
  const UNALLOCATED_INSTRUCTIONS: seq<BitMatcher> :=
    [
      BitMatcher(0x9E00_0000, 0x0000_0000),
      BitMatcher(0x1E00_0000, 0x0200_0000),
      BitMatcher(0x1E00_0000, 0x0600_0000),
      BitMatcher(0x3F20_EC00, 0x3820_E000),
      BitMatcher(0x3FA0_FC00, 0x3820_C000),
      BitMatcher(0x3F20_0C00, 0x3C20_0000)
    ]

  // SVE loads that do not fault, and 32-bit gathers that fault on the first element only.
  const GATHER32_INSTRUCTIONS: seq<BitMatcher> :=
    [
      BitMatcher(0xFE10_E000, 0xA410_A000),
      BitMatcher(0xFFA0_A000, 0x84A0_2000),
      BitMatcher(0xFFA0_A000, 0x8520_2000),
      BitMatcher(0xFFA0_A000, 0x8400_2000),
      BitMatcher(0xFFA0_A000, 0x8480_2000),
      BitMatcher(0xFFA0_A000, 0x8500_2000),
      BitMatcher(0xFFE0_A000, 0x8420_A000),
      BitMatcher(0xFFE0_A000, 0x84A0_A000),
      BitMatcher(0xFFE0_A000, 0x8520_A000)
    ]

  // SVE contiguous and 64-bit gather loads that fault on the first element only.
  const GATHER64_INSTRUCTIONS: seq<BitMatcher> :=
    [
      BitMatcher(0xFE00_E000, 0xA400_6000),
      BitMatcher(0xFFE0_A000, 0xC4E0_A000),
      BitMatcher(0xFFE0_A000, 0xC560_A000),
      BitMatcher(0xFFE0_A000, 0xC5E0_A000),
      BitMatcher(0xFFA0_A000, 0xC4A0_2000),
      BitMatcher(0xFFA0_A000, 0xC520_2000),
      BitMatcher(0xFFA0_A000, 0xC5A0_2000),
      BitMatcher(0xFE60_A000, 0xC420_A000),
      BitMatcher(0xFE60_A000, 0xC440_A000),
      BitMatcher(0xFE20_A000, 0xC400_2000)
    ]

  // Encoding rules for system instructions, loads and stores.
  const REQUIRED_SYSTEM_AND_MEMORY_BITS: seq<RequiredBits> :=
    [
      RequiredBits(BitMatcher(0xFF00_0000, 0xD500_0000), BitMatcher(0x00C0_0000, 0x0000_0000)),
      RequiredBits(BitMatcher(0xBF00_0000, 0x0C00_0000), BitMatcher(0x0020_0000, 0x0000_0000)),
      RequiredBits(BitMatcher(0xBE80_0000, 0x0C00_0000), BitMatcher(0x001F_0000, 0x0000_0000)),
      RequiredBits(BitMatcher(0xBA00_0000, 0x8800_0000), BitMatcher(0x0400_0000, 0x0000_0000)),
      RequiredBits(BitMatcher(0x3FA0_0000, 0x08A0_0000), BitMatcher(0x0000_7C00, 0x0000_7C00))
    ]

  // Encoding rules for data processing.
  const REQUIRED_DATA_PROCESSING_BITS: seq<RequiredBits> :=
    [
      RequiredBits(BitMatcher(0x5FE0_0000, 0x5AC0_0000), BitMatcher(0x201E_8000, 0x0000_0000)),
      RequiredBits(BitMatcher(0x7FFF_0000, 0x5AC0_0000), BitMatcher(0x0000_6000, 0x0000_0000)),
      RequiredBits(BitMatcher(0x1F20_0000, 0x0B20_0000), BitMatcher(0x00C0_0000, 0x0000_0000)),
      RequiredBits(BitMatcher(0x5F20_0C00, 0x1E20_0800), BitMatcher(0xA000_0000, 0x0000_0000)),
      RequiredBits(BitMatcher(0x5F00_0000, 0x1F00_0000), BitMatcher(0xA000_0000, 0x0000_0000)),
      RequiredBits(BitMatcher(0x5F20_1C00, 0x1E20_1000), BitMatcher(0xA000_03E0, 0x0000_0000))
    ]

  const SVE_INSTRUCTION := BitMatcher(0x1E00_0000, 0x0400_0000)
  const SYSREG_INSTRUCTION := BitMatcher(0xFFD0_0000, 0xD510_0000)
  const LOAD_STORE_INSTRUCTION := BitMatcher(0x0A00_0000, 0x0800_0000)
  const SVE_MEMORY_INSTRUCTION := BitMatcher(0x9E00_0000, 0x8400_0000)
  const SME_MEMORY_INSTRUCTION := BitMatcher(0xFE00_0000, 0xE000_0000)

  const SYSREG_MASK: nat := 0x001F_FFE0
  const ALLOWED_SYSREGS: seq<nat> := [0x001B_4200, 0x001B_4400, 0x001B_4420, 0x001B_D040, 0x001B_D060]

  predicate IsLoadStore(insn: nat) {
    LOAD_STORE_INSTRUCTION.Matches(insn) || SME_MEMORY_INSTRUCTION.Matches(insn) || SVE_MEMORY_INSTRUCTION.Matches(insn)
  }

  predicate NoneMatches(table: seq<BitMatcher>, insn: nat) {
    forall m <- table :: !m.Matches(insn)
  }

  predicate NoneViolated(table: seq<RequiredBits>, insn: nat) {
    forall q <- table :: !q.ViolatedBy(insn)
  }

  predicate NotBanned(insn: nat) {
    && NoneMatches(UNRELIABLE_INSTRUCTIONS, insn) && NoneMatches(UNALLOCATED_INSTRUCTIONS, insn)
    && NoneMatches(GATHER32_INSTRUCTIONS, insn) && NoneMatches(GATHER64_INSTRUCTIONS, insn)
  }

  predicate MeetsRequirements(insn: nat) {
    NoneViolated(REQUIRED_SYSTEM_AND_MEMORY_BITS, insn) && NoneViolated(REQUIRED_DATA_PROCESSING_BITS, insn)
  }

  predicate InstructionIsOk(insn: nat, config: FilterConfig) {
    && NotBanned(insn)
    && (config.loadStoreAllowed || !IsLoadStore(insn))
    && (config.sveAllowed || !SVE_INSTRUCTION.Matches(insn))
    && MeetsRequirements(insn)
    && (SYSREG_INSTRUCTION.Matches(insn) ==> And(insn, SYSREG_MASK) in ALLOWED_SYSREGS)
  }

  // Bit `i` of a word, as a quotient by the value of that bit.
  function BitOf(x: nat, value: nat): nat
    requires value > 0
  {
    x / value % 2
  }

  const BIT26: nat := 0x0400_0000
  const BIT27: nat := 0x0800_0000
  const BIT28: nat := 0x1000_0000
  const BIT30: nat := 0x4000_0000
  const BIT31: nat := 0x8000_0000

  // Bits 28 to 26 of the branch, exception and system group, without the register and system forms.
  predicate InBranchGroup(insn: nat) {
    && BitOf(insn, BIT28) == 1 && BitOf(insn, BIT27) == 0 && BitOf(insn, BIT26) == 1
    && (BitOf(insn, BIT31) == 0 || BitOf(insn, BIT30) == 0)
  }

  // A bit that the matcher fixes differently from every word of the group.
  predicate OutsideBranchGroup(m: BitMatcher) {
    || (BitOf(m.mask, BIT28) == 1 && BitOf(m.bits, BIT28) == 0)
    || (BitOf(m.mask, BIT27) == 1 && BitOf(m.bits, BIT27) == 1)
    || (BitOf(m.mask, BIT26) == 1 && BitOf(m.bits, BIT26) == 0)
    || (BitOf(m.bits, BIT31) == 1 && BitOf(m.bits, BIT30) == 1)
  }

  lemma MatchedBit26(m: BitMatcher, insn: nat)
    requires m.Matches(insn)
    ensures BitOf(m.bits, BIT26) == BitOf(insn, BIT26) * BitOf(m.mask, BIT26)
  {
    BitOfAnd(insn, m.mask, 26);
    Bit26(insn);
    Bit26(m.mask);
    Bit26(m.bits);
  }

  lemma MatchedBit27(m: BitMatcher, insn: nat)
    requires m.Matches(insn)
    ensures BitOf(m.bits, BIT27) == BitOf(insn, BIT27) * BitOf(m.mask, BIT27)
  {
    BitOfAnd(insn, m.mask, 27);
    Bit27(insn);
    Bit27(m.mask);
    Bit27(m.bits);
  }

  lemma MatchedBit28(m: BitMatcher, insn: nat)
    requires m.Matches(insn)
    ensures BitOf(m.bits, BIT28) == BitOf(insn, BIT28) * BitOf(m.mask, BIT28)
  {
    BitOfAnd(insn, m.mask, 28);
    Bit28(insn);
    Bit28(m.mask);
    Bit28(m.bits);
  }

  lemma MatchedBit30(m: BitMatcher, insn: nat)
    requires m.Matches(insn)
    ensures BitOf(m.bits, BIT30) == BitOf(insn, BIT30) * BitOf(m.mask, BIT30)
  {
    BitOfAnd(insn, m.mask, 30);
    Bit30(insn);
    Bit30(m.mask);
    Bit30(m.bits);
  }

  lemma MatchedBit31(m: BitMatcher, insn: nat)
    requires m.Matches(insn)
    ensures BitOf(m.bits, BIT31) == BitOf(insn, BIT31) * BitOf(m.mask, BIT31)
  {
    BitOfAnd(insn, m.mask, 31);
    Bit31(insn);
    Bit31(m.mask);
    Bit31(m.bits);
  }

  lemma GroupNotMatched(m: BitMatcher, insn: nat)
    requires InBranchGroup(insn) && OutsideBranchGroup(m)
    ensures !m.Matches(insn)
  {
    if m.Matches(insn) {
      MatchedBit26(m, insn);
      MatchedBit27(m, insn);
      MatchedBit28(m, insn);
      MatchedBit30(m, insn);
      MatchedBit31(m, insn);
    }
  }

  lemma UnreliableInstructionsOutside()
    ensures forall m <- UNRELIABLE_INSTRUCTIONS :: OutsideBranchGroup(m)
  {
  }

  lemma UnallocatedInstructionsOutside()
    ensures forall m <- UNALLOCATED_INSTRUCTIONS :: OutsideBranchGroup(m)
  {
  }

  lemma Gather32InstructionsOutside()
    ensures forall m <- GATHER32_INSTRUCTIONS :: OutsideBranchGroup(m)
  {
  }

  lemma Gather64InstructionsOutside()
    ensures forall m <- GATHER64_INSTRUCTIONS :: OutsideBranchGroup(m)
  {
  }

  lemma RequiredSystemAndMemoryOutside()
    ensures forall q <- REQUIRED_SYSTEM_AND_MEMORY_BITS :: OutsideBranchGroup(q.pattern)
  {
  }

  lemma RequiredDataProcessingOutside()
    ensures forall q <- REQUIRED_DATA_PROCESSING_BITS :: OutsideBranchGroup(q.pattern)
  {
  }

  lemma TableNotMatched(table: seq<BitMatcher>, insn: nat)
    requires InBranchGroup(insn) && forall m <- table :: OutsideBranchGroup(m)
    ensures NoneMatches(table, insn)
  {
    forall m <- table ensures !m.Matches(insn) { GroupNotMatched(m, insn); }
  }

  lemma TableNotViolated(table: seq<RequiredBits>, insn: nat)
    requires InBranchGroup(insn) && forall q <- table :: OutsideBranchGroup(q.pattern)
    ensures NoneViolated(table, insn)
  {
    forall q <- table ensures !q.ViolatedBy(insn) { GroupNotMatched(q.pattern, insn); }
  }

  lemma BranchGroupNotBanned(insn: nat)
    requires InBranchGroup(insn)
    ensures NotBanned(insn)
  {
    UnreliableInstructionsOutside();
    TableNotMatched(UNRELIABLE_INSTRUCTIONS, insn);
    UnallocatedInstructionsOutside();
    TableNotMatched(UNALLOCATED_INSTRUCTIONS, insn);
    Gather32InstructionsOutside();
    TableNotMatched(GATHER32_INSTRUCTIONS, insn);
    Gather64InstructionsOutside();
    TableNotMatched(GATHER64_INSTRUCTIONS, insn);
  }

  lemma BranchGroupKeepsRequirements(insn: nat)
    requires InBranchGroup(insn)
    ensures MeetsRequirements(insn)
  {
    RequiredSystemAndMemoryOutside();
    TableNotViolated(REQUIRED_SYSTEM_AND_MEMORY_BITS, insn);
    RequiredDataProcessingOutside();
    TableNotViolated(REQUIRED_DATA_PROCESSING_BITS, insn);
  }

  lemma BranchGroupIsNothingElse(insn: nat)
    requires InBranchGroup(insn)
    ensures !IsLoadStore(insn) && !SVE_INSTRUCTION.Matches(insn) && !SYSREG_INSTRUCTION.Matches(insn)
  {
    var others := [SVE_INSTRUCTION, SYSREG_INSTRUCTION, LOAD_STORE_INSTRUCTION,
                   SVE_MEMORY_INSTRUCTION, SME_MEMORY_INSTRUCTION];
    TableNotMatched(others, insn);
    assert !others[0].Matches(insn) && !others[1].Matches(insn) && !others[2].Matches(insn);
    assert !others[3].Matches(insn) && !others[4].Matches(insn);
  }

  // The filter accepts every word of the group, under every configuration.
  lemma BranchGroupIsOk(insn: nat, config: FilterConfig)
    requires InBranchGroup(insn)
    ensures InstructionIsOk(insn, config)
  {
    BranchGroupNotBanned(insn);
    BranchGroupKeepsRequirements(insn);
    BranchGroupIsNothingElse(insn);
  }
}
