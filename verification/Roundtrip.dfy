/** Reading, fixing up and writing a program twice, as the tests of the program editor do
    (fuzzer/program_mutator_fuzz_test.cc). */
module Roundtrip {
  import opened Basics
  import opened Isa
  import opened Layout
  import opened Rng
  import opened Fixup
  import opened Edits
  import opened Parsing
  import opened ProgramEditor
  import opened Reader
  import opened Bits
  import opened AArch64
  import opened InsnFilter

  lemma {:induction false} TotalPrepended(insn: Instruction, rest: seq<Instruction>, k: nat)
    requires k <= |rest|
    ensures OffsetAt([insn] + rest, k + 1) == |insn.encoded| + OffsetAt(rest, k)
  {
    if k > 0 {
      TotalPrepended(insn, rest, k - 1);
    } else {
      assert OffsetAt([insn] + rest, 1) == OffsetAt([insn] + rest, 0) + |insn.encoded|;
    }
  }

  // The decoded instructions are parts of the bytes.
  lemma {:induction false} DecodedFits(arch: Arch, cfg: Config, bytes: seq<Byte>, offset: nat)
    requires Lawful(arch)
    ensures offset <= |bytes| ==> TotalSize(Decoded(arch, cfg, bytes, offset)) <= |bytes| - offset
    ensures offset > |bytes| ==> TotalSize(Decoded(arch, cfg, bytes, offset)) == 0
    decreases |bytes| - offset
  {
    if offset < |bytes| {
      assert DecodesWell(arch, cfg, bytes[offset..]);
      match arch.decode(cfg, bytes[offset..])
      case Rejected(size) =>
        DecodedFits(arch, cfg, bytes, offset + SkipSize(arch, size));
      case Accepted(size, displacement) =>
        DecodedFits(arch, cfg, bytes, offset + size);
        var rest := Decoded(arch, cfg, bytes, offset + size);
        var insn := Instruction(bytes[offset..offset + size], DisplacementInfo(displacement, None), offset);
        TotalPrepended(insn, rest, |rest|);
    }
  }

  lemma ParsedFits(arch: Arch, cfg: Config, bytes: seq<Byte>)
    requires Lawful(arch)
    ensures TotalSize(Parsed(arch, cfg, bytes)) <= |bytes|
  {
    var decoded := Decoded(arch, cfg, bytes, 0);
    DecodedFits(arch, cfg, bytes, 0);
    OffsetsAgree(Parsed(arch, cfg, bytes), decoded, |decoded|);
  }

  // Programs of as many instructions of one size have the same size.
  lemma SameSpan(arch: Arch, a: seq<Instruction>, b: seq<Instruction>)
    requires arch.minSize == arch.maxSize && |a| == |b| && AllFaithful(arch, a) && AllFaithful(arch, b)
    ensures TotalSize(a) == TotalSize(b) == Span(arch, |a|)
  {
    OffsetsSpan(arch, a, |a|);
    OffsetsSpan(arch, b, |b|);
  }

  lemma ReachesNearer(arch: Arch, far: nat, near: nat)
    requires Reaches(arch, far) && near <= far
    ensures Reaches(arch, near)
  {
    forall bytes: seq<Byte>, d: int ensures ReachesBy(arch, near, bytes, d) {
      assert ReachesBy(arch, far, bytes, d);
    }
  }

  // Whatever the bytes and the draws: a program that was read and fixed up is written as bytes that
  // read back strictly, need no fixup, and are written again unchanged.  If all instructions have one
  // size the output is no longer than the input, and if every displacement in an input of that length
  // can be encoded no draw is needed.
  method TwoRoundTrips(arch: Arch, data: seq<Byte>, rng: MutatorRng)
    returns (done: bool, modified: Option<bool>, first: seq<Byte>, second: seq<Byte>)
    requires Lawful(arch) && Reparsable(arch)
    modifies rng
    ensures done ==> modified == Some(false) && first == second && StrictOk(arch, DEFAULT_CONFIG, first)
    ensures done && arch.minSize == arch.maxSize ==> |first| <= |data|
    ensures !done ==> rng.draws == []
    ensures arch.minSize == arch.maxSize && Reaches(arch, |data|) ==> done && rng.draws == old(rng.draws)
  {
    first, second, modified := [], [], None;
    var parsed := Parse(arch, DEFAULT_CONFIG, data, false);
    var program := parsed.value;
    ghost var was := program.instructions;
    ParsedFits(arch, DEFAULT_CONFIG, data);
    if arch.minSize == arch.maxSize && Reaches(arch, |data|) {
      SameSpan(arch, was, was);
      ReachesNearer(arch, |data|, Span(arch, |was|));
    }
    var r, _ := program.FixupEncodedDisplacements(rng);
    if r.None? {
      return false, modified, first, second;
    }
    ghost var now := program.instructions;
    if arch.minSize == arch.maxSize {
      SameSpan(arch, was, now);
    }
    first := program.ToBytes();
    DefaultRoundTrip(arch, was, now);
    modified, second := SecondTrip(arch, now, first, rng);
    done := true;
  }

  method SecondTrip(arch: Arch, ghost now: seq<Instruction>, first: seq<Byte>, rng: MutatorRng)
    returns (modified: Option<bool>, second: seq<Byte>)
    requires Lawful(arch) && StrictOk(arch, DEFAULT_CONFIG, first) && Parsed(arch, DEFAULT_CONFIG, first) == now
    requires first == BytesOf(now, |now|) && LaidOut(now) && AllTargeted(now) && InSync(now)
    modifies rng
    ensures modified == Some(false) && second == first && rng.draws == old(rng.draws)
  {
    var parsed := Parse(arch, DEFAULT_CONFIG, first, true);
    var program := parsed.value;
    var passes;
    modified, passes := program.FixupEncodedDisplacements(rng);
    RelaidLaidOut(now);
    second := program.ToBytes();
  }

  // On AArch64 inputs of up to 32 KiB never need a draw.
  method AArch64RoundTrips(disassembles: nat -> bool, data: seq<Byte>, rng: MutatorRng)
    returns (done: bool, modified: Option<bool>, first: seq<Byte>, second: seq<Byte>)
    requires IgnoresDisplacement(disassembles)
    modifies rng
    ensures done ==> modified == Some(false) && first == second && |first| <= |data|
    ensures done ==> Lawful(Instance(disassembles)) && StrictOk(Instance(disassembles), DEFAULT_CONFIG, first)
    ensures !done ==> rng.draws == [] && |data| > 0x7FFC
  {
    var arch := Instance(disassembles);
    InstanceLawful(disassembles);
    InstanceReparsable(disassembles);
    InstanceReaches(disassembles);
    if |data| <= 0x7FFC {
      ReachesNearer(arch, 0x7FFC, |data|);
    }
    done, modified, first, second := TwoRoundTrips(arch, data, rng);
  }

  // The branch to itself, and the one to the next instruction.
  const SELF: seq<Byte> := [0, 0, 0, 0x14]

  lemma SmallMask()
    ensures And(0x14, 0x7C) == 0x14
  {
    AndPair(0xA, 0x3E, 0, 0);
    AndPair(5, 0x1F, 0, 0);
    AndPair(2, 0xF, 1, 1);
    AndPair(1, 7, 0, 1);
    AndPair(0, 3, 1, 1);
  }

  lemma SelfForm(word: nat, mask: nat)
    requires word == 0x1400_0000 && mask == 0x7C
    ensures And(word, 0x100_0000 * mask) == word
  {
    SmallMask();
    AndTop(word, mask);
  }

  lemma SelfIsForm(word: nat)
    requires word == 0x1400_0000
    ensures FormOf(word) == Some(B_FORM)
  {
    SelfForm(word, 0x7C);
    assert B_FORM.matcher.Matches(word);
  }

  lemma SelfField(word: nat)
    requires word == 0x1400_0000
    ensures ExtractDisplacement(word, B_FORM) == 0
  {
    ExtractIsSignedField(word, B_FORM);
    assert word == 5 * B_FORM.span;
  }

  lemma SelfIsBranch()
    ensures Displacement(SELF) == Some(0) && WordOf(SELF) == 0x1400_0000
  {
    SelfIsForm(WordOf(SELF));
    SelfField(WordOf(SELF));
  }

  function Next(): seq<Byte> {
    Reencode(SELF, 4)
  }

  lemma ExampleBranches(disassembles: nat -> bool, cfg: Config)
    requires IgnoresDisplacement(disassembles) && disassembles(0x1400_0000) && cfg.fixupLimit == 8
    ensures Displacement(SELF) == Some(0) && Displacement(Next()) == Some(4) && |Next()| == 4
    ensures Whole(Instance(disassembles), cfg, SELF) && Whole(Instance(disassembles), cfg, Next())
  {
    SelfIsBranch();
    NearEncodable(SELF, 4);
    ReencodedBranch(SELF, 4);
    StillDisassembles(disassembles, SELF, 4);
    BranchAccepted(disassembles, cfg, SELF);
    BranchAccepted(disassembles, cfg, Next());
  }

  // A branch to the end, and two branches to themselves that are inserted behind it.
  function Shortest(): seq<Instruction> {
    [Instruction(Next(), DisplacementInfo(Some(4), Some(1)), 0)]
  }

  function Stretch(): seq<Instruction> {
    [Instruction(SELF, DisplacementInfo(Some(0), Some(1)), 4), Instruction(SELF, DisplacementInfo(Some(0), Some(2)), 8)]
  }

  // An instruction that is one of the branches, and knows its displacement.
  ghost predicate IsExample(insn: Instruction) {
    || (insn.encoded == SELF && insn.branch.displacement == Some(0))
    || (insn.encoded == Next() && insn.branch.displacement == Some(4))
  }

  lemma ExampleIsClean(disassembles: nat -> bool, cfg: Config, insn: Instruction)
    requires IgnoresDisplacement(disassembles) && disassembles(0x1400_0000) && cfg.fixupLimit == 8 && IsExample(insn)
    ensures Clean(Instance(disassembles), cfg, insn) && Faithful(Instance(disassembles), insn)
  {
    ExampleBranches(disassembles, cfg);
  }

  lemma ExamplesAreClean(disassembles: nat -> bool, cfg: Config, insns: seq<Instruction>)
    requires IgnoresDisplacement(disassembles) && disassembles(0x1400_0000) && cfg.fixupLimit == 8
    requires forall k :: 0 <= k < |insns| ==> IsExample(insns[k])
    ensures AllClean(Instance(disassembles), cfg, insns) && AllFaithful(Instance(disassembles), insns)
  {
    forall k | 0 <= k < |insns|
      ensures Clean(Instance(disassembles), cfg, insns[k]) && Faithful(Instance(disassembles), insns[k])
    {
      ExampleIsClean(disassembles, cfg, insns[k]);
    }
  }

  lemma ShortestInSync()
    ensures AllTargeted(Shortest()) && LaidOut(Shortest()) && InSync(Shortest()) && TotalSize(Shortest()) == 4
  {
    NextSize();
    assert OffsetAt(Shortest(), 1) == OffsetAt(Shortest(), 0) + 4;
  }

  lemma NextSize()
    ensures |Next()| == 4
  {
    SelfIsBranch();
    ReencodedBranch(SELF, 4);
  }

  lemma ShortestClean(disassembles: nat -> bool, cfg: Config)
    requires IgnoresDisplacement(disassembles) && disassembles(0x1400_0000) && cfg.fixupLimit == 8
    ensures AllFaithful(Instance(disassembles), Shortest()) && AllClean(Instance(disassembles), cfg, Shortest())
  {
    ExamplesAreClean(disassembles, cfg, Shortest());
  }

  lemma StretchFits(disassembles: nat -> bool, cfg: Config)
    requires IgnoresDisplacement(disassembles) && disassembles(0x1400_0000) && cfg.fixupLimit == 8
    ensures AllFit(Instance(disassembles), Stretch(), 4)
  {
    ExamplesAreClean(disassembles, cfg, Stretch());
    forall k | 0 <= k < |Stretch()| ensures Fits(Instance(disassembles), Stretch()[k], 4) {
      assert Faithful(Instance(disassembles), Stretch()[k]);
    }
  }

  // The program after the insert.
  ghost function Stretched(): seq<Instruction> {
    Relaid(Inserted(Shortest(), 1, false, Stretch()))
  }

  lemma StretchedTarget()
    ensures |Stretched()| == 3 && Stretched()[0].branch == DisplacementInfo(Some(4), Some(3))
    ensures Stretched()[0].encoded == Next() && Stretched()[1].encoded == SELF && Stretched()[2].encoded == SELF
    ensures Stretched()[1].branch.displacement == Some(0) && Stretched()[2].branch.displacement == Some(0)
  {
    var insns := Inserted(Shortest(), 1, false, Stretch());
    InsertedAt(Shortest(), 1, false, Stretch(), 0);
    assert insns[1] == Stretch()[0] && insns[2] == Stretch()[1];
  }

  lemma StretchedClean(disassembles: nat -> bool, cfg: Config)
    requires IgnoresDisplacement(disassembles) && disassembles(0x1400_0000) && cfg.fixupLimit == 8
    ensures AllClean(Instance(disassembles), cfg, Stretched()) && AllFaithful(Instance(disassembles), Stretched())
  {
    StretchedTarget();
    ExamplesAreClean(disassembles, cfg, Stretched());
  }

  // In a program of three instructions of four bytes the first reaches the end at a distance of 12.
  lemma FirstToEnd(arch: Arch, now: seq<Instruction>)
    requires arch.minSize == arch.maxSize == 4 && |now| == 3 && AllFaithful(arch, now)
    requires AllTargeted(now) && InSync(now) && now[0].branch.Valid() && now[0].branch.boundary == Some(3)
    ensures now[0].branch.displacement == Some(12)
  {
    OffsetsSpan(arch, now, 3);
    SpanIsProduct(arch, 3);
    assert InSyncAt(now, 0);
  }

  lemma KeptBranch(arch: Arch, was: seq<Instruction>, now: seq<Instruction>)
    requires AllRewritten(arch, was, now) && TargetsOf(now) == TargetsOf(was) && was != []
    ensures now[0].branch.Valid() == was[0].branch.Valid() && now[0].branch.boundary == was[0].branch.boundary
  {
    assert Rewritten(arch, was[0], now[0]);
    assert TargetsOf(now)[0] == TargetsOf(was)[0];
  }

  // The program with the insert, after a fixup.
  ghost predicate StretchedAndFixed(arch: Arch, now: seq<Instruction>) {
    && LaidOut(now) && AllTargeted(now) && AllFaithful(arch, now) && InSync(now)
    && AllRewritten(arch, Stretched(), now) && TargetsOf(now) == TargetsOf(Stretched())
  }

  method StretchAndFix(disassembles: nat -> bool, cfg: Config, rng: MutatorRng) returns (now: seq<Instruction>)
    requires IgnoresDisplacement(disassembles) && disassembles(0x1400_0000) && cfg.fixupLimit == 8
    modifies rng
    ensures StretchedAndFixed(Instance(disassembles), now)
  {
    var arch := Instance(disassembles);
    InstanceLawful(disassembles);
    InstanceReaches(disassembles);
    ShortestInSync();
    ShortestClean(disassembles, cfg);
    StretchFits(disassembles, cfg);
    var program := new Program.Of(arch, Shortest(), 4, false);
    program.InsertInstructionBlock(1, false, Stretch());
    SpanIsProduct(arch, 3);
    ReachesNearer(arch, 0x7FFC, Span(arch, 3));
    var r, passes := program.FixupEncodedDisplacements(rng);
    now := program.instructions;
  }

  lemma BranchIsLost(disassembles: nat -> bool, cfg: Config, now: seq<Instruction>)
    requires IgnoresDisplacement(disassembles) && disassembles(0x1400_0000) && cfg.fixupLimit == 8
    requires StretchedAndFixed(Instance(disassembles), now)
    ensures Lawful(Instance(disassembles)) && |now| == 3 && now[0].branch == DisplacementInfo(Some(12), Some(3))
    ensures var read := Parsed(Instance(disassembles), cfg, BytesOf(now, 3));
            |read| == 3 && !read[0].branch.Valid()
  {
    var arch := Instance(disassembles);
    InstanceLawful(disassembles);
    InstanceReparsable(disassembles);
    StretchedTarget();
    StretchedClean(disassembles, cfg);
    KeptBranch(arch, Stretched(), now);
    FirstToEnd(arch, now);
    FixedUpRoundTrip(arch, cfg, Stretched(), now);
  }

  // Under a limit of 8 the program reads back.  But an insert moves the target of its branch to a
  // distance of 12, and after the fixup the branch is read as an instruction without a target.
  method BranchBeyondLimit(disassembles: nat -> bool, cfg: Config, rng: MutatorRng)
    returns (written: seq<Instruction>)
    requires IgnoresDisplacement(disassembles) && disassembles(0x1400_0000) && cfg.fixupLimit == 8
    modifies rng
    ensures Lawful(Instance(disassembles))
    ensures Parsed(Instance(disassembles), cfg, BytesOf(Shortest(), 1)) == Shortest()
    ensures |written| == 3 && written[0].branch == DisplacementInfo(Some(12), Some(3))
    ensures var read := Parsed(Instance(disassembles), cfg, BytesOf(written, 3));
            |read| == 3 && !read[0].branch.Valid()
  {
    InstanceLawful(disassembles);
    InstanceReparsable(disassembles);
    ShortestInSync();
    ShortestClean(disassembles, cfg);
    RoundTrip(Instance(disassembles), cfg, Shortest());
    written := StretchAndFix(disassembles, cfg, rng);
    BranchIsLost(disassembles, cfg, written);
  }

  // The word at index `j` disassembles and passes the filter.
  ghost predicate WordPasses(disassembles: nat -> bool, bytes: seq<Byte>, j: nat) {
    && 4 * j + 4 <= |bytes|
    && var w := Word(bytes[4 * j], bytes[4 * j + 1], bytes[4 * j + 2], bytes[4 * j + 3]);
       disassembles(w) && InstructionIsOk(w, FilterConfig(true, true))
  }

  lemma {:induction false} AcceptedPasses(disassembles: nat -> bool, bytes: seq<Byte>, k: nat)
    requires Lawful(Instance(disassembles)) && 4 * k <= |bytes|
    requires AllAccepted(Instance(disassembles), DEFAULT_CONFIG, bytes, 4 * k)
    ensures |bytes| % 4 == 0 && forall j: nat :: k <= j && 4 * j < |bytes| ==> WordPasses(disassembles, bytes, j)
    decreases |bytes| - 4 * k
  {
    if 4 * k < |bytes| {
      DecodeIs(disassembles, DEFAULT_CONFIG, bytes[4 * k..]);
      assert WordPasses(disassembles, bytes, k);
      AcceptedPasses(disassembles, bytes, k + 1);
    }
  }

  // Bytes that are read strictly, such as every output of the mutator, are whole words that all disassemble
  // and pass the filter for whole programs.
  lemma StrictPassesFilter(disassembles: nat -> bool, bytes: seq<Byte>)
    requires Lawful(Instance(disassembles)) && StrictOk(Instance(disassembles), DEFAULT_CONFIG, bytes)
    ensures |bytes| % 4 == 0 && forall j: nat :: 4 * j < |bytes| ==> WordPasses(disassembles, bytes, j)
  {
    AcceptedPasses(disassembles, bytes, 0);
  }
}
