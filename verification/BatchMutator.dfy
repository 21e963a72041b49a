/** Producing mutants: fuzzer/program_batch_mutator.cc and the length limit. */
module BatchMutator {
  import opened Basics
  import opened Isa
  import opened Layout
  import opened Rng
  import opened Fixup
  import opened Parsing
  import opened ProgramEditor
  import opened Mutators

  // A single instruction is never longer than the architecture allows.
  lemma SizeBounds(arch: Arch, insns: seq<Instruction>)
    requires AllFaithful(arch, insns)
    ensures insns == [] ==> TotalSize(insns) == 0
    ensures |insns| == 1 ==> TotalSize(insns) <= arch.maxSize
    ensures insns != [] ==> TotalSize(insns) >= arch.minSize
  {
    if insns != [] {
      assert Faithful(arch, insns[0]) && Faithful(arch, insns[|insns| - 1]);
      assert |insns| == 1 ==> OffsetAt(insns, 1) == OffsetAt(insns, 0) + |insns[0].encoded|;
    }
  }

  // Step `k` removed an instruction of a program that was too long.
  ghost predicate CutAt(trace: seq<seq<Instruction>>, k: nat, maxLen: nat)
    requires k + 1 < |trace|
  {
    TotalSize(trace[k]) > maxLen && OneRemoved(trace[k], trace[k + 1])
  }

  ghost predicate CutBy(was: seq<Instruction>, now: seq<Instruction>, maxLen: nat, trace: seq<seq<Instruction>>) {
    && trace != [] && trace[0] == was && trace[|trace| - 1] == now
    && forall k: nat :: k + 1 < |trace| ==> CutAt(trace, k, maxLen)
  }

  // Instructions were removed one by one, each while the program was too long.
  ghost predicate IsCut(was: seq<Instruction>, now: seq<Instruction>, maxLen: nat) {
    exists trace: seq<seq<Instruction>> :: CutBy(was, now, maxLen, trace)
  }

  lemma CutMore(was: seq<Instruction>, mid: seq<Instruction>, now: seq<Instruction>, maxLen: nat,
                trace: seq<seq<Instruction>>)
    requires CutBy(was, mid, maxLen, trace) && TotalSize(mid) > maxLen && OneRemoved(mid, now)
    ensures CutBy(was, now, maxLen, trace + [now])
  {
    var more := trace + [now];
    forall k: nat | k + 1 < |more| ensures CutAt(more, k, maxLen) {
      if k + 1 < |trace| {
        assert CutAt(trace, k, maxLen);
      }
    }
  }

  lemma CutOrSame(was: seq<Instruction>, now: seq<Instruction>, maxLen: nat, trace: seq<seq<Instruction>>)
    requires CutBy(was, now, maxLen, trace)
    ensures now == was || TotalSize(was) > maxLen
  {
    if |trace| > 1 {
      assert CutAt(trace, 0, maxLen);
    }
  }

  // A program that is short enough is not cut.
  lemma ShortIsNotCut(was: seq<Instruction>, now: seq<Instruction>, maxLen: nat)
    requires IsCut(was, now, maxLen) && TotalSize(was) <= maxLen
    ensures now == was
  {
    var trace: seq<seq<Instruction>> :| CutBy(was, now, maxLen, trace);
    CutOrSame(was, now, maxLen, trace);
  }

  // Removes random instructions until the program is short enough; says whether it did.
  method LimitProgramLength(rng: MutatorRng, program: Program, maxLen: nat) returns (r: Option<bool>)
    requires Sound(program)
    modifies program, rng
    ensures Sound(program)
    ensures r.Some? ==> program.byteLen <= maxLen
    ensures r.Some? ==> IsCut(old(program.instructions), program.instructions, maxLen)
    ensures r.Some? ==> (r.value <==> old(program.byteLen) > maxLen)
    ensures r == Some(true) ==> |program.instructions| < |old(program.instructions)|
    ensures r == Some(false) ==> unchanged(program)
    ensures r.Some? && old(program.instructions) != [] && program.arch.maxSize <= maxLen ==> program.instructions != []
  {
    var modified := false;
    ghost var trace := [program.instructions];
    assert CutBy(program.instructions, program.instructions, maxLen, trace);
    while program.byteLen > maxLen
      invariant Sound(program)
      invariant CutBy(old(program.instructions), program.instructions, maxLen, trace)
      invariant if modified then |program.instructions| < |old(program.instructions)| && old(program.byteLen) > maxLen
                else unchanged(program)
      invariant old(program.instructions) != [] && program.arch.maxSize <= maxLen ==> program.instructions != []
      decreases |program.instructions|
    {
      SizeBounds(program.arch, program.instructions);
      // The check of the source.
      assert |program.instructions| > 0;
      ghost var mid := program.instructions;
      var deleted :- DeleteOne(rng, program, 0);
      CutMore(old(program.instructions), mid, program.instructions, maxLen, trace);
      trace := trace + [program.instructions];
      modified := true;
    }
    return Some(modified);
  }

  // Adds a generated instruction to an empty program.
  method AddInstructionIfZeroLength(rng: MutatorRng, program: Program) returns (r: Option<()>)
    requires Sound(program)
    modifies program, rng
    ensures Sound(program)
    ensures r.Some? ==> program.byteLen > 0 && program.instructions != []
    ensures old(program.instructions) != [] ==> unchanged(program)
    ensures r.Some? && old(program.instructions) == [] ==> OneInserted([], program.instructions)
  {
    SizeBounds(program.arch, program.instructions);
    while program.byteLen == 0
      invariant Sound(program)
      invariant if program.byteLen == 0 || old(program.instructions) != [] then unchanged(program)
                else OneInserted([], program.instructions)
      decreases |rng.draws|
    {
      SizeBounds(program.arch, program.instructions);
      var inserted :- InsertOne(rng, program);
      SizeBounds(program.arch, program.instructions);
    }
    SizeBounds(program.arch, program.instructions);
    return Some(());
  }

  // A fixup keeps a program clean under the default configuration, whose limit is never reached.
  lemma FixupClean(arch: Arch, was: seq<Instruction>, now: seq<Instruction>)
    requires Lawful(arch) && Reparsable(arch) && AllRewritten(arch, was, now)
    requires AllClean(arch, DEFAULT_CONFIG, was) && AllFaithful(arch, was) && AllFaithful(arch, now)
    ensures AllClean(arch, DEFAULT_CONFIG, now)
  {
    forall k | 0 <= k < |now| ensures Clean(arch, DEFAULT_CONFIG, now[k]) {
      assert Clean(arch, DEFAULT_CONFIG, was[k]) && Faithful(arch, was[k]) && Faithful(arch, now[k]);
      RewrittenClean(arch, DEFAULT_CONFIG, was[k], now[k]);
      if now[k].branch.Valid() { DefaultLimit(arch, now[k]); }
    }
  }

  method FixupSound(rng: MutatorRng, program: Program) returns (r: Option<bool>)
    requires Sound(program)
    modifies program, rng
    ensures r.Some? ==> Sound(program) && program.Ready()
    ensures r.Some? ==> AllRewritten(program.arch, old(program.instructions), program.instructions)
    ensures r == Some(false) ==> program.byteLen == old(program.byteLen)
  {
    ghost var was := program.instructions;
    var passes;
    r, passes := program.FixupEncodedDisplacements(rng);
    if r.Some? && Reparsable(program.arch) {
      FixupClean(program.arch, was, program.instructions);
    }
    if r == Some(false) {
      RelaidLaidOut(was);
    }
  }

  // A program that was cut to the limit, and then fixed up.
  datatype Stage = Stage(cut: seq<Instruction>, fixed: seq<Instruction>)

  // What stage `k` starts from.
  function StageStart(was: seq<Instruction>, stages: seq<Stage>, k: nat): seq<Instruction>
    requires k <= |stages|
  {
    if k == 0 then was else stages[k - 1].fixed
  }

  // There is another stage only because a fixup made the program too long.
  ghost predicate StageAt(arch: Arch, was: seq<Instruction>, stages: seq<Stage>, k: nat, maxLen: nat)
    requires k < |stages|
  {
    && IsCut(StageStart(was, stages, k), stages[k].cut, maxLen) && TotalSize(stages[k].cut) <= maxLen
    && AllRewritten(arch, stages[k].cut, stages[k].fixed)
    && AllFaithful(arch, stages[k].cut) && AllFaithful(arch, stages[k].fixed)
    && (k > 0 ==> TotalSize(stages[k - 1].fixed) > maxLen)
  }

  ghost predicate AreStages(arch: Arch, was: seq<Instruction>, stages: seq<Stage>, maxLen: nat) {
    forall k: nat :: k < |stages| ==> StageAt(arch, was, stages, k, maxLen)
  }

  ghost predicate Finalized(arch: Arch, was: seq<Instruction>, now: seq<Instruction>, maxLen: nat) {
    exists stages: seq<Stage> ::
      && AreStages(arch, was, stages, maxLen) && stages != [] && stages[|stages| - 1].fixed == now
      && TotalSize(now) <= maxLen
  }

  lemma OneMoreStage(arch: Arch, was: seq<Instruction>, stages: seq<Stage>, stage: Stage, maxLen: nat)
    requires AreStages(arch, was, stages, maxLen) && StageAt(arch, was, stages + [stage], |stages|, maxLen)
    ensures AreStages(arch, was, stages + [stage], maxLen)
  {
    var more := stages + [stage];
    forall k: nat | k < |more| ensures StageAt(arch, was, more, k, maxLen) {
      if k < |stages| {
        assert StageAt(arch, was, stages, k, maxLen);
        assert StageStart(was, more, k) == StageStart(was, stages, k);
      }
    }
  }

  // A program that is short enough is only fixed up, unless the fixup makes it too long.
  lemma FinalizedShort(arch: Arch, was: seq<Instruction>, now: seq<Instruction>, maxLen: nat)
    requires Finalized(arch, was, now, maxLen) && TotalSize(was) <= maxLen
    ensures || AllRewritten(arch, was, now)
            || exists fixed: seq<Instruction> :: AllRewritten(arch, was, fixed) && TotalSize(fixed) > maxLen
    ensures arch.minSize == arch.maxSize ==> AllRewritten(arch, was, now)
  {
    var stages: seq<Stage> :|
      && AreStages(arch, was, stages, maxLen) && stages != [] && stages[|stages| - 1].fixed == now
      && TotalSize(now) <= maxLen;
    assert StageAt(arch, was, stages, 0, maxLen);
    ShortIsNotCut(was, stages[0].cut, maxLen);
    if |stages| > 1 {
      assert StageAt(arch, was, stages, 1, maxLen);
      if arch.minSize == arch.maxSize {
        OffsetsSpan(arch, was, |was|);
        OffsetsSpan(arch, stages[0].fixed, |was|);
      }
    }
  }

  // The program that is limited and fixed up: one with an instruction.
  ghost predicate FinalizedFrom(arch: Arch, was: seq<Instruction>, now: seq<Instruction>, maxLen: nat) {
    if was != [] then Finalized(arch, was, now, maxLen)
    else exists one: seq<Instruction> :: OneInserted([], one) && Finalized(arch, one, now, maxLen)
  }

  // The last stage has been cut, and not yet been fixed up.
  ghost predicate CutNotFixed(arch: Arch, was: seq<Instruction>, stages: seq<Stage>, now: seq<Instruction>,
                              maxLen: nat)
  {
    && AreStages(arch, was, stages, maxLen) && IsCut(StageStart(was, stages, |stages|), now, maxLen)
    && (stages != [] ==> TotalSize(stages[|stages| - 1].fixed) > maxLen)
  }

  lemma StageCut(arch: Arch, was: seq<Instruction>, stages: seq<Stage>, stage: Stage, now: seq<Instruction>,
                 maxLen: nat)
    requires AreStages(arch, was, stages + [stage], maxLen)
    ensures IsCut(stage.fixed, now, maxLen) && TotalSize(stage.fixed) > maxLen ==>
              CutNotFixed(arch, was, stages + [stage], now, maxLen)
    ensures TotalSize(stage.fixed) <= maxLen ==> Finalized(arch, was, stage.fixed, maxLen)
  {
    assert StageStart(was, stages + [stage], |stages| + 1) == stage.fixed;
    assert (stages + [stage])[|stages|] == stage;
  }

  // One fixup, and what it adds to the stages.
  method FinalizeStep(rng: MutatorRng, program: Program, maxLen: nat, ghost was: seq<Instruction>,
                      ghost stages: seq<Stage>)
    returns (r: Option<bool>)
    requires Sound(program) && program.byteLen <= maxLen
    requires CutNotFixed(program.arch, was, stages, program.instructions, maxLen)
    modifies program, rng
    ensures r.Some? ==> Sound(program) && program.Ready()
    ensures r.Some? ==>
              AreStages(program.arch, was, stages + [Stage(old(program.instructions), program.instructions)], maxLen)
    ensures r == Some(false) ==> program.byteLen <= maxLen
    ensures r.Some? ==> |program.instructions| == |old(program.instructions)|
  {
    ghost var cut := program.instructions;
    r := FixupSound(rng, program);
    if r.Some? {
      ghost var stage := Stage(cut, program.instructions);
      assert StageStart(was, stages + [stage], |stages|) == StageStart(was, stages, |stages|);
      OneMoreStage(program.arch, was, stages, stage, maxLen);
    }
  }

  // Limits the length and fixes the displacements until both hold.
  method FinalizeProgram(rng: MutatorRng, program: Program, maxLen: nat) returns (r: Option<()>)
    requires Sound(program)
    modifies program, rng
    ensures r.Some? ==> Sound(program) && program.Ready() && program.byteLen <= maxLen
    ensures r.Some? && program.arch.maxSize <= maxLen ==> program.instructions != []
    ensures r.Some? ==> FinalizedFrom(program.arch, old(program.instructions), program.instructions, maxLen)
  {
    var added :- AddInstructionIfZeroLength(rng, program);
    ghost var was, stages: seq<Stage> := program.instructions, [];
    var limited :- LimitProgramLength(rng, program, maxLen);
    assert CutNotFixed(program.arch, was, stages, program.instructions, maxLen);
    while true
      invariant Sound(program) && program.byteLen <= maxLen
      invariant program.arch.maxSize <= maxLen ==> program.instructions != []
      invariant CutNotFixed(program.arch, was, stages, program.instructions, maxLen)
      decreases |program.instructions|
    {
      ghost var cut := program.instructions;
      var modified :- FinalizeStep(rng, program, maxLen, was, stages);
      ghost var stage := Stage(cut, program.instructions);
      if modified {
        limited :- LimitProgramLength(rng, program, maxLen);
      }
      StageCut(program.arch, was, stages, stage, program.instructions, maxLen);
      stages := stages + [stage];
      if !modified || !limited {
        return Some(());
      }
    }
  }

  // Mutates a copy of the input and outputs its bytes.  For every policy, pair of inputs and
  // supply of draws, the output is what the policy and the finalization make of the input, obeys
  // the length limit and is a valid program: read back strictly, it is exactly the program that
  // was output.
  method GenerateSingleOutput(rng: MutatorRng, mutator: Mutator, input: Program, other: Program, maxLen: nat)
    returns (r: Option<seq<Byte>>, ghost mutated: seq<Instruction>, ghost final: seq<Instruction>)
    requires WellFormed(mutator)
    requires Sound(input) && Sound(other) && input.arch == other.arch
    modifies rng
    ensures r.Some? ==> |r.value| <= maxLen && r.value == BytesOf(final, |final|)
    ensures r.Some? && input.arch.maxSize <= maxLen ==> r.value != []
    ensures r.Some? ==> exists ok: bool :: Ran(mutator, Some(other.instructions), input.instructions, mutated, ok)
    ensures r.Some? ==> FinalizedFrom(input.arch, mutated, final, maxLen)
    ensures r.Some? && Reparsable(input.arch) ==>
              && StrictOk(input.arch, DEFAULT_CONFIG, r.value)
              && Parsed(input.arch, DEFAULT_CONFIG, r.value) == final
              && AllTargeted(final) && InSync(final)
  {
    mutated, final := [], [];
    var program := new Program.Of(input.arch, input.instructions, input.byteLen, input.encodingsMayBeInvalid);
    var success :- Mutate(mutator, rng, program, other);
    assert Ran(mutator, Some(other.instructions), input.instructions, program.instructions, success);
    mutated := program.instructions;
    var _ :- FinalizeProgram(rng, program, maxLen);
    var output := program.ToBytes();
    final := program.instructions;
    SizeBounds(program.arch, final);
    if Reparsable(program.arch) {
      RoundTrip(program.arch, DEFAULT_CONFIG, final);
    }
    r := Some(output);
  }
}
