/** The relocating program editor of fuzzer/program.cc. */
module ProgramEditor {
  import opened Basics
  import opened Isa
  import opened Layout
  import opened Rng
  import opened Fixup
  import opened Edits
  import opened Parsing

  lemma RewrittenTransitive(arch: Arch, a: seq<Instruction>, b: seq<Instruction>, c: seq<Instruction>)
    requires AllRewritten(arch, a, b) && AllRewritten(arch, b, c)
    requires AllFaithful(arch, b) && AllFaithful(arch, c)
    ensures AllRewritten(arch, a, c)
  {
    forall k | 0 <= k < |a| ensures Rewritten(arch, a[k], c[k]) {
      assert Faithful(arch, b[k]) && Faithful(arch, c[k]);
      RewrittenTwice(arch, a[k], b[k], c[k]);
    }
  }

  lemma RewrittenTwice(arch: Arch, a: Instruction, b: Instruction, c: Instruction)
    requires Rewritten(arch, a, b) && Rewritten(arch, b, c)
    requires Faithful(arch, b) && Faithful(arch, c)
    ensures Rewritten(arch, a, c)
  {
    if a.branch.Valid() {
      forall d: int ensures arch.reencode(a.encoded, d) == arch.reencode(c.encoded, d) {
        assert arch.reencode(a.encoded, d) == arch.reencode(b.encoded, d);
      }
      if b.encoded != c.encoded {
        var d := c.branch.displacement.value;
        assert c.encoded == arch.reencode(b.encoded, d);
        assert arch.reencode(a.encoded, d) == arch.reencode(b.encoded, d);
      }
    }
  }

  lemma RelaidKeeps(arch: Arch, insns: seq<Instruction>)
    requires AllTargeted(insns) && AllFaithful(arch, insns)
    ensures AllTargeted(Relaid(insns)) && AllFaithful(arch, Relaid(insns))
    ensures InSync(Relaid(insns)) <==> InSync(insns)
    ensures AllRewritten(arch, insns, Relaid(insns)) && TargetsOf(Relaid(insns)) == TargetsOf(insns)
  {
    var relaid := Relaid(insns);
    forall k | 0 <= k <= |insns| ensures OffsetAt(relaid, k) == OffsetAt(insns, k) {
      OffsetsAgree(relaid, insns, k);
    }
    forall k | 0 <= k < |insns|
      ensures Targeted(relaid[k], |insns| + 1) && Faithful(arch, relaid[k])
    {
      assert Targeted(insns[k], |insns| + 1) && Faithful(arch, insns[k]);
    }
    forall k | 0 <= k < |insns| ensures InSyncAt(relaid, k) <==> InSyncAt(insns, k) {
    }
    if InSync(relaid) {
      forall k | 0 <= k < |insns| ensures InSyncAt(insns, k) { assert InSyncAt(relaid, k); }
    }
  }

  // What holds between the passes of a fixup that began with `start`.
  ghost predicate FixupState(arch: Arch, start: seq<Instruction>, insns: seq<Instruction>) {
    && LaidOut(insns) && AllTargeted(insns) && AllFaithful(arch, insns)
    && AllRewritten(arch, start, insns)
  }

  // One pass, seen from the start of the fixup.
  method FixupRound(arch: Arch, ghost start: seq<Instruction>, insns: seq<Instruction>, byteLen: nat,
                    rng: MutatorRng, ghost roomy: bool, ghost n: nat, ghost first: seq<nat>, ghost passes: nat)
    returns (r: Option<bool>, stable: bool, now: seq<Instruction>, total: nat)
    requires Lawful(arch) && FixupState(arch, start, insns) && byteLen == TotalSize(insns)
    requires n == |insns| && passes <= n && PassesSpent(first, rng.draws, n, passes)
    requires roomy ==> Reaches(arch, Span(arch, n))
    modifies rng
    ensures r.Some? ==> FixupState(arch, start, now) && total == TotalSize(now)
    ensures r.Some? && stable ==> InSync(now) && PendingCount(arch, now) <= PendingCount(arch, insns)
    ensures r.Some? && !stable ==> r.value && PendingCount(arch, now) < PendingCount(arch, insns)
    ensures r.Some? ==> (r.value <==> !InSync(insns))
    ensures r == Some(false) ==> now == insns && rng.draws == old(rng.draws)
    ensures roomy ==> r.Some? && TargetsOf(now) == TargetsOf(insns) && rng.draws == old(rng.draws)
    ensures if r.Some? then PassesSpent(first, rng.draws, n, passes + 1) else Scarce(first, n)
    ensures r.None? ==> rng.draws == [] && !InSync(insns)
  {
    r, stable, now, total := FixupPass(arch, insns, byteLen, rng, roomy, n);
    if r.None? {
      PassFailed(first, old(rng.draws), n, passes);
    } else {
      PassSpent(first, old(rng.draws), rng.draws, n, passes);
      PassResult(arch, insns, now);
      PassShrinks(arch, insns, now);
      PassRewrites(arch, insns, now);
      RewrittenTransitive(arch, start, insns, now);
    }
  }

  // What holds after some passes, of which the last was stable or not.
  ghost predicate FixupLoop(arch: Arch, start: seq<Instruction>, insns: seq<Instruction>, stable: bool, modified: bool,
                            passes: nat)
    requires AllTargeted(start)
  {
    && FixupState(arch, start, insns) && (stable ==> InSync(insns))
    && (if passes == 0 then !stable && !modified else (modified <==> !InSync(start)) && (stable || modified))
    && (!modified ==> insns == start)
    && passes + PendingCount(arch, insns) <= |start| + (if stable then 1 else 0)
  }

  lemma FixupLoopStep(arch: Arch, start: seq<Instruction>, insns: seq<Instruction>, now: seq<Instruction>, stable: bool,
                      modified: bool, changed: bool, passes: nat)
    requires AllTargeted(start) && FixupLoop(arch, start, insns, false, modified, passes)
    requires FixupState(arch, start, now) && (changed <==> !InSync(insns)) && (!changed ==> now == insns)
    requires if stable then InSync(now) && PendingCount(arch, now) <= PendingCount(arch, insns)
             else changed && PendingCount(arch, now) < PendingCount(arch, insns)
    ensures FixupLoop(arch, start, now, stable, modified || changed, passes + 1)
  {
  }

  // One more pass of the loop.  `r` says whether the program has been modified by then.
  method FixupStep(arch: Arch, ghost start: seq<Instruction>, insns: seq<Instruction>, byteLen: nat, modified: bool,
                   rng: MutatorRng, ghost roomy: bool, ghost n: nat, ghost first: seq<nat>, ghost passes: nat)
    returns (r: Option<bool>, stable: bool, now: seq<Instruction>, total: nat)
    requires Lawful(arch) && AllTargeted(start) && byteLen == TotalSize(insns) && n == |start|
    requires FixupLoop(arch, start, insns, false, modified, passes) && PassesSpent(first, rng.draws, n, passes)
    requires roomy ==> Reaches(arch, Span(arch, n))
    modifies rng
    ensures r.Some? ==> FixupLoop(arch, start, now, stable, r.value, passes + 1) && total == TotalSize(now)
    ensures r.Some? && !stable ==> PendingCount(arch, now) < PendingCount(arch, insns)
    ensures r == Some(false) ==> !modified && rng.draws == old(rng.draws)
    ensures roomy ==> r.Some? && TargetsOf(now) == TargetsOf(insns) && rng.draws == old(rng.draws)
    ensures if r.Some? then PassesSpent(first, rng.draws, n, passes + 1) else Scarce(first, n)
    ensures r.None? ==> rng.draws == [] && !InSync(start)
  {
    // The iteration check of the source.
    assert passes <= |insns|;
    r, stable, now, total := FixupRound(arch, start, insns, byteLen, rng, roomy, n, first, passes);
    if r.Some? {
      FixupLoopStep(arch, start, insns, now, stable, modified, r.value, passes);
      r := Some(modified || r.value);
    }
  }

  // Repeats the pass until no instruction changes size.
  method FixupPasses(arch: Arch, start: seq<Instruction>, startLen: nat, rng: MutatorRng, ghost roomy: bool,
                     ghost n: nat, ghost first: seq<nat>)
    returns (r: Option<bool>, insns: seq<Instruction>, byteLen: nat, passes: nat)
    requires Lawful(arch) && AllTargeted(start) && startLen == TotalSize(start) && n == |start|
    requires FixupLoop(arch, start, start, false, false, 0) && PassesSpent(first, rng.draws, n, 0)
    requires roomy ==> Reaches(arch, Span(arch, n))
    modifies rng
    ensures r.Some? ==> FixupLoop(arch, start, insns, true, r.value, passes) && byteLen == TotalSize(insns)
    ensures r == Some(false) ==> rng.draws == old(rng.draws)
    ensures roomy ==> r.Some? && TargetsOf(insns) == TargetsOf(start) && rng.draws == old(rng.draws)
    ensures r.None? ==> Scarce(first, n) && rng.draws == [] && !InSync(start)
  {
    insns, byteLen := start, startLen;
    passes := 0;
    var stable := false;
    var modified := false;
    while !stable
      invariant FixupLoop(arch, start, insns, stable, modified, passes) && byteLen == TotalSize(insns)
      invariant !modified || roomy ==> rng.draws == old(rng.draws)
      invariant roomy ==> TargetsOf(insns) == TargetsOf(start)
      invariant PassesSpent(first, rng.draws, n, passes)
      decreases if stable then 0 else 1 + PendingCount(arch, insns)
    {
      r, stable, insns, byteLen := FixupStep(arch, start, insns, byteLen, modified, rng, roomy, n, first, passes);
      if r.None? {
        return None, insns, byteLen, passes;
      }
      modified, passes := r.value, passes + 1;
    }
    return Some(modified), insns, byteLen, passes;
  }

  // The whole fixup of a laid out program.  A stream that has, for each pass, as many rounds in which
  // every boundary is selected as there are instructions is always sufficient.
  method FixupAll(arch: Arch, start: seq<Instruction>, startLen: nat, rng: MutatorRng, ghost roomy: bool,
                  ghost n: nat)
    returns (r: Option<bool>, insns: seq<Instruction>, byteLen: nat, passes: nat)
    requires Lawful(arch) && startLen == TotalSize(start) && n == |start|
    requires roomy ==> Reaches(arch, Span(arch, n))
    requires LaidOut(start) && AllTargeted(start) && AllFaithful(arch, start)
    modifies rng
    ensures r.Some? ==> FixupState(arch, start, insns) && InSync(insns)
    ensures r.Some? ==> byteLen == TotalSize(insns) && passes <= |insns| + 1
    ensures r.Some? ==> (r.value <==> !InSync(start))
    ensures r == Some(false) ==> insns == start && rng.draws == old(rng.draws)
    ensures roomy ==> r.Some? && TargetsOf(insns) == TargetsOf(start) && rng.draws == old(rng.draws)
    ensures r.None? ==> Scarce(old(rng.draws), n)
    ensures r.None? ==> rng.draws == [] && !InSync(start)
  {
    FixupLoopStart(arch, start);
    assert PassesSpent(rng.draws, rng.draws, n, 0);
    r, insns, byteLen, passes := FixupPasses(arch, start, startLen, rng, roomy, n, rng.draws);
  }

  lemma FixupLoopStart(arch: Arch, start: seq<Instruction>)
    requires LaidOut(start) && AllTargeted(start) && AllFaithful(arch, start)
    ensures FixupLoop(arch, start, start, false, false, 0)
  {
    PendingBound(arch, start);
  }

  // Makes the offsets accurate, then repeats the pass.
  method FixupFrom(arch: Arch, was: seq<Instruction>, rng: MutatorRng, ghost roomy: bool, ghost n: nat)
    returns (r: Option<bool>, insns: seq<Instruction>, byteLen: nat, passes: nat)
    requires n == |was|
    requires roomy ==> Reaches(arch, Span(arch, n))
    requires Lawful(arch) && AllTargeted(was) && AllFaithful(arch, was)
    modifies rng
    ensures r.Some? ==> FixupState(arch, was, insns) && InSync(insns)
    ensures r.Some? ==> byteLen == TotalSize(insns) && passes <= |insns| + 1
    ensures r.Some? ==> (r.value <==> !InSync(was))
    ensures r == Some(false) ==> insns == Relaid(was) && rng.draws == old(rng.draws)
    ensures roomy ==> r.Some? && TargetsOf(insns) == TargetsOf(was) && rng.draws == old(rng.draws)
    ensures r.None? ==> Scarce(old(rng.draws), n)
    ensures r.None? ==> rng.draws == [] && !InSync(was)
  {
    var start, startLen := FixupInvariants(was);
    RelaidValid(arch, was);
    RelaidKeeps(arch, was);
    r, insns, byteLen, passes := FixupAll(arch, start, startLen, rng, roomy, n);
    if r.Some? {
      RewrittenTransitive(arch, was, start, insns);
    }
  }

  // The instructions a program holds after an edit: the offsets are kept up to date.
  lemma RelaidValid(arch: Arch, insns: seq<Instruction>)
    requires AllTargeted(insns) && AllFaithful(arch, insns)
    ensures AllTargeted(Relaid(insns)) && AllFaithful(arch, Relaid(insns))
    ensures TotalSize(Relaid(insns)) == TotalSize(insns) && LaidOut(Relaid(insns))
  {
    RelaidKeeps(arch, insns);
    RelaidLaidOut(insns);
  }

  class Program {
    const arch: Arch
    var instructions: seq<Instruction>
    var byteLen: nat
    // The program has been edited and requires fixup.
    var encodingsMayBeInvalid: bool

    // What CheckConsistency tests, and that recorded displacements are the encoded ones.
    ghost predicate Valid()
      reads this
    {
      && Lawful(arch)
      && AllTargeted(instructions)
      && AllFaithful(arch, instructions)
      && byteLen == TotalSize(instructions)
    }

    // Every instruction is one that decoding gives under the configuration.
    ghost predicate IsClean(cfg: Config)
      reads this
    {
      AllClean(arch, cfg, instructions)
    }

    // The bytes can be output: laid out, and every branch encodes its symbolic target.
    ghost predicate Ready()
      reads this
    {
      Valid() && LaidOut(instructions) && InSync(instructions) && !encodingsMayBeInvalid
    }

    constructor (arch: Arch)
      requires Lawful(arch)
      ensures this.arch == arch && instructions == [] && Ready()
    {
      this.arch := arch;
      instructions, byteLen, encodingsMayBeInvalid := [], 0, false;
    }

    constructor Of(arch: Arch, instructions: seq<Instruction>, byteLen: nat, encodingsMayBeInvalid: bool)
      ensures this.arch == arch && this.instructions == instructions
      ensures this.byteLen == byteLen && this.encodingsMayBeInvalid == encodingsMayBeInvalid
    {
      this.arch := arch;
      this.instructions, this.byteLen := instructions, byteLen;
      this.encodingsMayBeInvalid := encodingsMayBeInvalid;
    }

    // Whether every check of the source passes.
    method CheckConsistency() returns (ok: bool)
      ensures ok <==> AllTargeted(instructions) && byteLen == TotalSize(instructions)
    {
      var actualLen := 0;
      for i := 0 to |instructions|
        invariant actualLen == OffsetAt(instructions, i)
        invariant forall k :: 0 <= k < i ==> Targeted(instructions[k], |instructions| + 1)
      {
        if !Targeted(instructions[i], |instructions| + 1) {
          return false;
        }
        actualLen := actualLen + |instructions[i].encoded|;
      }
      ok := byteLen == actualLen;
    }

    // Makes every branch encode its symbolic target; says whether the program was modified.
    method FixupEncodedDisplacements(rng: MutatorRng) returns (r: Option<bool>, passes: nat)
      requires Valid()
      modifies this, rng
      ensures r.Some? ==> Ready() && passes <= |instructions| + 1
      ensures r.Some? ==> AllRewritten(arch, old(instructions), instructions)
      ensures r.Some? ==> (r.value <==> !InSync(old(instructions)))
      ensures r == Some(false) ==> instructions == Relaid(old(instructions)) && rng.draws == old(rng.draws)
      ensures Reaches(arch, Span(arch, |old(instructions)|)) ==>
                r.Some? && TargetsOf(instructions) == TargetsOf(old(instructions)) && rng.draws == old(rng.draws)
      ensures r.None? ==> Scarce(old(rng.draws), |old(instructions)|)
      ensures r.None? ==> rng.draws == [] && !InSync(old(instructions))
    {
      var insns, len;
      ghost var n := |instructions|;
      r, insns, len, passes := FixupFrom(arch, instructions, rng, Reaches(arch, Span(arch, n)), n);
      if r.Some? {
        instructions, byteLen, encodingsMayBeInvalid := insns, len, false;
      }
    }

    // Overwrites the instructions at `index`.
    method SetInstructionBlock(index: nat, block: seq<Instruction>)
      requires Valid() && index + |block| <= |instructions|
      requires AllFit(arch, block, |instructions| + 1)
      modifies this
      ensures Valid() && encodingsMayBeInvalid
      ensures instructions == Overwritten(old(instructions), index, block)
    {
      OverwriteConsistent(arch, instructions, index, block);
      instructions, byteLen := OverwriteInPlace(instructions, byteLen, index, block);
      encodingsMayBeInvalid := true;
    }

    // Shifts the targets at or after `boundary`, which may lie one past the last boundary.
    method AdjustInstructionIndexes(boundary: nat, amount: int) returns (adjusted: seq<Instruction>)
      requires boundary <= |instructions| + 1 && boundary + amount >= 0
      ensures adjusted == Adjusted(instructions, boundary, amount)
    {
      adjusted := [];
      for i := 0 to |instructions|
        invariant |adjusted| == i
        invariant forall k :: 0 <= k < i ==> adjusted[k] == Retargeted(instructions[k], boundary, amount)
      {
        adjusted := adjusted + [Retargeted(instructions[i], boundary, amount)];
      }
    }

    method InsertInstructionBlock(boundary: nat, steal: bool, block: seq<Instruction>)
      requires Valid() && boundary <= |instructions|
      requires AllFit(arch, block, |instructions| + |block| + 1)
      modifies this
      ensures Valid() && LaidOut(instructions) && encodingsMayBeInvalid
      ensures instructions == Relaid(Inserted(old(instructions), boundary, steal, block))
    {
      var adjusted := AdjustInstructionIndexes(if steal then boundary + 1 else boundary, |block|);
      var insns := adjusted[..boundary] + block + adjusted[boundary..];
      InsertConsistent(arch, instructions, boundary, steal, block);
      RelaidValid(arch, insns);
      encodingsMayBeInvalid := true;
      instructions, byteLen := FixupInvariants(insns);
    }

    method RemoveInstruction(index: nat)
      requires Valid() && index < |instructions|
      modifies this
      ensures Valid() && LaidOut(instructions) && encodingsMayBeInvalid
      ensures instructions == Relaid(Removed(old(instructions), index))
    {
      var adjusted := AdjustInstructionIndexes(index + 1, -1);
      var insns := adjusted[..index] + adjusted[index + 1..];
      RemoveConsistent(arch, instructions, index);
      RelaidValid(arch, insns);
      encodingsMayBeInvalid := true;
      instructions, byteLen := FixupInvariants(insns);
    }

    // Converts the program to bytes.
    method ToBytes() returns (output: seq<Byte>)
      requires Ready()
      ensures output == BytesOf(instructions, |instructions|) && |output| == byteLen
    {
      output := Concatenate(instructions);
    }
  }

  method Concatenate(insns: seq<Instruction>) returns (output: seq<Byte>)
    requires LaidOut(insns)
    ensures output == BytesOf(insns, |insns|)
  {
    output := [];
    for i := 0 to |insns|
      invariant output == BytesOf(insns, i)
    {
      // The offset check of the source.
      assert insns[i].offset == |output|;
      output := output + insns[i].encoded;
    }
  }

  // Overwrites instructions one at a time, keeping the program size in step.
  method OverwriteInPlace(insns: seq<Instruction>, byteLen: nat, index: nat, block: seq<Instruction>)
    returns (r: seq<Instruction>, len: nat)
    requires index + |block| <= |insns| && byteLen == TotalSize(insns)
    ensures r == Overwritten(insns, index, block) && len == TotalSize(r)
  {
    r, len := insns, byteLen;
    for i := 0 to |block|
      invariant r == Overwritten(insns, index, block[..i])
      invariant len == TotalSize(r)
    {
      TotalAfterUpdate(r, index + i, block[i]);
      len := len - |r[index + i].encoded| + |block[i].encoded|;
      r := r[index + i := block[i]];
    }
    assert block[..|block|] == block;
  }

  lemma {:induction false} TotalAfterUpdateUpTo(insns: seq<Instruction>, i: nat, insn: Instruction, k: nat)
    requires i < k <= |insns|
    ensures OffsetAt(insns[i := insn], k) == OffsetAt(insns, k) - |insns[i].encoded| + |insn.encoded|
    decreases k
  {
    if i < k - 1 {
      TotalAfterUpdateUpTo(insns, i, insn, k - 1);
    } else {
      OffsetsAgree(insns[i := insn], insns, i);
    }
  }

  lemma TotalAfterUpdate(insns: seq<Instruction>, i: nat, insn: Instruction)
    requires i < |insns|
    ensures TotalSize(insns[i := insn]) == TotalSize(insns) - |insns[i].encoded| + |insn.encoded|
  {
    TotalAfterUpdateUpTo(insns, i, insn, |insns|);
  }
}
