/** The program mutators: the operators of fuzzer/program_mutation_ops.h and the combinators
    of fuzzer/program_mutator.h.

    Each method returns None if the supply of random draws ended, and otherwise whether the
    mutation succeeded.  `other` may be the program itself. */
module Mutators {
  import opened Basics
  import opened Isa
  import opened Layout
  import opened Rng
  import opened Edits
  import opened Parsing
  import opened ProgramEditor
  import opened Mutations

  // The instructions after the edit that a mutation made.
  ghost predicate Did(was: seq<Instruction>, edit: Edit, now: seq<Instruction>) {
    Applies(was, edit) && now == Edited(was, edit)
  }

  // The instruction was generated from the draws; the next ones chose its target, its place and whether
  // it takes over the branches to that place.
  ghost predicate InsertDrawn(arch: Arch, was: seq<nat>, now: seq<nat>, n: nat, edit: Edit) {
    exists mid, insn :: Generated(arch, was, mid, Some(insn)) && PlacedBy(insn, mid, now, n, edit)
  }

  ghost predicate PlacedBy(insn: Instruction, was: seq<nat>, now: seq<nat>, n: nat, edit: Edit) {
    var skip := if insn.branch.Valid() then 1 else 0;
    && skip + 2 <= |was| && now == was[skip + 2..] && edit.Insert?
    && edit.at == was[skip] % (n + 1) && edit.steal == (was[skip + 1] % 2 == 1)
    && edit.block == [if insn.branch.Valid()
                      then insn.(branch := insn.branch.(boundary := Some(was[0] % (n + 2)))) else insn]
  }

  // Inserts a generated instruction at a random boundary.
  method InsertGeneratedInstruction(rng: MutatorRng, program: Program) returns (r: Option<bool>, ghost edit: Edit)
    requires program.Valid()
    modifies program, rng
    ensures program.Valid()
    ensures r == Some(true) ==> program.encodingsMayBeInvalid
    ensures r == Some(false) ==> unchanged(program)
    ensures Did(old(program.instructions), edit, program.instructions)
    ensures if r == Some(true) then edit.Insert? && |edit.block| == 1 else edit.NoEdit?
    ensures r.Some? ==> |rng.draws| < |old(rng.draws)|
    ensures r == Some(true) && Reparsable(program.arch) ==> AllClean(program.arch, DEFAULT_CONFIG, edit.block)
    ensures r == Some(true) ==>
              InsertDrawn(program.arch, old(rng.draws), rng.draws, |old(program.instructions)|, edit)
    ensures r == Some(false) ==> Generated(program.arch, old(rng.draws), rng.draws, None)
  {
    edit := NoEdit;
    var generated :- GenerateSingleInstruction(rng, program.arch);
    if generated.None? {
      return Some(false), edit;
    }
    var insn := generated.value;
    ghost var mid, n := rng.draws, |program.instructions|;
    // Inserting the instruction will increase the number of boundaries by one.
    var info :- RandomizeBoundary(rng, insn.branch, |program.instructions| + 2);
    insn := insn.(branch := info);
    var boundary :- rng.RandomIndex(|program.instructions| + 1);
    var steal :- rng.RandomIndex(2);
    assert Fits(program.arch, insn, |program.instructions| + 2);
    program.InsertInstructionBlock(boundary, steal == 1, [insn]);
    edit := Insert(boundary, steal == 1, [insn]);
    assert PlacedBy(generated.value, mid, rng.draws, n, edit);
    return Some(true), edit;
  }

  // The first draw chose the instruction, and the next ones the bits to invert.  Another draw chose the
  // target, unless the displacement is the same as before.
  ghost predicate MutateDrawn(arch: Arch, insns: seq<Instruction>, was: seq<nat>, now: seq<nat>, edit: Edit) {
    && was != [] && insns != [] && edit.Overwrite? && edit.at == was[0] % |insns| && insns[edit.at].encoded != []
    && exists mid, insn ::
      && Mutated(arch, insns[edit.at].encoded, was[1..], mid, Some(insn))
      && RetargetedBy(insns[edit.at].branch, insn, mid, now, |insns| + 1, edit.block)
  }

  ghost predicate RetargetedBy(original: DisplacementInfo, insn: Instruction, was: seq<nat>, now: seq<nat>,
                               numBoundaries: nat, block: seq<Instruction>)
    requires numBoundaries > 0
  {
    if !insn.branch.Valid() then block == [insn] && now == was
    else if original.Valid() && insn.branch.displacement == original.displacement then
      block == [insn.(branch := insn.branch.(boundary := original.boundary))] && now == was
    else
      && was != [] && now == was[1..]
      && block == [insn.(branch := insn.branch.(boundary := Some(was[0] % numBoundaries)))]
  }

  // No instruction was found near the one that the first draw chose.
  ghost predicate NoneDrawn(arch: Arch, insns: seq<Instruction>, was: seq<nat>, now: seq<nat>)
    requires insns != []
  {
    && was != [] && insns[was[0] % |insns|].encoded != []
    && Mutated(arch, insns[was[0] % |insns|].encoded, was[1..], now, None)
  }

  lemma DrawnFrom(arch: Arch, insns: seq<Instruction>, was: seq<nat>, mid: seq<nat>, now: seq<nat>, insn: Instruction,
                  edit: Edit)
    requires was != [] && insns != [] && edit.Overwrite? && edit.at == was[0] % |insns|
    requires insns[edit.at].encoded != [] && Mutated(arch, insns[edit.at].encoded, was[1..], mid, Some(insn))
    requires RetargetedBy(insns[edit.at].branch, insn, mid, now, |insns| + 1, edit.block)
    ensures MutateDrawn(arch, insns, was, now, edit)
  {
  }

  lemma NoneFrom(arch: Arch, insns: seq<Instruction>, was: seq<nat>, now: seq<nat>, target: nat)
    requires was != [] && insns != [] && target == was[0] % |insns| && insns[target].encoded != []
    requires Mutated(arch, insns[target].encoded, was[1..], now, None)
    ensures NoneDrawn(arch, insns, was, now)
  {
  }

  // The modified instruction, with its target.  The target is kept if the displacement was not touched.
  method ChooseTarget(rng: MutatorRng, arch: Arch, original: DisplacementInfo, insn: Instruction, numBoundaries: nat)
    returns (r: Option<Instruction>)
    requires numBoundaries > 0 && Untargeted(arch, insn)
    requires original.Valid() ==> original.boundary.Some? && original.boundary.value < numBoundaries
    modifies rng
    ensures r.Some? ==> RetargetedBy(original, insn, old(rng.draws), rng.draws, numBoundaries, [r.value])
    ensures r.Some? ==> Fits(arch, r.value, numBoundaries)
    ensures r.Some? && Reparsable(arch) ==> AllClean(arch, DEFAULT_CONFIG, [r.value])
  {
    var info :- CopyOrRandomizeBoundary(rng, original, insn.branch, numBoundaries);
    return Some(insn.(branch := info));
  }

  // A random instruction, modified.
  method ChooseMutation(rng: MutatorRng, arch: Arch, insns: seq<Instruction>)
    returns (r: Option<Option<Instruction>>, target: nat)
    requires Lawful(arch) && insns != [] && AllTargeted(insns) && AllFaithful(arch, insns)
    modifies rng
    ensures target < |insns|
    ensures r.Some? && r.value.Some? ==>
              && Fits(arch, r.value.value, |insns| + 1)
              && (Reparsable(arch) ==> AllClean(arch, DEFAULT_CONFIG, [r.value.value]))
              && MutateDrawn(arch, insns, old(rng.draws), rng.draws, Overwrite(target, [r.value.value]))
    ensures r == Some(None) ==> NoneDrawn(arch, insns, old(rng.draws), rng.draws)
  {
    target := 0;
    var index :- rng.RandomIndex(|insns|);
    target := index;
    var original := insns[target];
    assert Targeted(original, |insns| + 1) && Faithful(arch, original);
    var mutated :- MutateSingleInstruction(rng, arch, original);
    if mutated.None? {
      NoneFrom(arch, insns, old(rng.draws), rng.draws, target);
      return Some(None), target;
    }
    ghost var mid := rng.draws;
    var insn :- ChooseTarget(rng, arch, original.branch, mutated.value, |insns| + 1);
    DrawnFrom(arch, insns, old(rng.draws), mid, rng.draws, mutated.value, Overwrite(target, [insn]));
    return Some(Some(insn)), target;
  }

  // Modifies a random instruction.
  method MutateInstruction(rng: MutatorRng, program: Program) returns (r: Option<bool>, ghost edit: Edit)
    requires program.Valid()
    modifies program, rng
    ensures program.Valid()
    ensures r == Some(true) ==> program.encodingsMayBeInvalid
    ensures r == Some(false) ==> unchanged(program)
    ensures Did(old(program.instructions), edit, program.instructions)
    ensures if r == Some(true) then edit.Overwrite? && |edit.block| == 1 else edit.NoEdit?
    ensures r == Some(true) && Reparsable(program.arch) ==> AllClean(program.arch, DEFAULT_CONFIG, edit.block)
    ensures old(program.instructions) == [] ==> r == Some(false)
    ensures r == Some(true) ==>
              MutateDrawn(program.arch, old(program.instructions), old(rng.draws), rng.draws, edit)
    ensures r == Some(false) && old(program.instructions) != [] ==>
              NoneDrawn(program.arch, old(program.instructions), old(rng.draws), rng.draws)
    ensures r == Some(true) ==>
              var was, now := old(program.instructions)[edit.at].branch, edit.block[0].branch;
              now.Valid() && now.displacement == was.displacement ==> now.boundary == was.boundary
  {
    edit := NoEdit;
    if |program.instructions| == 0 {
      return Some(false), edit;
    }
    var choice, target := ChooseMutation(rng, program.arch, program.instructions);
    if choice.None? {
      return None, edit;
    }
    if choice.value.None? {
      return Some(false), edit;
    }
    edit := Overwrite(target, [choice.value.value]);
    program.SetInstructionBlock(target, [choice.value.value]);
    return Some(true), edit;
  }

  // Removes a random instruction, unless the program is at its minimum.
  method DeleteInstruction(rng: MutatorRng, program: Program, minimum: nat) returns (r: Option<bool>, ghost edit: Edit)
    requires program.Valid()
    modifies program, rng
    ensures program.Valid()
    ensures r == Some(true) ==> program.encodingsMayBeInvalid
    ensures r == Some(false) ==> unchanged(program)
    ensures Did(old(program.instructions), edit, program.instructions)
    ensures if r == Some(true) then edit.Remove? else edit.NoEdit?
    ensures r == Some(false) <==> |old(program.instructions)| <= minimum
    ensures r.Some? ==> r.value == (|old(program.instructions)| > minimum)
    ensures r == Some(true) ==> Took(old(rng.draws), rng.draws, |old(program.instructions)|, edit.at)
  {
    edit := NoEdit;
    if |program.instructions| <= minimum {
      return Some(false), edit;
    }
    var victim :- rng.RandomIndex(|program.instructions|);
    program.RemoveInstruction(victim);
    return Some(true), Remove(victim);
  }

  // All draws that were used select the same index.
  ghost predicate TookSame(was: seq<nat>, now: seq<nat>, n: nat, a: nat)
    requires n > 0
  {
    Rest(was, now) && |now| + 2 <= |was| && forall k :: 0 <= k < |was| - |now| ==> was[k] % n == a
  }

  // Two different indexes below `n`.
  method DistinctIndexes(rng: MutatorRng, n: nat) returns (r: Option<(nat, nat)>)
    requires n >= 2
    modifies rng
    ensures r.Some? ==> r.value.0 < n && r.value.1 < n && r.value.0 != r.value.1
    ensures r.Some? ==> TookApart(old(rng.draws), rng.draws, n, r.value.0, r.value.1)
  {
    var a: nat :- rng.RandomIndex(n);
    var b: nat :- rng.RandomIndex(n);
    while a == b
      invariant a < n && b < n
      invariant if a == b then TookSame(old(rng.draws), rng.draws, n, a)
                else TookApart(old(rng.draws), rng.draws, n, a, b)
      decreases |rng.draws|
    {
      b :- rng.RandomIndex(n);
    }
    return Some((a, b));
  }

  ghost predicate ChunkDrawn(was: seq<nat>, maximum: nat, length: nat, size: nat, index: nat)
    requires 0 < maximum <= length
  {
    && 2 <= |was| && size == was[0] % maximum + 1 && size <= length
    && index == was[1] % (length - size + 1)
  }

  // The size, from 1 to `maximum`, and the start of a chunk of `length` instructions.
  method RandomChunk(rng: MutatorRng, maximum: nat, length: nat) returns (r: Option<(nat, nat)>)
    requires 0 < maximum <= length
    modifies rng
    ensures r.Some? ==> 1 <= r.value.0 <= maximum && r.value.1 + r.value.0 <= length
    ensures r.Some? ==> ChunkDrawn(old(rng.draws), maximum, length, r.value.0, r.value.1)
    ensures r.Some? ==> rng.draws == old(rng.draws)[2..]
  {
    var last: nat :- rng.RandomIndex(maximum);
    var size: nat := last + 1;
    var index :- rng.RandomIndex(length - size + 1);
    return Some((size, index));
  }

  lemma SwapFits(arch: Arch, insns: seq<Instruction>, i: nat, j: nat)
    requires i < |insns| && j < |insns| && AllTargeted(insns) && AllFaithful(arch, insns)
    ensures AllFit(arch, [insns[i]], |insns| + 1) && AllFit(arch, [insns[j]], |insns| + 1)
    ensures Overwritten(insns, i, [insns[j]]) == insns[i := insns[j]]
    ensures Overwritten(insns[i := insns[j]], j, [insns[i]]) == insns[i := insns[j]][j := insns[i]]
  {
    assert Targeted(insns[i], |insns| + 1) && Faithful(arch, insns[i]);
    assert Targeted(insns[j], |insns| + 1) && Faithful(arch, insns[j]);
  }

  // Exchanges two instructions; their symbolic targets stay where they are.
  method SwapInstructions(rng: MutatorRng, program: Program) returns (r: Option<bool>, ghost a: nat, ghost b: nat)
    requires program.Valid()
    modifies program, rng
    ensures program.Valid()
    ensures r == Some(true) ==> program.encodingsMayBeInvalid
    ensures r == Some(false) ==> unchanged(program)
    ensures r == Some(true) ==>
              && a < |old(program.instructions)| && b < |old(program.instructions)| && a != b
              && program.instructions ==
                   old(program.instructions)[a := old(program.instructions)[b]][b := old(program.instructions)[a]]
    ensures r != Some(true) ==> program.instructions == old(program.instructions)
    ensures r == Some(false) <==> |old(program.instructions)| < 2
    ensures r == Some(true) ==> TookApart(old(rng.draws), rng.draws, |old(program.instructions)|, a, b)
  {
    a, b := 0, 0;
    var n := |program.instructions|;
    if n < 2 {
      return Some(false), a, b;
    }
    var pair :- DistinctIndexes(rng, n);
    var (i, j) := pair;
    var first, second := program.instructions[i], program.instructions[j];
    SwapFits(program.arch, program.instructions, i, j);
    program.SetInstructionBlock(i, [second]);
    program.SetInstructionBlock(j, [first]);
    return Some(true), i, j;
  }

  // A chunk of another program, where it came from and where it goes.
  datatype Chunk = Chunk(src: nat, dst: nat, steal: bool, block: seq<Instruction>)

  ghost predicate ChunkOk(arch: Arch, from: seq<Instruction>, chunk: Chunk, numBoundaries: nat) {
    && chunk.block != []
    && AllFit(arch, chunk.block, numBoundaries)
    && Copied(from, chunk.src, chunk.dst, numBoundaries, chunk.block)
  }

  // The draws chose the size and start of the chunk in a program of `m` instructions, its place in one of `n`,
  // and whether it takes over the branches to that place.
  ghost predicate CrossInsertDrawn(was: seq<nat>, now: seq<nat>, m: nat, n: nat, chunk: Chunk) {
    && m > 0 && |now| + 4 <= |was| && Rest(was, now)
    && ChunkDrawn(was, m, m, |chunk.block|, chunk.src)
    && chunk.dst == was[2] % (n + 1) && chunk.steal == (was[|was| - |now| - 1] % 2 == 1)
  }

  // The draws chose the size, at most half of `n` but not 0, and the start of the chunk, and its place.
  ghost predicate CrossOverwriteDrawn(was: seq<nat>, now: seq<nat>, m: nat, n: nat, chunk: Chunk) {
    && m > 0 && |now| + 3 <= |was| && Rest(was, now) && |chunk.block| <= n
    && ChunkDrawn(was, if n < 2 then 1 else if n / 2 < m then n / 2 else m, m, |chunk.block|, chunk.src)
    && chunk.dst == was[2] % (n - |chunk.block| + 1)
  }

  // A random chunk for a random boundary of a program of `n` instructions.
  method ChunkToInsert(rng: MutatorRng, arch: Arch, from: seq<Instruction>, n: nat) returns (r: Option<Chunk>)
    requires from != [] && AllTargeted(from) && AllFaithful(arch, from)
    modifies rng
    ensures r.Some? ==> r.value.dst <= n && ChunkOk(arch, from, r.value, n + |r.value.block| + 1)
    ensures r.Some? ==> CrossInsertDrawn(old(rng.draws), rng.draws, |from|, n, r.value)
  {
    var chunk :- RandomChunk(rng, |from|, |from|);
    var (size, src) := chunk;
    var dst :- rng.RandomIndex(n + 1);
    var block :- ShiftOrRandomizeBlock(rng, arch, from, src, size, dst, n + size + 1);
    var steal :- rng.RandomIndex(2);
    return Some(Chunk(src, dst, steal == 1, block));
  }

  // A random chunk of at most half of a program of `n` instructions.
  method ChunkToOverwrite(rng: MutatorRng, arch: Arch, from: seq<Instruction>, n: nat) returns (r: Option<Chunk>)
    requires n > 0 && from != [] && AllTargeted(from) && AllFaithful(arch, from)
    modifies rng
    ensures r.Some? ==> r.value.dst + |r.value.block| <= n && ChunkOk(arch, from, r.value, n + 1)
    ensures r.Some? ==> |r.value.block| == 1 || 2 * |r.value.block| <= n
    ensures r.Some? ==> CrossOverwriteDrawn(old(rng.draws), rng.draws, |from|, n, r.value)
  {
    var half := if n / 2 < 1 then 1 else n / 2;
    var chunk :- RandomChunk(rng, if half < |from| then half else |from|, |from|);
    var (size, src) := chunk;
    var dst :- rng.RandomIndex(n - size + 1);
    var block :- ShiftOrRandomizeBlock(rng, arch, from, src, size, dst, n + 1);
    return Some(Chunk(src, dst, false, block));
  }

  // Copies a random chunk of the other program to a random boundary.
  method CrossoverInsert(rng: MutatorRng, program: Program, other: Program)
    returns (r: Option<bool>, ghost edit: Edit, ghost src: nat)
    requires program.Valid() && other.Valid() && program.arch == other.arch
    modifies program, rng
    ensures program.Valid()
    ensures r == Some(true) ==> program.encodingsMayBeInvalid
    ensures r == Some(false) ==> unchanged(program)
    ensures Did(old(program.instructions), edit, program.instructions)
    ensures if r == Some(true) then edit.Insert? && edit.block != [] else edit.NoEdit?
    ensures r == Some(true) ==> Copied(old(other.instructions), src, edit.at,
                                       |old(program.instructions)| + |edit.block| + 1, edit.block)
    ensures r == Some(false) <==> old(other.instructions) == []
    ensures r == Some(true) ==>
              CrossInsertDrawn(old(rng.draws), rng.draws, |old(other.instructions)|, |old(program.instructions)|,
                               Chunk(src, edit.at, edit.steal, edit.block))
  {
    edit, src := NoEdit, 0;
    // The copy is needed because the programs can be the same.
    var from := other.instructions;
    if |from| == 0 {
      return Some(false), edit, src;
    }
    var chunk :- ChunkToInsert(rng, program.arch, from, |program.instructions|);
    edit, src := Insert(chunk.dst, chunk.steal, chunk.block), chunk.src;
    assert Copied(from, src, edit.at, |program.instructions| + |edit.block| + 1, edit.block);
    program.InsertInstructionBlock(chunk.dst, chunk.steal, chunk.block);
    r := Some(true);
  }

  // Copies a random chunk of the other program over at most half of this one.
  method CrossoverOverwrite(rng: MutatorRng, program: Program, other: Program)
    returns (r: Option<bool>, ghost edit: Edit, ghost src: nat)
    requires program.Valid() && other.Valid() && program.arch == other.arch
    modifies program, rng
    ensures program.Valid()
    ensures r == Some(true) ==> program.encodingsMayBeInvalid
    ensures r == Some(false) ==> unchanged(program)
    ensures Did(old(program.instructions), edit, program.instructions)
    ensures if r == Some(true) then edit.Overwrite? && edit.block != [] else edit.NoEdit?
    ensures r == Some(true) ==> Copied(old(other.instructions), src, edit.at,
                                       |old(program.instructions)| + 1, edit.block)
    ensures r == Some(true) ==> |edit.block| == 1 || 2 * |edit.block| <= |old(program.instructions)|
    ensures r == Some(false) <==> old(program.instructions) == [] || old(other.instructions) == []
    ensures r == Some(true) ==>
              CrossOverwriteDrawn(old(rng.draws), rng.draws, |old(other.instructions)|, |old(program.instructions)|,
                                  Chunk(src, edit.at, false, edit.block))
  {
    edit, src := NoEdit, 0;
    var from := other.instructions;
    if |program.instructions| == 0 || |from| == 0 {
      return Some(false), edit, src;
    }
    var chunk :- ChunkToOverwrite(rng, program.arch, from, |program.instructions|);
    edit, src := Overwrite(chunk.dst, chunk.block), chunk.src;
    program.SetInstructionBlock(chunk.dst, chunk.block);
    r := Some(true);
  }

  // A mutation policy: the operators, and ways to combine them.
  datatype Mutator =
    | InsertGenerated
    | MutateOne
    | Delete(minimum: nat)
    | Swap
    | CrossInsert
    | CrossOverwrite
    // Retries up to `limit` times, until the mutation succeeds.
    | Retry(limit: nat, child: Mutator)
    // Repeats a random number of times below `choices`.
    | Repeat(choices: nat, child: Mutator)
    // Picks one of several mutators.
    | Select(children: seq<Mutator>)

  ghost predicate WellFormed(m: Mutator) {
    match m
    case Retry(_, child) => WellFormed(child)
    case Repeat(choices, child) => choices > 0 && WellFormed(child)
    case Select(children) => children != [] && forall c :: c in children ==> WellFormed(c)
    case _ => true
  }

  ghost predicate OneInserted(was: seq<Instruction>, now: seq<Instruction>) {
    exists edit: Edit :: Did(was, edit, now) && edit.Insert? && |edit.block| == 1
  }

  ghost predicate OneReplaced(was: seq<Instruction>, now: seq<Instruction>) {
    exists edit: Edit :: Did(was, edit, now) && edit.Overwrite? && |edit.block| == 1
  }

  ghost predicate OneRemoved(was: seq<Instruction>, now: seq<Instruction>) {
    exists edit: Edit :: Did(was, edit, now) && edit.Remove?
  }

  ghost predicate TwoSwapped(was: seq<Instruction>, now: seq<Instruction>) {
    exists a: nat, b: nat {:trigger Swapped(was, now, a, b)} :: Swapped(was, now, a, b)
  }

  ghost predicate Swapped(was: seq<Instruction>, now: seq<Instruction>, a: nat, b: nat) {
    a < |was| && b < |was| && a != b && now == was[a := was[b]][b := was[a]]
  }

  // A chunk of `from`, starting at `src`, was inserted, or overwrote at most half of the program.
  ghost predicate ChunkInserted(from: seq<Instruction>, was: seq<Instruction>, now: seq<Instruction>, edit: Edit,
                                src: nat)
  {
    && Did(was, edit, now) && edit.Insert? && edit.block != []
    && Copied(from, src, edit.at, |was| + |edit.block| + 1, edit.block)
  }

  ghost predicate ChunkWritten(from: seq<Instruction>, was: seq<Instruction>, now: seq<Instruction>, edit: Edit,
                               src: nat)
  {
    && Did(was, edit, now) && edit.Overwrite? && edit.block != []
    && (|edit.block| == 1 || 2 * |edit.block| <= |was|)
    && Copied(from, src, edit.at, |was| + 1, edit.block)
  }

  // What an operator makes of a program, with instructions to copy `from`.  A failure changes nothing.
  ghost predicate Operated(m: Mutator, from: seq<Instruction>, was: seq<Instruction>, now: seq<Instruction>, ok: bool) {
    && (!ok ==> now == was)
    && match m
       case InsertGenerated => ok ==> OneInserted(was, now)
       case MutateOne => (ok ==> OneReplaced(was, now)) && (was == [] ==> !ok)
       case Delete(minimum) => (ok <==> |was| > minimum) && (ok ==> OneRemoved(was, now))
       case Swap => (ok <==> |was| >= 2) && (ok ==> TwoSwapped(was, now))
       case CrossInsert =>
         (ok <==> from != []) && (ok ==> exists edit: Edit, src: nat :: ChunkInserted(from, was, now, edit, src))
       case CrossOverwrite =>
         && (ok <==> was != [] && from != [])
         && (ok ==> exists edit: Edit, src: nat :: ChunkWritten(from, was, now, edit, src))
       case _ => true
  }

  // What a policy makes of a program.  `other` is the other program, or None if it is the same one.
  ghost predicate Ran(m: Mutator, other: Option<seq<Instruction>>, was: seq<Instruction>, now: seq<Instruction>,
                      ok: bool)
    decreases m, 0
  {
    match m
    case Retry(limit, child) =>
      if ok then limit > 0 && Ran(child, other, was, now, true)
      else now == was && (limit > 0 ==> Ran(child, other, was, was, false))
    case Repeat(choices, child) =>
      exists n: nat :: n < choices && RanTimes(child, other, was, now, ok, n)
    case Select(children) =>
      exists i: nat :: i < |children| && Ran(children[i], other, was, now, ok)
    case _ =>
      Operated(m, if other.Some? then other.value else was, was, now, ok)
  }

  // The same, `n` times: it succeeds if one of them does.
  ghost predicate RanTimes(m: Mutator, other: Option<seq<Instruction>>, was: seq<Instruction>, now: seq<Instruction>,
                           ok: bool, n: nat)
    decreases m, 2 * n + 1
  {
    if n == 0 then now == was && !ok
    else
      exists mid: seq<Instruction>, before: bool, last: bool ::
        RanThen(m, other, was, mid, now, before, last, n) && ok == (before || last)
  }

  // `n - 1` times, and then once more.
  ghost predicate RanThen(m: Mutator, other: Option<seq<Instruction>>, was: seq<Instruction>, mid: seq<Instruction>,
                          now: seq<Instruction>, before: bool, last: bool, n: nat)
    requires n > 0
    decreases m, 2 * n
  {
    RanTimes(m, other, was, mid, before, n - 1) && Ran(m, other, mid, now, last)
  }

  // A policy made of removals with the same minimum.
  ghost predicate OnlyDeletes(m: Mutator, minimum: nat) {
    match m
    case Delete(min) => min == minimum
    case Retry(_, child) => OnlyDeletes(child, minimum)
    case Repeat(_, child) => OnlyDeletes(child, minimum)
    case Select(children) => forall c :: c in children ==> OnlyDeletes(c, minimum)
    case _ => false
  }

  // Such a policy never goes below the minimum, however it combines and repeats the removals.
  lemma {:induction false} MinimumKept(m: Mutator, minimum: nat, other: Option<seq<Instruction>>, was: seq<Instruction>,
                                       now: seq<Instruction>, ok: bool)
    requires OnlyDeletes(m, minimum) && Ran(m, other, was, now, ok)
    ensures |now| <= |was| && (|was| >= minimum ==> |now| >= minimum) && (|was| <= minimum ==> now == was)
    ensures ok ==> |now| < |was|
    decreases m, 0
  {
    match m
    case Retry(limit, child) =>
      if ok { MinimumKept(child, minimum, other, was, now, true); }
    case Repeat(choices, child) =>
      var n: nat :| n < choices && RanTimes(child, other, was, now, ok, n);
      MinimumKeptTimes(child, minimum, other, was, now, ok, n);
    case Select(children) =>
      var i: nat :| i < |children| && Ran(children[i], other, was, now, ok);
      MinimumKept(children[i], minimum, other, was, now, ok);
    case _ =>
  }

  lemma {:induction false} MinimumKeptTimes(m: Mutator, minimum: nat, other: Option<seq<Instruction>>,
                                            was: seq<Instruction>, now: seq<Instruction>, ok: bool, n: nat)
    requires OnlyDeletes(m, minimum) && RanTimes(m, other, was, now, ok, n)
    ensures |now| <= |was| && (|was| >= minimum ==> |now| >= minimum) && (|was| <= minimum ==> now == was)
    ensures ok ==> |now| < |was|
    decreases m, n + 1
  {
    if n > 0 {
      var mid: seq<Instruction>, before: bool, last: bool :|
        RanThen(m, other, was, mid, now, before, last, n) && ok == (before || last);
      MinimumKeptTimes(m, minimum, other, was, mid, before, n - 1);
      MinimumKept(m, minimum, other, mid, now, last);
    }
  }

  // The invariant of all mutations: consistent, and made of instructions that decode.
  ghost predicate Sound(program: Program)
    reads program
  {
    program.Valid() && (Reparsable(program.arch) ==> program.IsClean(DEFAULT_CONFIG))
  }

  lemma EditClean(arch: Arch, insns: seq<Instruction>, edit: Edit)
    requires Applies(insns, edit) && AllClean(arch, DEFAULT_CONFIG, insns)
    requires edit.Insert? || edit.Overwrite? ==> AllClean(arch, DEFAULT_CONFIG, edit.block)
    ensures AllClean(arch, DEFAULT_CONFIG, Edited(insns, edit))
  {
    match edit
    case NoEdit =>
    case Insert(at, steal, block) => InsertedClean(arch, DEFAULT_CONFIG, insns, at, steal, block);
    case Remove(at) => RemovedClean(arch, DEFAULT_CONFIG, insns, at);
    case Overwrite(at, block) => OverwrittenClean(arch, DEFAULT_CONFIG, insns, at, block);
  }

  method InsertOne(rng: MutatorRng, program: Program) returns (r: Option<bool>)
    requires Sound(program)
    modifies program, rng
    ensures Sound(program)
    ensures r == Some(true) ==> program.encodingsMayBeInvalid
    ensures r == Some(false) ==> unchanged(program)
    ensures r.Some? ==> Operated(InsertGenerated, [], old(program.instructions), program.instructions, r.value)
    ensures r.Some? ==> |rng.draws| < |old(rng.draws)|
  {
    ghost var was := program.instructions;
    ghost var edit;
    r, edit := InsertGeneratedInstruction(rng, program);
    assert Did(was, edit, program.instructions);
    if Reparsable(program.arch) {
      EditClean(program.arch, was, edit);
    }
  }

  method ModifyOne(rng: MutatorRng, program: Program) returns (r: Option<bool>)
    requires Sound(program)
    modifies program, rng
    ensures Sound(program)
    ensures r == Some(true) ==> program.encodingsMayBeInvalid
    ensures r == Some(false) ==> unchanged(program)
    ensures r.Some? ==> Operated(MutateOne, [], old(program.instructions), program.instructions, r.value)
  {
    ghost var was := program.instructions;
    ghost var edit;
    r, edit := MutateInstruction(rng, program);
    assert Did(was, edit, program.instructions);
    if Reparsable(program.arch) {
      EditClean(program.arch, was, edit);
    }
  }

  method DeleteOne(rng: MutatorRng, program: Program, minimum: nat) returns (r: Option<bool>)
    requires Sound(program)
    modifies program, rng
    ensures Sound(program)
    ensures r == Some(true) ==> program.encodingsMayBeInvalid
    ensures r == Some(false) ==> unchanged(program)
    ensures r.Some? ==> Operated(Delete(minimum), [], old(program.instructions), program.instructions, r.value)
    ensures r.Some? && |old(program.instructions)| > minimum ==>
              |program.instructions| == |old(program.instructions)| - 1
  {
    ghost var was := program.instructions;
    ghost var edit;
    r, edit := DeleteInstruction(rng, program, minimum);
    assert Did(was, edit, program.instructions);
    assert r.Some? ==> r == Some(r.value);
    if Reparsable(program.arch) {
      EditClean(program.arch, was, edit);
    }
  }

  lemma SwapClean(arch: Arch, insns: seq<Instruction>, i: nat, j: nat)
    requires i < |insns| && j < |insns| && AllClean(arch, DEFAULT_CONFIG, insns)
    ensures AllClean(arch, DEFAULT_CONFIG, insns[i := insns[j]][j := insns[i]])
  {
  }

  method SwapTwo(rng: MutatorRng, program: Program) returns (r: Option<bool>)
    requires Sound(program)
    modifies program, rng
    ensures Sound(program)
    ensures r == Some(true) ==> program.encodingsMayBeInvalid
    ensures r == Some(false) ==> unchanged(program)
    ensures r.Some? ==> Operated(Swap, [], old(program.instructions), program.instructions, r.value)
  {
    ghost var was := program.instructions;
    ghost var a, b;
    r, a, b := SwapInstructions(rng, program);
    assert r == Some(true) ==> Swapped(was, program.instructions, a, b);
    if Reparsable(program.arch) && r == Some(true) {
      SwapClean(program.arch, was, a, b);
    }
  }

  // One of the operators that copy from another program.
  method Cross(m: Mutator, rng: MutatorRng, program: Program, other: Program) returns (r: Option<bool>)
    requires m.CrossInsert? || m.CrossOverwrite?
    requires Sound(program) && Sound(other) && program.arch == other.arch
    modifies program, rng
    ensures Sound(program)
    ensures r == Some(true) ==> program.encodingsMayBeInvalid
    ensures r == Some(false) ==> unchanged(program)
    ensures r.Some? ==> Operated(m, old(other.instructions), old(program.instructions), program.instructions, r.value)
  {
    ghost var was, from, n := program.instructions, other.instructions, |program.instructions|;
    ghost var edit, src;
    if m.CrossInsert? {
      r, edit, src := CrossoverInsert(rng, program, other);
      n := n + |if edit.Insert? then edit.block else []|;
      assert r == Some(true) ==> ChunkInserted(from, was, program.instructions, edit, src);
    } else {
      r, edit, src := CrossoverOverwrite(rng, program, other);
      assert r == Some(true) ==> ChunkWritten(from, was, program.instructions, edit, src);
    }
    if Reparsable(program.arch) {
      if r == Some(true) {
        CopiedClean(program.arch, DEFAULT_CONFIG, from, src, edit.at, n + 1, edit.block);
      }
      EditClean(program.arch, was, edit);
    }
  }

  // The instructions of the other program, unless it is the same one.
  ghost function OtherOf(program: Program, other: Program): Option<seq<Instruction>>
    reads other
  {
    if program == other then None else Some(other.instructions)
  }

  // Runs a policy.  Whatever the policy, the draws and the other program, the program stays sound, and
  // is what the operators of the policy make of it.  A success leaves it in need of a fixup, and a
  // failure leaves it as it was.
  method Mutate(m: Mutator, rng: MutatorRng, program: Program, other: Program) returns (r: Option<bool>)
    requires WellFormed(m)
    requires Sound(program) && Sound(other) && program.arch == other.arch
    modifies program, rng
    ensures Sound(program)
    ensures r == Some(true) ==> program.encodingsMayBeInvalid
    ensures r == Some(false) ==> unchanged(program)
    ensures r.Some? ==> Ran(m, old(OtherOf(program, other)), old(program.instructions), program.instructions, r.value)
    // A draw chooses one of several policies, or how often one is repeated.
    ensures r.Some? && m.Select? ==>
              && old(rng.draws) != []
              && Ran(m.children[old(rng.draws)[0] % |m.children|], old(OtherOf(program, other)),
                     old(program.instructions), program.instructions, r.value)
    ensures r.Some? && m.Repeat? ==>
              && old(rng.draws) != []
              && RanTimes(m.child, old(OtherOf(program, other)), old(program.instructions), program.instructions,
                          r.value, old(rng.draws)[0] % m.choices)
    decreases m, 0
  {
    match m
    case Retry(limit, child) =>
      for i := 0 to limit
        invariant Sound(program) && Sound(other) && unchanged(program)
        invariant i > 0 ==> Ran(child, old(OtherOf(program, other)), program.instructions, program.instructions, false)
      {
        var success :- Mutate(child, rng, program, other);
        if success {
          return Some(true);
        }
      }
      return Some(false);
    case Repeat(choices, child) =>
      var count :- rng.RandomIndex(choices);
      r := MutateTimes(child, rng, program, other, count);
    case Select(children) =>
      var which :- rng.RandomIndex(|children|);
      r := Mutate(children[which], rng, program, other);
    case CrossInsert =>
      r := Cross(m, rng, program, other);
    case CrossOverwrite =>
      r := Cross(m, rng, program, other);
    case Swap =>
      r := SwapTwo(rng, program);
    case InsertGenerated =>
      r := InsertOne(rng, program);
    case MutateOne =>
      r := ModifyOne(rng, program);
    case Delete(minimum) =>
      r := DeleteOne(rng, program, minimum);
  }

  method MutateTimes(m: Mutator, rng: MutatorRng, program: Program, other: Program, count: nat)
    returns (r: Option<bool>)
    requires WellFormed(m)
    requires Sound(program) && Sound(other) && program.arch == other.arch
    modifies program, rng
    ensures Sound(program)
    ensures r == Some(true) ==> program.encodingsMayBeInvalid
    ensures r == Some(false) ==> unchanged(program)
    ensures r.Some? ==>
              RanTimes(m, old(OtherOf(program, other)), old(program.instructions), program.instructions, r.value, count)
    decreases m, 1
  {
    var mutated := false;
    ghost var from, was := OtherOf(program, other), program.instructions;
    for i := 0 to count
      invariant Sound(program) && Sound(other) && OtherOf(program, other) == from
      invariant if mutated then program.encodingsMayBeInvalid else unchanged(program)
      invariant RanTimes(m, from, was, program.instructions, mutated, i)
    {
      ghost var mid, before := program.instructions, mutated;
      var success :- Mutate(m, rng, program, other);
      RanOnce(m, from, was, mid, program.instructions, before, success, i);
      mutated := mutated || success;
    }
    return Some(mutated);
  }

  lemma RanOnce(m: Mutator, other: Option<seq<Instruction>>, was: seq<Instruction>, mid: seq<Instruction>,
                now: seq<Instruction>, before: bool, last: bool, n: nat)
    requires RanTimes(m, other, was, mid, before, n) && Ran(m, other, mid, now, last)
    ensures RanTimes(m, other, was, now, before || last, n + 1)
  {
    assert RanThen(m, other, was, mid, now, before, last, n + 1);
  }
}
