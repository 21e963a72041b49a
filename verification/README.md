# SiliFuzz in Dafny

SiliFuzz finds defective CPUs. It mutates machine programs, turns them into snapshots of memory and
registers, and replays the snapshots on many cores. This project models four parts of it and proves
what they promise.

**The relocating program editor** (`Isa`, `Layout`, `Fixup`, `Edits`, `Parsing`, `Program`, `Reader`,
`Mutations`, `Mutators`, `BatchMutator`, `AArch64`, `X86`, `Roundtrip`). A program is a list of instructions whose
branches have a symbolic target and an encoded displacement. Edits let the two drift apart; the fixup
brings them together again, although re-encoding a branch can change its size and so move other
targets. Main results: after a fixup every displacement, recorded and encoded, is exact, for every
random stream; the fixup makes at most one pass more than there are instructions; the bytes of a
fixed up program always read back strictly, as the same program exactly when no branch reaches the limit
of the reader, and need no second fixup; edits keep branch targets; every mutation policy keeps programs consistent and makes of them what
its operators and the draws say; and the finalized output fits its length, is cut only where it was too
long, and reads back.

**Memory maps, state and deltas** (`Memory`, `RangeMap`, `MappedMemoryMap`, `DeltaBytes`,
`DeltaMappings`, `MemoryState`, `PermissionSets`). A range map stores the longest ranges of equal values. Main results:
changing a range by splitting and merging around it only gives the unique canonical list of ranges of
the map that was changed address by address; the byte delta is the unique minimal one and has the
effect of writing everything; the mapping commands lead exactly to the memory of the snapshot, and no
command is without effect anywhere; and the start of a snapshot and the bytes of an end state give
that end state.

**Snapshots** (`Normalize`, `SnapshotState`, `SnapshotGuards`, `Snapshot`, `SplitBytes`, `Platforms`,
`SnapshotMeaning`, `Proto`, `ProtoReader`, `ProtoMeaning`, `ProtoRoundTrip`, `NormalizedRoundTrip`). Guarded
operations keep several views of the memory consistent. Main results: every run of guarded operations does, and
leaves a snapshot that can be started and whose end states fit its memory; a protocol buffer is accepted exactly
if it says, field by field, what some readable snapshot is, and that one is read; a fault whose negative mapping was
added is known at every 64-bit address; the normal form of bytes is canonical; after normalization the
bytes split over the mappings without loss; and a complete snapshot survives the way through a
protocol buffer exactly when its end states are distinct and avoid the last platform, and its origin
string is used; and a normalized one exactly when no two of its end states had the same data before.

**The orchestrator and the snapshot maker** (`Orchestrator`, `SnapMaker`). Main results: in every
interleaving, each accepted result reaches the callback exactly once and in order, and the run stops exactly
if a worker ended, a signal came or a result reached the limit on errors; and the making loop adds exactly the missing memory and runs the runner a bounded number of times.

## How things are modelled

- The random number generator is a supply of arbitrary draws. A choice below `n` is a draw modulo `n`,
  so every choice is covered. A method gives `None` when the supply ends while it is still asking; what
  it promises otherwise holds for every stream.
- An architecture is a record of decoding and re-encoding functions with laws (`Isa.Lawful`,
  `Isa.Reparsable`). The AArch64 record is concrete, with instruction words as naturals below 2^32. The
  x86 record is built on an encoder library of which only a contract is known (`X86.XedContract`): it
  canonicalizes, so that the size of a branch changes at most once.
- Memory is a finite map from addresses to values. The joins of permissions over a range are stated by
  quantifiers over its addresses.
- Status errors and failed checks are `None` or `false`. Checks that the source makes of its callers
  are preconditions.
- The register formats are two functions (`SnapshotState.Codec`), the disassembler of the AArch64
  decoder is a predicate on words, and the runner and the preparation of a snapshot for it are
  functions. All of them are arbitrary but for the stated contracts.
- The queue protocol is a set of atomic actions, because the source guards the queue by a mutex and
  calls the callback from the main thread only.
- Numbers are unbounded. The 64-bit edge of addresses is explicit: the largest address is a limit only.

## Findings

- A program does not read back as itself after a fixup if the new displacement of a branch is beyond the
  reader's limit (fuzzer/program_aarch64.cc:123-139, fuzzer/program_x86_64.cc:40-53): the reader then
  takes the branch for an instruction without a target. `Parsing.FixedUpRoundTrip` has the exact
  condition, and what is read otherwise; `Roundtrip.BranchBeyondLimit` is an input. No code of the
  repository lowers the limit, and the default one (fuzzer/program.h:103-114) is never reached.
- `DeltaMemoryBytes` of a list needs its elements to be disjoint, as the source requires
  (common/memory_state.h:254-256): `DeltaBytes.OverlapBreaksDelta` is an input where an overlap changes
  the effect.
- Normalizing bytes can make two distinct end states equal, and the snapshot can then not be read back
  (common/snapshot.cc:769-774). `NormalizedRoundTrip.NormalizedRoundTrip` has the exact condition on the
  snapshot before the call: no two end states differ only in how their bytes are cut into pieces.
  `NormalizedRoundTrip.NormalizingLosesSnapshot` is an input.

## Model

| member | source | states |
|---|---|---|
| Fixup.SyncByteDisplacement | fuzzer/program.cc:157-173 | the recorded displacement becomes offset of the target minus own offset, and the result tells whether it was different |
| Fixup.TryToReencode | fuzzer/program_arch.h:40-49 | whether or not it succeeds, only the bytes change, and they are the same branch, which no later attempt resizes; it succeeds if and only if the bytes then hold the recorded displacement |
| Fixup.RetryTargets | fuzzer/program.cc:206-216 | the target is the first of the drawn boundaries that can be encoded, at the latest the branch's own; it fails exactly if none of all the draws can be |
| Fixup.Resync | fuzzer/program.cc:198-217 | a branch leaves with the displacement its target asks for, in its bytes too; a target that can be encoded is kept without a draw, and another one is the last draw; it takes at most one round of draws in which every boundary is selected |
| Fixup.FixupInvariants | fuzzer/program.cc:67-74 | all offsets are recalculated as prefix sums of sizes, and the length as the total |
| Fixup.FixupPass | fuzzer/program.cc:189-222 | a pass is stable if and only if no size changed in it, and reports a modification if and only if the program was out of sync |
| Fixup.PassResult | fuzzer/program.cc:189-225 | a pass that changed no size leaves every branch in sync |
| Fixup.PassShrinks | fuzzer/program.cc:191-225 | a pass that changed a size leaves fewer branches that are not canonical |
| ProgramEditor.FixupAll | fuzzer/program.cc:181-229 | ends in sync for every stream of draws, after at most one pass more than there are instructions; reports a modification if and only if the program was out of sync; keeps all targets if every displacement can be encoded; n (n + 1) rounds of draws that select every boundary are always enough for n instructions |
| Rng.UsedRound | fuzzer/program.cc:206-216 | waiting for a draw that selects an index takes at most one round in which all indices are selected |
| ProgramEditor.Program.FixupEncodedDisplacements | fuzzer/program.cc:181-229 | offsets are exact, the length is the total, every displacement is exact in the record and in the bytes, and instructions are only rewritten in their displacement |
| ProgramEditor.Program.CheckConsistency | fuzzer/program.cc:45-64 | the check holds if and only if exactly the branches have targets, those are boundaries, and the length is the sum of sizes |
| ProgramEditor.Program.SetInstructionBlock | fuzzer/program.cc:276-295 | the block replaces the instructions at the index and the length follows; consistency is kept |
| ProgramEditor.Program.AdjustInstructionIndexes | fuzzer/program.cc:298-311 | exactly the targets at or after the boundary are moved |
| ProgramEditor.Program.InsertInstructionBlock | fuzzer/program.cc:314-343 | the block is inserted at the boundary, with or without stealing the branches to it; consistency is kept |
| ProgramEditor.Program.RemoveInstruction | fuzzer/program.cc:346-363 | the instruction is removed and later targets move down; consistency is kept |
| ProgramEditor.Program.ToBytes | fuzzer/program.cc:366-374 | the output is the concatenation of the encodings, and its size is the recorded length |
| Edits.InsertKeepsTargets | fuzzer/program.cc:298-343 | an insert leaves every old branch on the same instruction, except that a stealing one redirects exactly the branches to the boundary to the block |
| Edits.RemoveKeepsTargets | fuzzer/program.cc:346-363 | a removal moves branches to the removed instruction to its successor, and no others |
| Edits.RemoveUndoesInsert | fuzzer/program.cc:298-363 | removing an inserted block, instruction by instruction, restores all instructions and targets, in both modes |
| Edits.UndoInsert | fuzzer/program.cc:298-363 | the same for the operations as called, with the offsets that they recalculate |
| Edits.CrossoverKeepsBlockBranches | fuzzer/program_mutation_ops.h:190-223 | branches within a copied block lead to the same instruction of the copy |
| Edits.InsertConsistent | fuzzer/program.cc:314-343 | an insert of fitting instructions keeps all targets and encodings consistent |
| Edits.RemoveConsistent | fuzzer/program.cc:346-363 | so does a removal |
| Edits.OverwriteConsistent | fuzzer/program.cc:276-295 | so does an overwrite |
| Reader.DecodeAll | fuzzer/program.cc:237-266 | strict reading fails exactly if an instruction is rejected, and otherwise the accepted instructions come out in order |
| Reader.FindClosestInstructionBoundary | fuzzer/program.cc:77-90 | the result is the first of the closest boundaries, end included |
| Parsing.ClosestIsClosest | fuzzer/program.cc:77-90 | no boundary is closer than it, and every earlier one is farther |
| Reader.ResolveDisplacements | fuzzer/program.cc:107-154 | every displacement gets the closest boundary; strict mode fails exactly if one misses its boundary |
| Reader.Parse | fuzzer/program.cc:237-273 | reading gives the denoted program, consistent and laid out; the instructions are those found by walking over the bytes; strict reading fails exactly on a rejected instruction or an inexact target |
| Parsing.WalkFinds | fuzzer/program.cc:242-264 | a walk starts at 0, goes on by the size of an accepted instruction, of a rejected one, or by the smallest size if that is unknown, and ends at the end; the instructions read are those accepted on it, in order |
| Parsing.WalkUnique | fuzzer/program.cc:242-264 | there is exactly one walk over the bytes |
| Parsing.ClosestUnique | fuzzer/program.cc:77-121 | sizes are positive, so the boundary at an offset is unique and is the closest |
| Parsing.RoundTrip | fuzzer/program.cc:236-273 | the bytes of a clean program in sync read back strictly as the same instructions, targets and offsets |
| Parsing.FixedUpRoundTrip | fuzzer/program.cc:236-273 | after a fixup a program always reads back strictly: each branch within the reader's limit with its target, and each one beyond it as an instruction without a target; it reads back as itself if and only if no branch is beyond the limit |
| Roundtrip.BranchBeyondLimit | fuzzer/program_aarch64.cc:123-139 | an AArch64 program and an insert after which a limit of 8 makes the reader lose the branch |
| Parsing.DefaultRoundTrip | fuzzer/program.h:103-114 | with the default limit it always reads back |
| Parsing.ParsedEncodings | fuzzer/program.cc:236-273 | whatever the limit, the instructions read back have the same bytes |
| Roundtrip.TwoRoundTrips | fuzzer/program_mutator_fuzz_test.cc:53-93 | for all bytes and draws: what is read, fixed up and written reads back strictly, needs no second fixup, and is written again unchanged; it is no longer than the input if all instructions have one size |
| Roundtrip.AArch64RoundTrips | fuzzer/program_mutator_fuzz_test.cc:100-103 | the same on AArch64, where inputs of up to 32 KiB need no draw at all |
| AArch64.ExtractIsSignedField | fuzzer/program_aarch64.cc:97-106 | the shifts extract four times the signed value of the field |
| AArch64.RewriteExchangesField | fuzzer/program_aarch64.cc:108-116 | the disjunction of the masked word and the masked displacement exchanges the field, arithmetically |
| AArch64.RewriteReplacesField | fuzzer/program_aarch64.cc:108-116 | so exactly the field is replaced, all other bits stay |
| Bits.Merged | fuzzer/program_aarch64.cc:114-115 | for any mask, taking its bits from one word and the others from another is a subtraction and an addition |
| AArch64.EncodableIff | fuzzer/program_aarch64.cc:191-210 | re-encoding succeeds if and only if the displacement is a multiple of 4 within the signed range of the field |
| AArch64.DisplacementIs | fuzzer/program_aarch64.cc:42-106 | for all four bytes: the displacement is four times the signed value of the 26 bits from bit 0, or of the 19 or 14 bits from bit 5, by the kind of branch, which is given by its leading bits |
| AArch64.ReencodeIs | fuzzer/program_aarch64.cc:108-210 | for all four bytes: only the bits of that field change, to the displacement divided by four, and it succeeds exactly for multiples of 4 in [-2^27, 2^27), [-2^20, 2^20) or [-2^15, 2^15) |
| AArch64.DecodeIs | fuzzer/program_aarch64.cc:123-189 | an instruction is accepted exactly if it disassembles and passes the filter, where asked for, and has a displacement exactly if it is nearer than the limit |
| AArch64.RewriteKeepsForm | fuzzer/program_aarch64.cc:42-116 | a rewritten branch is matched by the same entry of the branch table |
| AArch64.RewriteTwice | fuzzer/program_aarch64.cc:108-116 | rewriting forgets the displacement that was there |
| AArch64.BranchesPassFilter | instruction/static_insn_filter.cc:602-627 | no direct branch is rejected by the filter, whatever its displacement and the configuration |
| InsnFilter.BranchGroupIsOk | instruction/static_insn_filter.cc:602-627 | no table of the filter touches the encoding group of branches |
| AArch64.SystemRegistersAllowed | instruction/static_insn_filter.cc:552-627 | a move to or from a system register passes the filter only for NZCV, FPCR, FPSR, TPIDR_EL0 and TPIDRRO_EL0 |
| Roundtrip.StrictPassesFilter | instruction/static_insn_filter.cc:634-647 | bytes that are read strictly, such as every AArch64 output of the mutator, are whole words that all disassemble and pass the filter |
| AArch64.InstanceLawful | fuzzer/program_aarch64.cc:123-210 | the decoder and re-encoder obey the laws of the editor; a branch to itself is always encodable |
| AArch64.InstanceReaches | fuzzer/program_aarch64.cc:42-95 | all aligned displacements up to 0x7FFC can be encoded in every form, so short programs keep all targets |
| AArch64.InstanceReparsable | fuzzer/program_aarch64.cc:146-189 | a re-encoded branch is accepted by the decoder again, if the disassembler ignores displacements |
| X86.ReencodeIsCanonical | fuzzer/program_x86_64.cc:146-188 | re-encoding twice gives the canonical encoding, and succeeds if and only if that can hold the displacement |
| X86.DecodeIs | fuzzer/program_x86_64.cc:40-144 | an instruction is rejected exactly if it does not decode or is filtered; its displacement counts from its start, and only nearer than the limit |
| X86.InstanceLawful | fuzzer/program_x86_64.cc:106-188 | the editor's laws follow from the contract of the encoder |
| X86.InstanceReparsable | fuzzer/program_x86_64.cc:106-144 | so does that re-encoded branches decode again |
| Mutations.CopyOrRandomizeBoundary | fuzzer/program_mutation_ops.cc:71-91 | an untouched displacement keeps its target, without a draw; another branch gets the boundary that the next draw chooses |
| Mutations.ShiftOrRandomizeBoundary | fuzzer/program_mutation_ops.cc:93-104 | a target is moved along if it stays a boundary, and is otherwise the boundary that the next draw chooses |
| Mutations.ShiftOrRandomizeBlock | fuzzer/program_mutation_ops.cc:140-152 | a copied block fits its new place, and targets that stay inside move along |
| Mutations.FlipBitFlips | fuzzer/program_mutation_ops.cc:223-225 | exactly the one bit of the buffer is inverted |
| Mutations.GenerateSingleInstruction | fuzzer/program_mutation_ops.cc:204-221 | the result is the first of up to 64 buffers drawn one after the other that decodes, without a target; it fails exactly if 64 were rejected |
| Mutations.MutateSingleInstruction | fuzzer/program_mutation_ops.cc:155-202 | the result is the first instruction that decodes when up to three drawn bits of the old bytes are inverted, with drawn bytes behind them, in up to 64 attempts; it fails exactly if 64 attempts of three bits did |
| Mutators.InsertGeneratedInstruction | fuzzer/program_mutation_ops.h:74-98 | on success the generated instruction was inserted, its target, place and stealing being the next draws in this order; it fails exactly if the generation does, and then nothing changed |
| Mutators.MutateInstruction | fuzzer/program_mutation_ops.h:100-128 | on success the drawn instruction was replaced by its mutation, keeping its target if its displacement is the same and drawing one otherwise; it fails exactly without instructions or if the mutation does |
| Mutators.DeleteInstruction | fuzzer/program_mutation_ops.h:130-152 | removes the drawn instruction, and refuses exactly at the minimum |
| Mutators.SwapInstructions | fuzzer/program_mutation_ops.h:154-185 | exchanges the instruction drawn first with the next drawn one that is another, and refuses exactly below two |
| Mutators.CrossoverInsert | fuzzer/program_mutation_ops.h:187-223 | inserts a copy of a chunk of the other program, which may be the same one; size, start, place and stealing are drawn in this order |
| Mutators.CrossoverOverwrite | fuzzer/program_mutation_ops.h:225-265 | overwrites at most half of the program, or one instruction, with a copy of a chunk; size, start and place are drawn in this order |
| Mutators.Mutate | fuzzer/program_mutator.h:64-175 | every policy, with any draws and any other program, keeps the program consistent and made of instructions that decode, and makes of it what its operators do: retries stop at the first success, a draw chooses among policies and the number of repetitions; a success leaves it in need of a fixup, and a failure leaves it as it was |
| Mutators.MinimumKept | fuzzer/program_mutator.h:64-175 | a policy made of removals, however combined and repeated, never goes below their minimum, and a success makes the program smaller |
| BatchMutator.LimitProgramLength | fuzzer/program_mutation_ops.cc:231-243 | instructions are removed one by one, and only while the program is too long, until it fits; it reports a change if and only if it was too long |
| BatchMutator.ShortIsNotCut | fuzzer/program_mutation_ops.cc:231-243 | so a program that fits is not cut |
| BatchMutator.AddInstructionIfZeroLength | fuzzer/program_batch_mutator.cc:34-40 | an empty program gets one instruction, and another one is not changed |
| BatchMutator.FinalizeProgram | fuzzer/program_batch_mutator.cc:42-61 | the program goes through fixups and cuts in turn: it is cut only where a fixup left it too long, and the last fixup is the result, in sync, within the limit, and not empty if the limit holds any instruction |
| BatchMutator.FinalizedShort | fuzzer/program_batch_mutator.cc:42-61 | if the first fixup fits the limit, the result is that fixup and nothing is cut |
| BatchMutator.GenerateSingleOutput | fuzzer/program_batch_mutator.cc:104-117 | the output is the finalized program that the policy made of the input; it fits the limit, and reads back strictly as a program in sync |
| Memory.RunsAreRuns | util/range_map.h:32-34 | the ranges of a map are in order, have one value each, cover the map, and none could be merged |
| Memory.RunsUnique | util/range_map.h:32-34 | there is only one such list of ranges |
| Memory.OnlyRun | util/range_map.h:443-471 | the lower bound finds the only range that can have an address |
| RangeMaps.SplitRanges | util/range_map.h:703-802 | splitting the overlapped ranges and filling the gaps tiles exactly the changed map |
| RangeMaps.MergeTiles | util/range_map.h:873-900 | merging neighbours gives the runs |
| RangeMaps.MergeSeam | util/range_map.h:873-900 | merging one range beyond the change is enough |
| RangeMaps.Change | util/range_map.h:691-807 | the result is the canonical list of ranges of the map changed address by address |
| MappedMemory.MappedMemoryMap.Add | common/mapped_memory_map.cc:35-39 | exactly the addresses of the range get the permissions, besides those they had |
| MappedMemory.MappedMemoryMap.Remove | common/mapped_memory_map.cc:58-61 | exactly the addresses of the range lose the permissions, and those left with none are dropped |
| MappedMemory.MappedMemoryMap.Set | common/mapped_memory_map.cc:51-56 | removing and adding sets the permissions of the range |
| MappedMemory.MappedMemoryMap.RemoveRangesOf | common/mapped_memory_map.cc:63-75 | the loop, which changes the map it walks over, removes the permissions exactly at the addresses of the other map, and drops those left with none |
| MappedMemory.WeakenedInAll | common/mapped_memory_map.cc:63-75 | removing all permissions there removes the addresses |
| MappedMemory.MappedMemoryMap.AddDifferenceOf | util/range_map.h:946-985 | from a range: added where the other map has other permissions or none, with what is missing there, to whatever the map had |
| MappedMemory.MappedMemoryMap.AddIntersectionOf | util/range_map.h:919-944 | the common permissions of two maps, where there are any, are added to whatever the map had |
| MappedMemory.MappedMemoryMap.ContainsRange | util/range_map.h:902-917 | true if and only if the map has every address of the range |
| MappedMemory.MappedMemoryMap.OverlapsRange | common/mapped_memory_map.cc:119-123 | true if and only if the map has an address of the range |
| PermissionSets.SetLaws | common/memory_perms.h:85-134 | permissions are sets: adding is union, clearing is difference, intersecting is intersection |
| PermissionSets.Difference | util/range_map.h:946-985 | at every address the difference is what the mapping has and the map has not, and the two together have all that either has |
| PermissionSets.Intersection | util/range_map.h:919-944 | at every address the intersection is the common permissions, and it has the addresses where there are any |
| PermissionSets.Common | common/mapped_memory_map.cc:125-140 | a range that is not empty has the permissions in common that each of its addresses has |
| DeltaBytes.GrowResultChunk | common/memory_state.cc:373-407 | adding differing bytes to the chunk, or starting the next one, keeps the chunks minimal |
| DeltaBytes.DeltaMemoryBytes | common/memory_state.cc:409-499 | the chunks are ordered parts of the input that cover every differing or unknown byte; each starts and ends on one and has no 15 unchanged bytes in a row; gaps are at least 15 |
| DeltaBytes.DeltaApplies | common/memory_state.h:248-252 | writing the chunks has the effect of writing all the bytes |
| DeltaBytes.DeltaUnique | common/memory_state.cc:409-499 | the chunks are the only list with those properties |
| DeltaBytes.DeltaMemoryBytesList | common/memory_state.cc:501-517 | a list gives the chunks of its elements in order |
| DeltaBytes.DeltaListApplies | common/memory_state.h:254-256 | writing the chunks of a disjoint list has the effect of writing the list |
| DeltaBytes.DeltaListDisjoint | common/memory_state.h:258-260 | the chunks of a disjoint list are disjoint and inside it |
| DeltaBytes.OverlapBreaksDelta | common/memory_state.h:254-256 | an overlapping list for which the chunks have another effect |
| DeltaMappings.DeltaMemoryMapping | common/memory_state.cc:249-279 | the commands cover exactly the addresses of the mapping whose permissions differ; unmapped ones are mapped, mapped ones are protected |
| DeltaMappings.DeltaMemoryMappingsExact | common/memory_state.cc:329-366 | disjoint commands, none without effect at any address, that lead exactly to the memory of the snapshot with the added permissions; every other address is unmapped or, when unused memory is protected, left with the mapped flag only |
| DeltaMappings.DeltaReaches | common/memory_state.h:234-246 | such commands have that effect on the map |
| DeltaMappings.DeltaMemoryMappings | common/memory_state.cc:281-327 | disjoint commands, none without effect at any address, that lead to the memory of the snapshot and soften what it must not have elsewhere |
| DeltaMappings.SoftTargetSafe | common/memory_state.cc:298-324 | outside of the mappings no forbidden permission remains, none is added, and memory without negative mapping is unchanged |
| DeltaMappings.SoftTargetIs | common/memory_state.cc:298-324 | where permissions are forbidden, exactly those remain that the whole largest range with the same forbidden ones has, without the forbidden ones |
| MemoryStates.MemoryState.AddNewMemoryMapping | common/memory_state.cc:98-104 | every address of the range, and no other, gets the permissions with the mapped flag |
| MemoryStates.MemoryState.SetMemoryMappingEmptyPermsOk | common/memory_state.cc:111-116 | the permissions of every address of the range are replaced, with the mapped flag, and of no other |
| MemoryStates.MemoryState.RemoveMemoryMapping | common/memory_state.cc:118-123 | every address of the range disappears from all three views, and no other changes |
| MemoryStates.MemoryState.RemoveMemoryMappingsNotIn | common/memory_state.cc:125-132 | every address that the snapshot does not map disappears from all three views, and no other changes |
| MemoryStates.MemoryState.ClearMemoryMappingsPermsNotIn | common/memory_state.cc:134-141 | every address that the snapshot does not map keeps its mapped flag only, and no other changes |
| MemoryStates.MemoryState.SetMemoryBytes | common/memory_state.cc:143-149 | the bytes are written and known, and no other address changes; what is known stays written and mapped |
| MemoryStates.MemoryState.ForgetMemoryBytes | common/memory_state.cc:151-154 | the bytes are no longer known but still written, and no other address changes |
| MemoryStates.MemoryState.SetInitialState | common/memory_state.cc:166-203 | at every address: mapped ones get the permissions of the snapshot, others lose the negative ones; bytes of the snapshot are written and known, a new mapping without bytes is zero if asked for, and everything else is as it was |
| MemoryStates.MakeInitial | common/memory_state.cc:41-46 | the state at the start of a snapshot; all that was written is known |
| MemoryStates.MakeEnd | common/memory_state.cc:49-63 | the state at the start with the bytes of the end state written over it |
| MemoryStates.InitialToEnd | common/memory_state.cc:41-63 | writing only the differing bytes of an end state at the start gives the same state |
| Normalize.NormalizeMemoryBytes | common/snapshot.cc:777-839 | the result is the canonical list for the content and the permissions of the input |
| Normalize.CanonicalUnique | common/snapshot.cc:777-839 | there is only one canonical list |
| Normalize.CanonicalFacts | common/snapshot.cc:777-839 | a canonical list is strictly sorted and defines exactly the content |
| Normalize.CanonicalPerms | common/snapshot.cc:785-829 | each element has uniform permissions, and touching elements have different ones |
| Normalize.NormalizeIdempotent | common/snapshot.cc:777-839 | normalizing again changes nothing |
| Normalize.NormalizeCanonical | common/snapshot.cc:777-839 | lists with equal content have equal normal forms |
| Snapshots.Snapshot.AddMemoryMapping | common/snapshot.cc:304-308 | the list and the map get the mapping; all guards stay satisfied |
| Snapshots.Snapshot.AddNegativeMemoryMapping | common/snapshot.cc:398-403 | the negative list and map get it; all guards stay satisfied |
| Snapshots.Snapshot.AddNegativeMemoryMappingOverlapOk | common/snapshot.cc:405-423 | permissions are joined, and the rebuilt list is aligned, disjoint and agrees with the map |
| Snapshots.Snapshot.AddNegativeMemoryMappingsFor | common/snapshot.cc:433-489 | it succeeds exactly if no address of the page of an access fault grants the access that failed; then exactly that access becomes negative on exactly that page, and the signal address passes the check of end states, up to the largest address |
| Snapshots.Snapshot.AddMemoryBytes | common/snapshot.cc:511-515 | the list and the set get the bytes; all guards stay satisfied |
| Snapshots.Snapshot.SetRegisters | common/snapshot.cc:604-610 | the registers are set; all guards stay satisfied |
| Snapshots.Snapshot.AddExpectedEndState | common/snapshot.cc:713-718 | the end state is added; the end states are pairwise different if and only if they were |
| Snapshots.Snapshot.NormalizeMemoryMappings | common/snapshot.cc:753-767 | both lists are rebuilt in order and still agree with their maps |
| Snapshots.Snapshot.NormalizeAll | common/snapshot.cc:769-844 | mappings and all byte lists are in normal form; all guards stay satisfied; the end states are distinct afterwards if and only if no two had the same data before, however cut into pieces |
| Snapshots.NormalizedDistinct | common/snapshot.cc:769-774 | that condition, for the state before and the state after |
| Snapshots.Snapshot.MappedMemoryIsDefined | common/snapshot.cc:527-533 | true if and only if every mapped address has a byte |
| SnapshotGuards.AddMappingKeeps | common/snapshot.cc:279-308 | a guarded mapping keeps the snapshot consistent, its registers and end states valid |
| SnapshotGuards.AddNegativeOverlapKeeps | common/snapshot.cc:369-423 | so does a guarded negative mapping, with overlaps |
| SnapshotGuards.AddBytesKeeps | common/snapshot.cc:495-515 | so do guarded bytes |
| SnapshotGuards.AddEndStateKeeps | common/snapshot.cc:616-718 | so does a guarded end state, and distinct end states stay distinct |
| SnapshotGuards.NormalizeMappingsKeeps | common/snapshot.cc:753-767 | rebuilt mappings are aligned, disjoint, and give the same map |
| SnapshotGuards.RunKeeps | common/snapshot.cc:279-515 | every run of guarded operations keeps lists and maps in agreement, mappings disjoint and aligned, bytes disjoint and mapped, and no permission both granted and negatively mapped |
| SnapshotGuards.FaultAddressKnown | common/snapshot.cc:433-489 | the negative mapping of a fault makes its signal address known, in the last page too |
| SnapshotGuards.FaultStaysKnown | common/snapshot.cc:640-660 | it stays known over every later run of guarded operations |
| SnapshotGuards.FaultAddable | common/snapshot.cc:433-489 | the negative mapping of a fault can be added if and only if nothing on the 4096 bytes around its address grants the access that failed |
| SnapshotGuards.FaultAdded | common/snapshot.cc:433-489 | afterwards a failed execution or write is negative there alone, and a failed read makes all accesses negative |
| SnapshotGuards.FaultNeverGranted | common/snapshot.cc:433-489 | over every later run of guarded operations the access that failed is never granted on that page |
| SnapshotMeaning.MappingAccepted | common/snapshot.cc:279-308 | a mapping can be added if and only if it is made of whole pages with some permission, all unmapped, where none of its permissions is negative |
| SnapshotMeaning.NegativeAccepted | common/snapshot.cc:369-403 | a negative one if and only if it is made of whole pages, or ends with the address space, and grants nothing that is granted there; without overlaps unless those are allowed |
| SnapshotMeaning.BytesAddable | common/snapshot.cc:495-515 | bytes can be added if and only if all of them are mapped and none was added before |
| SnapshotMeaning.RegistersAccepted | common/snapshot.cc:547-610 | registers can be set if and only if they decode, the next instruction is executable, and 16 (x86) or 32 (AArch64) bytes below the stack pointer are writable |
| SnapshotMeaning.EndStateAccepted | common/snapshot.cc:616-718 | an end state can be added if and only if it ends at mapped or explained addresses, writes to writable memory only, has registers that decode and a checksum in order, and is not a duplicate |
| SnapshotMeaning.SameDataIff | common/snapshot.cc:1028-1033 | two end states are duplicates if and only if they differ in their platforms and the order of their bytes only |
| SnapshotMeaning.CompleteIff | common/snapshot.cc:203-258 | a guarded snapshot is complete if and only if it has memory, bytes and registers, has negative memory exactly when it has an access fault, and has end states as the completion asks for |
| SnapshotMeaning.RunMeans | common/snapshot.cc:279-718 | after every run of guarded operations the snapshot can be started at its registers and all its end states fit its memory |
| SplitBytes.SplitBytesByMapping | common/snapshot_util.cc:78-116 | each mapping gets its bytes in the order of the list; it fails exactly if some bytes are inside no mapping |
| SplitBytes.SplitPartitions | common/snapshot_util.cc:78-116 | the lists of all mappings together hold every element as often as the input |
| SplitBytes.NormalizedSplits | common/snapshot_util.cc:78-116 | after normalization all bytes are inside exactly one mapping, so it never fails |
| Platforms.PlatformsToBitmask | common/snapshot_proto.cc:326-333 | the mask is the disjunction of the bits of the ids |
| Platforms.BitmaskToPlatforms | common/snapshot_proto.cc:336-344 | the ids of the bits that are set, in order |
| Platforms.MaskRoundTrip | common/snapshot_proto.cc:325-344 | increasing ids survive the way through the mask |
| Platforms.FlagsRoundTrip | common/snapshot_proto.cc:325-344 | so do the flags of an end state |
| ProtoReader.FromProto | common/snapshot_proto.cc:255-318 | reading replays every guard; whatever the input, a snapshot that is returned satisfies them all |
| ProtoReader.ReadEndStates | common/snapshot_proto.cc:294-300 | end states are added one by one under the guards |
| ProtoReader.ToProto | common/snapshot_proto.cc:429-452 | all parts are written in list order |
| ProtoReader.WriteEndState | common/snapshot_proto.cc:389-400 | platforms are written as a mask, and only if there are any |
| ProtoMeaning.ReadIff | common/snapshot_proto.cc:131-318 | for every buffer and snapshot: the buffer is read as the snapshot if and only if it says, field by field, that it is this one, and the snapshot is guarded, complete, with distinct end states that can be added and without the last platform |
| ProtoMeaning.WriteSays | common/snapshot_proto.cc:346-452 | what is written says, field by field, what the snapshot is, except for an origin string that is not in use |
| ProtoMeaning.ReadsMapping | common/snapshot_proto.cc:132-153 | a mapping is read exactly if its fields are there, permissions are the bits 1, 2 and 4 only, and it is not empty and inside the address space |
| ProtoMeaning.ReadsEndpoint | common/snapshot_proto.cc:173-204 | an endpoint is read exactly if all its fields are there and known, and a cause is given exactly for a segmentation fault |
| ProtoMeaning.ReadsEndState | common/snapshot_proto.cc:207-230 | an end state is read exactly if its parts are, its bytes are disjoint and it has not the last platform; platform i is bit i |
| ProtoMeaning.ReadsTrace | common/snapshot_proto.cc:243-252 | trace data are read with the platforms of the mask in increasing order |
| ProtoRoundTrip.EndStateBack | common/snapshot_proto.cc:207-230 | an end state is read back unless it has the last platform |
| ProtoRoundTrip.TraceBack | common/snapshot_proto.cc:243-252 | trace data with increasing platforms are read back |
| ProtoRoundTrip.MemoryBack | common/snapshot_proto.cc:264-293 | every guard of mappings, negative mappings, bytes and registers passes again in list order |
| ProtoRoundTrip.EndStatesBack | common/snapshot_proto.cc:294-300 | the end states are read back if and only if they are distinct and avoid the last platform |
| ProtoRoundTrip.RoundTrip | common/snapshot_proto.cc:254-452 | a complete snapshot is read back if and only if its end states are, and equals the original if and only if its origin string is used too |
| ProtoRoundTrip.GuardedRunRoundTrip | common/snapshot_proto.cc:254-452 | for every snapshot built by guarded operations |
| NormalizedRoundTrip.NormalizedComplete | common/snapshot.cc:769-844 | normalizing keeps a snapshot complete |
| NormalizedRoundTrip.NormalizedRoundTrip | common/snapshot.cc:769-844 | a normalized snapshot is read back if and only if, before, no two end states had the same data and none had the last platform |
| NormalizedRoundTrip.NormalizingLosesSnapshot | common/snapshot.cc:769-774 | a guarded snapshot, to which both its end states can be added, that reads back, but not after it was normalized |
| NormalizedRoundTrip.NormalizeBoth | common/snapshot.cc:769-844 | that snapshot as an object, before and after the call |
| Orchestrator.ResultCollector.Process | orchestrator/result_collector.cc:179-216 | the counters, the limit on errors and the decision to stop after one result |
| Orchestrator.CollectorCounts | orchestrator/result_collector.cc:179-216 | over a whole sequence: the play count is its length, failed snapshots and runaways are counted exactly, and a result stops the run if and only if it is an error and the limit is reached by then |
| Orchestrator.ExecutionContext.OfferRunResult | orchestrator/silifuzz_orchestrator.cc:70-86 | a result is refused if and only if the queue is full; the failure to get one is not posted |
| Orchestrator.ExecutionContext.ProcessResultQueueImpl | orchestrator/silifuzz_orchestrator.cc:117-124 | results reach the callback in order; afterwards the run stops if and only if it did before or one of the results was an error that reached the limit |
| Orchestrator.ExecutionContext.ProcessResultQueue | orchestrator/silifuzz_orchestrator.cc:111-115 | the queue is processed and emptied, with the same condition to stop |
| Orchestrator.StepKeeps | orchestrator/silifuzz_orchestrator.cc:70-124 | every action keeps the queue within its size and the accepted results in order; a stop is final |
| Orchestrator.RunKeeps | orchestrator/silifuzz_orchestrator.cc:70-124 | so does every interleaving |
| Orchestrator.RefusedOnlyWhenFull | orchestrator/silifuzz_orchestrator.cc:80-85 | a result is refused only when the queue has one for every thread |
| Orchestrator.RunStops | orchestrator/silifuzz_orchestrator.cc:70-124 | in every interleaving: the run stops if and only if a worker ended, a signal came, or one of the processed results was an error that reached the limit |
| Orchestrator.RunEnds | orchestrator/silifuzz_orchestrator.cc:88-124 | in every interleaving: the main thread is past its loop only if the run was stopped or the deadline passed, and past joining only if every worker finished |
| Orchestrator.HeadChoice | orchestrator/silifuzz_orchestrator.cc:88-109 | at the head of its loop the main thread goes on if and only if the run is neither stopped nor late |
| Orchestrator.ProcessStops | orchestrator/silifuzz_orchestrator.cc:117-124 | the same for one batch of results |
| Orchestrator.AllResultsProcessed | orchestrator/silifuzz_orchestrator_main.cc:293-324 | when the main thread is done, every accepted result reached the callback exactly once in order, the play count is their number, and the exit status is a failure if and only if one of them is a failed snapshot |
| Orchestrator.MainFinishes | orchestrator/silifuzz_orchestrator.cc:88-124 | once the run should stop and the workers are done, the main thread can always move on, closer to its end |
| SnapMaker.DataMappingDelta | runner/snap_maker.cc:232-263 | the mappings are the ranges of the end state's bytes that the snapshot does not map |
| SnapMaker.DeltaMappingsValid | runner/snap_maker.cc:247-262 | none of them can fail to be made |
| SnapMaker.AddMemoryMappings | runner/snap_maker.cc:265-293 | mappings are added with zeros, one by one under the guards |
| SnapMaker.DataDeltaExact | runner/snap_maker.cc:232-293 | after a success exactly the bytes of the end state became mapped, readable and writable, old mappings are unchanged, new ones are zero, and mapped memory is still defined if it was |
| SnapMaker.DataNotReserved | runner/snap_maker.cc:278-284 | and nothing reserved became mapped |
| SnapMaker.AddWritableMemoryForAddress | runner/snap_maker.cc:217-230 | it succeeds if and only if every address of the 4096 bytes is in the address space and not mapped, reserved or negative for reading or writing; then exactly those become mapped, readable, writable and zero |
| SnapMaker.MakeLoop | runner/snap_maker.cc:295-396 | each round prepares the snapshot and runs it, and the next starts with exactly the page of the failed access added; a success ends with the memory and the endpoint of the last run, and for a reason that fits it; the runner is run at most once more than pages may be added, and once outside of compatibility mode; missing memory is given up only at the page limit |
| SnapMaker.JudgeReasons | runner/snap_maker.cc:313-396 | which reason or request for a page each outcome, signal and cause leads to |

## Left out

- Mutators.Mutate: the weights of selections and repetitions are arbitrary choices, because probabilities are not modelled.
- MemoryStates.MakeInitial: the byte blobs of the known memory are a map; only permissions are followed down to stored ranges.
- SnapMaker.MakeLoop: the preparation of the snapshot and the runner are arbitrary functions, because their code is foreign to this loop.
- Roundtrip.TwoRoundTrips: the bound on the size is not stated for x86, because only a contract of its encoder is known.
- Orchestrator.RunKeeps: the worker loop is an arbitrary sequence of offers, because corpora, budgets and CPUs do not touch the queue.
- InsnFilter.BranchGroupIsOk: of the tables of the AArch64 filter only their effect on branches and on system registers is stated, because the other entries list instructions one by one.
- Probabilities and fairness of the random number generator.
- The encoder library and the disassemblers, of which only contracts are used; register formats and checksums.
- `set_memory_mapping_perms`, which has no guard against negative mappings, and the bulk setters of snapshots.
- Usage accounting and the iterator interface of the range map.
- The runner, tracers, signal handling, corpus files, log channels, printing and flags.
