/** What the editing operations of fuzzer/program.cc do to the instructions and to branch targets. */
module Edits {
  import opened Basics
  import opened Isa
  import opened Layout
  import opened Fixup

  // Moves the target of a branch if it is at or after `boundary`.
  function Retargeted(insn: Instruction, boundary: nat, amount: int): Instruction
    requires boundary + amount >= 0
  {
    if insn.branch.Valid() && insn.branch.boundary.Some? && insn.branch.boundary.value >= boundary then
      insn.(branch := insn.branch.(boundary := Some(insn.branch.boundary.value + amount)))
    else
      insn
  }

  ghost function Adjusted(insns: seq<Instruction>, boundary: nat, amount: int): (r: seq<Instruction>)
    requires boundary + amount >= 0
    ensures |r| == |insns|
    ensures forall k {:trigger r[k]} :: 0 <= k < |r| ==> r[k] == Retargeted(insns[k], boundary, amount)
  {
    seq(|insns|, k requires 0 <= k < |insns| => Retargeted(insns[k], boundary, amount))
  }

  // The boundary from which an insert moves targets.
  function AdjustedFrom(boundary: nat, steal: bool): nat {
    if steal then boundary + 1 else boundary
  }

  // Inserting a block at `boundary`.  A stealing insert leaves branches to the boundary in
  // place, so that they now reach the block.
  ghost function Inserted(insns: seq<Instruction>, boundary: nat, steal: bool,
                          block: seq<Instruction>): (r: seq<Instruction>)
    requires boundary <= |insns|
    ensures |r| == |insns| + |block|
  {
    var adjusted := Adjusted(insns, AdjustedFrom(boundary, steal), |block|);
    adjusted[..boundary] + block + adjusted[boundary..]
  }

  ghost function Removed(insns: seq<Instruction>, index: nat): (r: seq<Instruction>)
    requires index < |insns|
    ensures |r| == |insns| - 1
  {
    var adjusted := Adjusted(insns, index + 1, -1);
    adjusted[..index] + adjusted[index + 1..]
  }

  ghost function Overwritten(insns: seq<Instruction>, index: nat, block: seq<Instruction>): (r: seq<Instruction>)
    requires index + |block| <= |insns|
    ensures |r| == |insns|
  {
    insns[..index] + block + insns[index + |block|..]
  }

  // Where an old instruction, or the end of the program, is after an insert of `count` at `boundary`.
  function IndexAfterInsert(index: nat, boundary: nat, count: nat): nat {
    if index < boundary then index else index + count
  }

  ghost predicate Target(insns: seq<Instruction>, k: nat, t: nat) {
    k < |insns| && insns[k].branch.Valid() && insns[k].branch.boundary == Some(t)
  }

  // Every old branch follows its target through an insert, except that a stealing insert
  // redirects exactly the branches to the boundary, to the first inserted instruction.
  lemma InsertKeepsTargets(insns: seq<Instruction>, boundary: nat, steal: bool, block: seq<Instruction>, k: nat, t: nat)
    requires boundary <= |insns| && Target(insns, k, t)
    ensures var r := Inserted(insns, boundary, steal, block);
            var k' := IndexAfterInsert(k, boundary, |block|);
            && r[k'].encoded == insns[k].encoded
            && Target(r, k', if steal && t == boundary then boundary else IndexAfterInsert(t, boundary, |block|))
            && (t < |insns| ==> r[IndexAfterInsert(t, boundary, |block|)].encoded == insns[t].encoded)
  {
    InsertedAt(insns, boundary, steal, block, IndexAfterInsert(k, boundary, |block|));
    if t < |insns| {
      InsertedAt(insns, boundary, steal, block, IndexAfterInsert(t, boundary, |block|));
    }
  }

  // Copies of the block arrive verbatim.
  lemma InsertCopiesBlock(insns: seq<Instruction>, boundary: nat, steal: bool, block: seq<Instruction>, k: nat)
    requires boundary <= |insns| && k < |block|
    ensures Inserted(insns, boundary, steal, block)[boundary + k] == block[k]
  {
  }

  // A removal moves branches to the removed instruction to its successor, and no others.
  lemma RemoveKeepsTargets(insns: seq<Instruction>, index: nat, k: nat, t: nat)
    requires index < |insns| && k != index && Target(insns, k, t)
    ensures var r := Removed(insns, index);
            var k' := if k < index then k else k - 1;
            && r[k'].encoded == insns[k].encoded
            && Target(r, k', if t <= index then t else t - 1)
            && (t != index && t < |insns| ==> r[if t <= index then t else t - 1].encoded == insns[t].encoded)
  {
  }

  // Removing `count` instructions, one after the other, from the same index.
  ghost function RemovedMany(insns: seq<Instruction>, index: nat, count: nat): (r: seq<Instruction>)
    requires index + count <= |insns|
    ensures |r| == |insns| - count
    decreases count
  {
    if count == 0 then insns else RemovedMany(Removed(insns, index), index, count - 1)
  }

  // Adjusting for an insert and then for the removal of one of the `count` inserted instructions.
  lemma AdjustTwice(insn: Instruction, boundary: nat, steal: bool, count: nat)
    requires count > 0
    ensures var from := AdjustedFrom(boundary, steal);
            Retargeted(Retargeted(insn, from, count), boundary + 1, -1) == Retargeted(insn, from, count - 1)
  {
  }

  lemma InsertedAt(insns: seq<Instruction>, boundary: nat, steal: bool, block: seq<Instruction>, k: nat)
    requires boundary <= |insns| && k < |insns| + |block|
    ensures Inserted(insns, boundary, steal, block)[k] ==
            if k < boundary then Retargeted(insns[k], AdjustedFrom(boundary, steal), |block|)
            else if k < boundary + |block| then block[k - boundary]
            else Retargeted(insns[k - |block|], AdjustedFrom(boundary, steal), |block|)
  {
  }

  lemma RemovedAt(insns: seq<Instruction>, index: nat, k: nat)
    requires index < |insns| && k < |insns| - 1
    ensures Removed(insns, index)[k] == Retargeted(insns[if k < index then k else k + 1], index + 1, -1)
  {
  }

  lemma RemoveShortensInsertAt(insns: seq<Instruction>, boundary: nat, steal: bool, block: seq<Instruction>, k: nat)
    requires boundary <= |insns| && block != [] && k < |insns| + |block| - 1
    ensures Removed(Inserted(insns, boundary, steal, block), boundary)[k] ==
            Inserted(insns, boundary, steal, Adjusted(block[1..], boundary + 1, -1))[k]
  {
    var k' := if k < boundary then k else k + 1;
    RemovedAt(Inserted(insns, boundary, steal, block), boundary, k);
    InsertedAt(insns, boundary, steal, block, k');
    InsertedAt(insns, boundary, steal, Adjusted(block[1..], boundary + 1, -1), k);
    if k < boundary {
      AdjustTwice(insns[k], boundary, steal, |block|);
    } else if k >= boundary + |block| - 1 {
      AdjustTwice(insns[k' - |block|], boundary, steal, |block|);
    }
  }

  // Removing the first instruction of a block leaves the insert of the rest of it.
  lemma RemoveShortensInsert(insns: seq<Instruction>, boundary: nat, steal: bool, block: seq<Instruction>)
    requires boundary <= |insns| && block != []
    ensures Removed(Inserted(insns, boundary, steal, block), boundary) ==
            Inserted(insns, boundary, steal, Adjusted(block[1..], boundary + 1, -1))
  {
    var shorter := Removed(Inserted(insns, boundary, steal, block), boundary);
    var rest := Inserted(insns, boundary, steal, Adjusted(block[1..], boundary + 1, -1));
    forall k | 0 <= k < |rest| ensures shorter[k] == rest[k] {
      RemoveShortensInsertAt(insns, boundary, steal, block, k);
    }
  }

  // Removing an inserted block undoes the insert, whichever way it was done.
  lemma {:induction false} RemoveUndoesInsert(insns: seq<Instruction>, boundary: nat, steal: bool,
                                              block: seq<Instruction>)
    requires boundary <= |insns|
    ensures RemovedMany(Inserted(insns, boundary, steal, block), boundary, |block|) == insns
    decreases |block|
  {
    if block == [] {
      assert Inserted(insns, boundary, steal, block) == insns;
    } else {
      RemoveShortensInsert(insns, boundary, steal, block);
      RemoveUndoesInsert(insns, boundary, steal, Adjusted(block[1..], boundary + 1, -1));
    }
  }

  // The consistency of a program survives every edit.
  lemma InsertConsistent(arch: Arch, insns: seq<Instruction>, boundary: nat, steal: bool, block: seq<Instruction>)
    requires boundary <= |insns|
    requires AllTargeted(insns) && AllFaithful(arch, insns)
    requires AllFit(arch, block, |insns| + |block| + 1)
    ensures AllTargeted(Inserted(insns, boundary, steal, block))
    ensures AllFaithful(arch, Inserted(insns, boundary, steal, block))
  {
  }

  lemma RemoveConsistent(arch: Arch, insns: seq<Instruction>, index: nat)
    requires index < |insns|
    requires AllTargeted(insns) && AllFaithful(arch, insns)
    ensures AllTargeted(Removed(insns, index)) && AllFaithful(arch, Removed(insns, index))
  {
  }

  lemma OverwriteConsistent(arch: Arch, insns: seq<Instruction>, index: nat, block: seq<Instruction>)
    requires index + |block| <= |insns|
    requires AllTargeted(insns) && AllFaithful(arch, insns)
    requires AllFit(arch, block, |insns| + 1)
    ensures AllTargeted(Overwritten(insns, index, block)) && AllFaithful(arch, Overwritten(insns, index, block))
  {
  }

  // The instruction may be placed in a program with that many boundaries.
  ghost predicate Fits(arch: Arch, insn: Instruction, numBoundaries: nat) {
    Targeted(insn, numBoundaries) && Faithful(arch, insn)
  }

  ghost predicate AllFit(arch: Arch, block: seq<Instruction>, numBoundaries: nat) {
    forall k :: 0 <= k < |block| ==> Fits(arch, block[k], numBoundaries)
  }

  // `block` copies the instructions of `from` at `src`, moved to index `dst` of a program with
  // that many boundaries: a target that stays inside the program is moved along.
  ghost predicate Copied(from: seq<Instruction>, src: nat, dst: nat, numBoundaries: nat, block: seq<Instruction>) {
    && src + |block| <= |from|
    && forall j :: 0 <= j < |block| ==> CopiedOne(from[src + j], dst - src, numBoundaries, block[j])
  }

  ghost predicate CopiedOne(was: Instruction, shift: int, numBoundaries: nat, now: Instruction) {
    && now.encoded == was.encoded && now.branch.displacement == was.branch.displacement
    && (was.branch.Valid() && was.branch.boundary.Some? && 0 <= was.branch.boundary.value + shift < numBoundaries ==>
          now.branch.boundary == Some(was.branch.boundary.value + shift))
  }

  // Branches within a copied block still lead to the same instruction of the block.
  lemma CrossoverKeepsBlockBranches(from: seq<Instruction>, src: nat, insns: seq<Instruction>, dst: nat, steal: bool,
                                    block: seq<Instruction>, j: nat, t: nat)
    requires dst <= |insns| && Copied(from, src, dst, |insns| + |block| + 1, block)
    requires j < |block| && Target(from, src + j, t) && src <= t < src + |block|
    ensures var r := Inserted(insns, dst, steal, block);
            && Target(r, dst + j, dst + (t - src))
            && r[dst + j].encoded == from[src + j].encoded
            && r[dst + (t - src)].encoded == from[t].encoded
  {
    assert CopiedOne(from[src + j], dst - src, |insns| + |block| + 1, block[j]);
    assert CopiedOne(from[src + (t - src)], dst - src, |insns| + |block| + 1, block[t - src]);
    InsertCopiesBlock(insns, dst, steal, block, j);
    InsertCopiesBlock(insns, dst, steal, block, t - src);
  }

  // One call of an editing operation.
  datatype Edit =
    | NoEdit
    | Insert(at: nat, steal: bool, block: seq<Instruction>)
    | Remove(at: nat)
    | Overwrite(at: nat, block: seq<Instruction>)

  ghost predicate Applies(insns: seq<Instruction>, edit: Edit) {
    match edit
    case NoEdit => true
    case Insert(at, _, _) => at <= |insns|
    case Remove(at) => at < |insns|
    case Overwrite(at, block) => at + |block| <= |insns|
  }

  ghost function Edited(insns: seq<Instruction>, edit: Edit): seq<Instruction>
    requires Applies(insns, edit)
  {
    match edit
    case NoEdit => insns
    case Insert(at, steal, block) => Relaid(Inserted(insns, at, steal, block))
    case Remove(at) => Relaid(Removed(insns, at))
    case Overwrite(at, block) => Overwritten(insns, at, block)
  }

  // A removal does not look at offsets.
  lemma RelaidRemoved(insns: seq<Instruction>, index: nat)
    requires index < |insns|
    ensures Relaid(Removed(Relaid(insns), index)) == Relaid(Removed(insns, index))
  {
    var one, two := Removed(Relaid(insns), index), Removed(insns, index);
    forall k | 0 <= k < |two| ensures one[k] == two[k].(offset := one[k].offset) {
      RemovedAt(Relaid(insns), index, k);
      RemovedAt(insns, index, k);
    }
    forall k | 0 <= k < |two| ensures OffsetAt(one, k) == OffsetAt(two, k) {
      OffsetsAgree(one, two, k);
    }
  }

  // Several removals at the same index, with the offsets kept up to date.
  ghost function EditedAway(insns: seq<Instruction>, index: nat, count: nat): seq<Instruction>
    requires index + count <= |insns|
    decreases count
  {
    if count == 0 then insns else EditedAway(Edited(insns, Remove(index)), index, count - 1)
  }

  lemma {:induction false} EditedAwayIs(insns: seq<Instruction>, index: nat, count: nat)
    requires index + count <= |insns|
    ensures EditedAway(Relaid(insns), index, count) == Relaid(RemovedMany(insns, index, count))
    decreases count
  {
    if count > 0 {
      RelaidRemoved(insns, index);
      EditedAwayIs(Removed(insns, index), index, count - 1);
    }
  }

  // Removing an inserted block restores the program: its instructions, their targets and offsets.
  lemma UndoInsert(insns: seq<Instruction>, boundary: nat, steal: bool, block: seq<Instruction>)
    requires LaidOut(insns) && boundary <= |insns|
    ensures EditedAway(Edited(insns, Insert(boundary, steal, block)), boundary, |block|) == insns
  {
    EditedAwayIs(Inserted(insns, boundary, steal, block), boundary, |block|);
    RemoveUndoesInsert(insns, boundary, steal, block);
    RelaidLaidOut(insns);
  }
}
