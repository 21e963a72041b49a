/** Instructions, their byte layout, and what it means for a program to be consistent and in sync. */
module Layout {
  import opened Basics
  import opened Isa

  // The symbolic and the encoded side of a PC-relative displacement.
  datatype DisplacementInfo = DisplacementInfo(displacement: Option<int>, boundary: Option<nat>) {
    predicate Valid() {
      displacement.Some?
    }
  }

  datatype Instruction = Instruction(encoded: seq<Byte>, branch: DisplacementInfo, offset: nat)

  // Bytes occupied by the first `k` instructions: where instruction boundary `k` lies when
  // the instructions are packed end to end.
  ghost function OffsetAt(insns: seq<Instruction>, k: nat): nat
    requires k <= |insns|
  {
    if k == 0 then 0 else OffsetAt(insns, k - 1) + |insns[k - 1].encoded|
  }

  ghost function TotalSize(insns: seq<Instruction>): nat {
    OffsetAt(insns, |insns|)
  }

  // Every recorded offset is the exact sum of the sizes before it.
  ghost predicate LaidOut(insns: seq<Instruction>) {
    forall k {:trigger insns[k].offset} :: 0 <= k < |insns| ==> insns[k].offset == OffsetAt(insns, k)
  }

  // The targets are recorded for branches only, and are boundaries of the program.
  predicate Targeted(insn: Instruction, numBoundaries: nat) {
    if insn.branch.Valid() then
      insn.branch.boundary.Some? && insn.branch.boundary.value < numBoundaries
    else
      insn.branch.boundary.None?
  }

  // The recorded displacement is the one in the bytes.
  ghost predicate Faithful(arch: Arch, insn: Instruction) {
    && SizeOk(arch, insn.encoded)
    && (insn.branch.Valid() ==> arch.displacement(insn.encoded) == insn.branch.displacement)
  }

  ghost predicate AllTargeted(insns: seq<Instruction>) {
    forall k :: 0 <= k < |insns| ==> Targeted(insns[k], |insns| + 1)
  }

  ghost predicate AllFaithful(arch: Arch, insns: seq<Instruction>) {
    forall k :: 0 <= k < |insns| ==> Faithful(arch, insns[k])
  }

  // Instruction `k` has the displacement its symbolic target asks for.
  ghost predicate InSyncAt(insns: seq<Instruction>, k: nat)
    requires k < |insns| && AllTargeted(insns)
  {
    insns[k].branch.Valid() ==>
      insns[k].branch.displacement.value == OffsetAt(insns, insns[k].branch.boundary.value) - OffsetAt(insns, k)
  }

  ghost predicate InSync(insns: seq<Instruction>)
    requires AllTargeted(insns)
  {
    forall k :: 0 <= k < |insns| ==> InSyncAt(insns, k)
  }

  ghost predicate SameSizes(a: seq<Instruction>, b: seq<Instruction>) {
    |a| == |b| && forall k :: 0 <= k < |a| ==> |a[k].encoded| == |b[k].encoded|
  }

  // The symbolic targets of all instructions.
  ghost function TargetsOf(insns: seq<Instruction>): (r: seq<Option<nat>>)
    ensures |r| == |insns|
    ensures forall k {:trigger r[k]} :: 0 <= k < |r| ==> r[k] == insns[k].branch.boundary
  {
    seq(|insns|, k requires 0 <= k < |insns| => insns[k].branch.boundary)
  }

  lemma TargetKept(insns: seq<Instruction>, i: nat, insn: Instruction)
    requires i < |insns| && insn.branch.boundary == insns[i].branch.boundary
    ensures TargetsOf(insns[i := insn]) == TargetsOf(insns)
  {
  }

  lemma {:induction false} OffsetsAgree(a: seq<Instruction>, b: seq<Instruction>, k: nat)
    requires k <= |a| && k <= |b|
    requires forall j :: 0 <= j < k ==> |a[j].encoded| == |b[j].encoded|
    ensures OffsetAt(a, k) == OffsetAt(b, k)
  {
    if k > 0 { OffsetsAgree(a, b, k - 1); }
  }

  // Equal boundaries mean equal sizes: the stability test of the fixup pass misses nothing.
  lemma SizesFromOffsets(a: seq<Instruction>, b: seq<Instruction>)
    requires |a| == |b|
    requires forall k :: 0 <= k <= |a| ==> OffsetAt(a, k) == OffsetAt(b, k)
    ensures SameSizes(a, b)
  {
    forall k | 0 <= k < |a| ensures |a[k].encoded| == |b[k].encoded| {
      assert OffsetAt(a, k) == OffsetAt(b, k) && OffsetAt(a, k + 1) == OffsetAt(b, k + 1);
      assert OffsetAt(a, k + 1) == OffsetAt(a, k) + |a[k].encoded|;
    }
  }

  lemma {:induction false} OffsetsMonotone(insns: seq<Instruction>, j: nat, k: nat)
    requires j <= k <= |insns|
    ensures OffsetAt(insns, j) <= OffsetAt(insns, k)
    decreases k
  {
    if j < k { OffsetsMonotone(insns, j, k - 1); }
  }

  lemma {:induction false} OffsetsBounded(arch: Arch, insns: seq<Instruction>, k: nat)
    requires k <= |insns|
    requires AllFaithful(arch, insns)
    ensures OffsetAt(insns, k) <= Span(arch, k)
  {
    if k > 0 {
      OffsetsBounded(arch, insns, k - 1);
      assert Faithful(arch, insns[k - 1]);
    }
  }

  // Instructions of one size lie at multiples of it.
  lemma {:induction false} OffsetsSpan(arch: Arch, insns: seq<Instruction>, k: nat)
    requires k <= |insns|
    requires AllFaithful(arch, insns) && arch.minSize == arch.maxSize
    ensures OffsetAt(insns, k) == Span(arch, k)
  {
    if k > 0 {
      OffsetsSpan(arch, insns, k - 1);
      assert Faithful(arch, insns[k - 1]);
    }
  }
}
