/** The decoding constructor of fuzzer/program.cc. */
module Reader {
  import opened Basics
  import opened Isa
  import opened Layout
  import opened Fixup
  import opened Parsing
  import opened ProgramEditor

  // What every freshly decoded instruction satisfies.
  ghost predicate Fresh(arch: Arch, insn: Instruction) {
    Faithful(arch, insn) && insn.branch.boundary.None?
  }

  ghost predicate FreshAll(arch: Arch, cfg: Config, insns: seq<Instruction>) {
    && (forall k :: 0 <= k < |insns| ==> Fresh(arch, insns[k]))
    && (Reparsable(arch) ==> AllClean(arch, cfg, insns))
  }

  lemma FreshAllNext(arch: Arch, cfg: Config, insn: Instruction, rest: seq<Instruction>)
    requires Fresh(arch, insn) && (Reparsable(arch) ==> Clean(arch, cfg, insn))
    requires FreshAll(arch, cfg, rest)
    ensures FreshAll(arch, cfg, [insn] + rest)
  {
  }

  lemma {:induction false} DecodedFresh(arch: Arch, cfg: Config, bytes: seq<Byte>, offset: nat)
    requires Lawful(arch)
    ensures FreshAll(arch, cfg, Decoded(arch, cfg, bytes, offset))
    decreases |bytes| - offset
  {
    if offset < |bytes| {
      assert DecodesWell(arch, cfg, bytes[offset..]);
      match arch.decode(cfg, bytes[offset..])
      case Rejected(size) =>
        DecodedFresh(arch, cfg, bytes, offset + SkipSize(arch, size));
      case Accepted(size, displacement) =>
        DecodedFresh(arch, cfg, bytes, offset + size);
        var insn := Instruction(bytes[offset..offset + size], DisplacementInfo(displacement, None), offset);
        assert bytes[offset..][..size] == insn.encoded;
        assert Reparsable(arch) ==> LooksNoNearer(arch, cfg, bytes[offset..]);
        FreshAllNext(arch, cfg, insn, Decoded(arch, cfg, bytes, offset + size));
    }
  }

  // Decodes as many instructions as possible, dropping those that are rejected.  None when
  // a rejected instruction violates the strict mode.
  method DecodeAll(arch: Arch, cfg: Config, bytes: seq<Byte>, strict: bool) returns (r: Option<seq<Instruction>>)
    requires Lawful(arch)
    ensures r.None? <==> strict && !AllAccepted(arch, cfg, bytes, 0)
    ensures r.Some? ==> r.value == Decoded(arch, cfg, bytes, 0)
  {
    var insns := [];
    var offset := 0;
    ghost var all := Decoded(arch, cfg, bytes, 0);
    ghost var allAccepted := AllAccepted(arch, cfg, bytes, 0);
    while offset < |bytes|
      invariant insns + Decoded(arch, cfg, bytes, offset) == all
      invariant strict ==> (allAccepted <==> AllAccepted(arch, cfg, bytes, offset))
      decreases |bytes| - offset
    {
      var insn, next := DecodeNext(arch, cfg, bytes, offset);
      if insn.Some? {
        insns := insns + [insn.value];
      } else if strict {
        return None;
      }
      offset := next;
    }
    return Some(insns);
  }

  // Decodes the instruction at `offset` and says where to go on.
  method DecodeNext(arch: Arch, cfg: Config, bytes: seq<Byte>, offset: nat)
    returns (insn: Option<Instruction>, next: nat)
    requires Lawful(arch) && offset < |bytes|
    ensures offset < next
    ensures insn.Some? ==>
              && Decoded(arch, cfg, bytes, offset) == [insn.value] + Decoded(arch, cfg, bytes, next)
              && AllAccepted(arch, cfg, bytes, offset) == AllAccepted(arch, cfg, bytes, next)
    ensures insn.None? ==>
              && Decoded(arch, cfg, bytes, offset) == Decoded(arch, cfg, bytes, next)
              && !AllAccepted(arch, cfg, bytes, offset)
  {
    assert DecodesWell(arch, cfg, bytes[offset..]);
    match arch.decode(cfg, bytes[offset..])
    case Rejected(size) =>
      return None, offset + SkipSize(arch, size);
    case Accepted(size, displacement) =>
      insn := Some(Instruction(bytes[offset..offset + size], DisplacementInfo(displacement, None), offset));
      return insn, offset + size;
  }

  // The first boundary that is closest to an offset.
  method FindClosestInstructionBoundary(insns: seq<Instruction>, programOffset: int) returns (closest: nat)
    requires insns != []
    ensures closest == Closest(insns, programOffset, |insns|)
    ensures closest <= |insns|
  {
    closest := 0;
    var smallest := Distance(insns, 0, programOffset);
    for i := 1 to |insns| + 1
      invariant closest == Closest(insns, programOffset, i - 1)
      invariant smallest == Distance(insns, closest, programOffset)
    {
      var distance := Distance(insns, i, programOffset);
      if distance < smallest {
        smallest := distance;
        closest := i;
      }
    }
  }

  // Gives every unresolved branch its closest boundary.  None when the strict mode finds
  // a displacement that does not point at a boundary.
  method ResolveDisplacements(insns: seq<Instruction>, strict: bool) returns (r: Option<seq<Instruction>>)
    ensures r.None? <==> strict && !Exact(insns)
    ensures r.Some? ==> r.value == Resolved(insns)
  {
    var resolved := [];
    for i := 0 to |insns|
      invariant |resolved| == i
      invariant forall k {:trigger resolved[k]} :: 0 <= k < i ==> resolved[k] == ResolvedOne(insns, insns[k])
      invariant strict ==> forall k :: 0 <= k < i && insns[k].branch.Valid() && insns[k].branch.boundary.None? ==>
                  ExactAt(insns, k)
    {
      var insn := insns[i];
      if insn.branch.Valid() && insn.branch.boundary.None? {
        var programOffset := insn.offset + insn.branch.displacement.value;
        var boundary := FindClosestInstructionBoundary(insns, programOffset);
        if strict && BoundaryOffset(insns, boundary) != programOffset {
          assert !ExactAt(insns, i);
          return None;
        }
        insn := insn.(branch := insn.branch.(boundary := Some(boundary)));
      }
      resolved := resolved + [insn];
    }
    return Some(resolved);
  }

  lemma ResolvedValid(arch: Arch, cfg: Config, insns: seq<Instruction>)
    requires forall k :: 0 <= k < |insns| ==> Fresh(arch, insns[k])
    ensures AllTargeted(Resolved(insns)) && AllFaithful(arch, Resolved(insns))
    ensures AllClean(arch, cfg, insns) ==> AllClean(arch, cfg, Resolved(insns))
  {
    var resolved := Resolved(insns);
    forall k | 0 <= k < |insns|
      ensures Targeted(resolved[k], |insns| + 1) && Faithful(arch, resolved[k])
      ensures Clean(arch, cfg, insns[k]) ==> Clean(arch, cfg, resolved[k])
    {
      assert Fresh(arch, insns[k]);
      assert resolved[k] == ResolvedOne(insns, insns[k]);
    }
  }

  // Disassembles bytes into a program.  None stands for a failed check of the strict mode.
  method Parse(arch: Arch, cfg: Config, bytes: seq<Byte>, strict: bool) returns (r: Option<Program>)
    requires Lawful(arch)
    ensures r.None? <==> strict && !StrictOk(arch, cfg, bytes)
    ensures r.Some? ==> fresh(r.value) && r.value.arch == arch
    ensures r.Some? ==> r.value.Valid() && LaidOut(r.value.instructions) && r.value.encodingsMayBeInvalid
    ensures r.Some? ==> r.value.instructions == Parsed(arch, cfg, bytes)
    ensures exists stops: seq<nat> :: IsWalk(arch, cfg, bytes, stops)
    ensures forall stops: seq<nat> :: IsWalk(arch, cfg, bytes, stops) && r.Some? ==>
              r.value.instructions == Relaid(Resolved(AcceptedFrom(arch, cfg, bytes, stops, 0)))
    ensures r.Some? && Reparsable(arch) ==> r.value.IsClean(cfg)
  {
    ghost var walk := WalkFrom(arch, cfg, bytes, 0);
    assert IsWalk(arch, cfg, bytes, walk);
    forall stops: seq<nat> | IsWalk(arch, cfg, bytes, stops)
      ensures Decoded(arch, cfg, bytes, 0) == AcceptedFrom(arch, cfg, bytes, stops, 0)
    {
      WalkFinds(arch, cfg, bytes, stops, 0);
    }
    var insns :- DecodeAll(arch, cfg, bytes, strict);
    var resolved :- ResolveDisplacements(insns, strict);
    DecodedFresh(arch, cfg, bytes, 0);
    ResolvedValid(arch, cfg, insns);
    RelaidValid(arch, resolved);
    var relaid, byteLen := FixupInvariants(resolved);
    var program := new Program.Of(arch, relaid, byteLen, true);
    return Some(program);
  }
}
