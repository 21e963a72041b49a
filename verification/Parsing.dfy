/** Reading a program from bytes and writing it back (the constructor and ToBytes of fuzzer/program.cc). */
module Parsing {
  import opened Basics
  import opened Isa
  import opened Layout
  import opened Fixup

  // How far to move on when an instruction is rejected.
  function SkipSize(arch: Arch, size: nat): nat {
    if size == 0 then arch.minSize else size
  }

  // The instructions found at `offset` and after it, with their targets still unknown.
  ghost function Decoded(arch: Arch, cfg: Config, bytes: seq<Byte>, offset: nat): seq<Instruction>
    requires Lawful(arch)
    decreases |bytes| - offset
  {
    assert DecodesWell(arch, cfg, bytes[if offset < |bytes| then offset else 0..]);
    if offset >= |bytes| then []
    else match arch.decode(cfg, bytes[offset..])
      case Rejected(size) => Decoded(arch, cfg, bytes, offset + SkipSize(arch, size))
      case Accepted(size, displacement) =>
        [Instruction(bytes[offset..offset + size], DisplacementInfo(displacement, None), offset)]
        + Decoded(arch, cfg, bytes, offset + size)
  }

  // No instruction at `offset` or after it is rejected.
  ghost predicate AllAccepted(arch: Arch, cfg: Config, bytes: seq<Byte>, offset: nat)
    requires Lawful(arch)
    decreases |bytes| - offset
  {
    assert DecodesWell(arch, cfg, bytes[if offset < |bytes| then offset else 0..]);
    offset >= |bytes| ||
    (arch.decode(cfg, bytes[offset..]).Accepted? &&
     AllAccepted(arch, cfg, bytes, offset + arch.decode(cfg, bytes[offset..]).size))
  }

  function Distance(insns: seq<Instruction>, boundary: nat, programOffset: int): nat
    requires insns != [] && boundary <= |insns|
  {
    Magnitude(BoundaryOffset(insns, boundary) - programOffset)
  }

  // The first of the boundaries `0..last` that is closest to an offset.
  ghost function Closest(insns: seq<Instruction>, programOffset: int, last: nat): (b: nat)
    requires insns != [] && last <= |insns|
    ensures b <= last
  {
    if last == 0 then 0
    else
      var b := Closest(insns, programOffset, last - 1);
      if Distance(insns, last, programOffset) < Distance(insns, b, programOffset) then last else b
  }

  lemma {:induction false} ClosestIsClosest(insns: seq<Instruction>, programOffset: int, last: nat)
    requires insns != [] && last <= |insns|
    ensures forall b :: 0 <= b <= last ==>
              Distance(insns, Closest(insns, programOffset, last), programOffset) <= Distance(insns, b, programOffset)
    ensures forall b :: 0 <= b < Closest(insns, programOffset, last) ==>
              Distance(insns, Closest(insns, programOffset, last), programOffset) < Distance(insns, b, programOffset)
  {
    if last > 0 { ClosestIsClosest(insns, programOffset, last - 1); }
  }

  // Resolves a displacement into the closest boundary.
  ghost function ResolvedOne(insns: seq<Instruction>, insn: Instruction): Instruction
    requires insns != []
  {
    if insn.branch.Valid() && insn.branch.boundary.None? then
      insn.(branch := insn.branch.(boundary :=
        Some(Closest(insns, insn.offset + insn.branch.displacement.value, |insns|))))
    else insn
  }

  ghost function Resolved(insns: seq<Instruction>): (r: seq<Instruction>)
    ensures |r| == |insns|
    ensures forall k {:trigger r[k]} :: 0 <= k < |r| ==> r[k] == ResolvedOne(insns, insns[k])
  {
    seq(|insns|, k requires 0 <= k < |insns| => ResolvedOne(insns, insns[k]))
  }

  // Every displacement points exactly at a boundary.
  ghost predicate Exact(insns: seq<Instruction>) {
    forall k :: 0 <= k < |insns| && insns[k].branch.Valid() && insns[k].branch.boundary.None? ==>
      ExactAt(insns, k)
  }

  ghost predicate ExactAt(insns: seq<Instruction>, k: nat)
    requires k < |insns| && insns[k].branch.Valid()
  {
    var programOffset := insns[k].offset + insns[k].branch.displacement.value;
    BoundaryOffset(insns, Closest(insns, programOffset, |insns|)) == programOffset
  }

  // The program that bytes denote.
  ghost function Parsed(arch: Arch, cfg: Config, bytes: seq<Byte>): seq<Instruction>
    requires Lawful(arch)
  {
    Relaid(Resolved(Decoded(arch, cfg, bytes, 0)))
  }

  // What the strict mode of the constructor checks.
  ghost predicate StrictOk(arch: Arch, cfg: Config, bytes: seq<Byte>)
    requires Lawful(arch)
  {
    AllAccepted(arch, cfg, bytes, 0) && Exact(Decoded(arch, cfg, bytes, 0))
  }

  // The bytes of the first `k` instructions.
  ghost function BytesOf(insns: seq<Instruction>, k: nat): (bytes: seq<Byte>)
    requires k <= |insns|
    ensures |bytes| == OffsetAt(insns, k)
  {
    if k == 0 then [] else BytesOf(insns, k - 1) + insns[k - 1].encoded
  }

  // The instruction is one that decoding its bytes gives.
  ghost predicate Clean(arch: Arch, cfg: Config, insn: Instruction) {
    Whole(arch, cfg, insn.encoded) &&
    insn.branch.displacement == Limited(arch.displacement(insn.encoded), cfg.fixupLimit)
  }

  ghost predicate AllClean(arch: Arch, cfg: Config, insns: seq<Instruction>) {
    forall k :: 0 <= k < |insns| ==> Clean(arch, cfg, insns[k])
  }

  // Forgets the target, as in a freshly decoded instruction.
  ghost function Unresolved(insn: Instruction): Instruction {
    insn.(branch := insn.branch.(boundary := None))
  }

  lemma {:induction false} BytesSplit(insns: seq<Instruction>, j: nat, k: nat)
    requires j < k <= |insns|
    ensures OffsetAt(insns, j + 1) <= OffsetAt(insns, k)
    ensures BytesOf(insns, k)[OffsetAt(insns, j)..] ==
            insns[j].encoded + BytesOf(insns, k)[OffsetAt(insns, j + 1)..]
    decreases k
  {
    if j < k - 1 {
      BytesSplit(insns, j, k - 1);
    }
  }

  ghost function AllUnresolved(insns: seq<Instruction>): (r: seq<Instruction>)
    ensures |r| == |insns|
    ensures forall k {:trigger r[k]} :: 0 <= k < |r| ==> r[k] == Unresolved(insns[k])
  {
    seq(|insns|, k requires 0 <= k < |insns| => Unresolved(insns[k]))
  }

  ghost function UnresolvedFrom(insns: seq<Instruction>, j: nat): seq<Instruction>
    requires j <= |insns|
    decreases |insns| - j
  {
    if j == |insns| then [] else [Unresolved(insns[j])] + UnresolvedFrom(insns, j + 1)
  }

  lemma {:induction false} UnresolvedSuffix(insns: seq<Instruction>, j: nat)
    requires j <= |insns|
    ensures UnresolvedFrom(insns, j) == AllUnresolved(insns)[j..]
    decreases |insns| - j
  {
    if j < |insns| { UnresolvedSuffix(insns, j + 1); }
  }

  // Instruction `j` occupies the bytes from its offset to the start of the next one, or to the end.
  ghost predicate PackedAt(bytes: seq<Byte>, insns: seq<Instruction>, j: nat)
    requires j < |insns|
  {
    && insns[j].offset + |insns[j].encoded| == StartOf(bytes, insns, j + 1) <= |bytes|
    && bytes[insns[j].offset..] == insns[j].encoded + bytes[insns[j].offset + |insns[j].encoded|..]
  }

  ghost function StartOf(bytes: seq<Byte>, insns: seq<Instruction>, j: nat): nat
    requires j <= |insns|
  {
    if j < |insns| then insns[j].offset else |bytes|
  }

  lemma StartIsOffset(insns: seq<Instruction>, j: nat)
    requires LaidOut(insns) && j <= |insns|
    ensures StartOf(BytesOf(insns, |insns|), insns, j) == OffsetAt(insns, j)
  {
  }

  lemma BytesPacked(insns: seq<Instruction>, j: nat)
    requires LaidOut(insns) && j < |insns|
    ensures PackedAt(BytesOf(insns, |insns|), insns, j)
    ensures insns[0].offset == 0
  {
    BytesSplit(insns, j, |insns|);
    StartIsOffset(insns, j);
    StartIsOffset(insns, j + 1);
    PackedFrom(BytesOf(insns, |insns|), insns, j, OffsetAt(insns, j), OffsetAt(insns, j + 1));
  }

  lemma PackedFrom(bytes: seq<Byte>, insns: seq<Instruction>, j: nat, start: nat, next: nat)
    requires j < |insns| && insns[j].offset == start && StartOf(bytes, insns, j + 1) == next <= |bytes|
    requires next == start + |insns[j].encoded| && bytes[start..] == insns[j].encoded + bytes[next..]
    ensures PackedAt(bytes, insns, j)
  {
  }

  // Decoding the bytes of clean instructions gives those instructions back, one by one.
  lemma {:induction false} DecodedBack(arch: Arch, cfg: Config, bytes: seq<Byte>, insns: seq<Instruction>, j: nat)
    requires Lawful(arch) && Reparsable(arch)
    requires forall k {:trigger PackedAt(bytes, insns, k)} :: 0 <= k < |insns| ==> PackedAt(bytes, insns, k)
    requires AllClean(arch, cfg, insns) && j <= |insns|
    ensures AllAccepted(arch, cfg, bytes, StartOf(bytes, insns, j))
    ensures Decoded(arch, cfg, bytes, StartOf(bytes, insns, j)) == UnresolvedFrom(insns, j)
    decreases |insns| - j
  {
    if j < |insns| {
      assert PackedAt(bytes, insns, j) && Clean(arch, cfg, insns[j]);
      DecodedBack(arch, cfg, bytes, insns, j + 1);
      DecodedBackStep(arch, cfg, bytes, insns, j);
    }
  }

  lemma DecodedBackStep(arch: Arch, cfg: Config, bytes: seq<Byte>, insns: seq<Instruction>, j: nat)
    requires Lawful(arch) && Reparsable(arch)
    requires j < |insns| && PackedAt(bytes, insns, j) && Clean(arch, cfg, insns[j])
    requires AllAccepted(arch, cfg, bytes, StartOf(bytes, insns, j + 1))
    requires Decoded(arch, cfg, bytes, StartOf(bytes, insns, j + 1)) == UnresolvedFrom(insns, j + 1)
    ensures AllAccepted(arch, cfg, bytes, StartOf(bytes, insns, j))
    ensures Decoded(arch, cfg, bytes, StartOf(bytes, insns, j)) == UnresolvedFrom(insns, j)
  {
    DecodeStep(arch, cfg, bytes, insns[j], bytes[insns[j].offset + |insns[j].encoded|..]);
  }

  // A clean instruction found in the bytes at its own offset is decoded first.
  lemma DecodeStep(arch: Arch, cfg: Config, bytes: seq<Byte>, insn: Instruction, rest: seq<Byte>)
    requires Lawful(arch) && Reparsable(arch) && Clean(arch, cfg, insn)
    requires insn.offset <= |bytes| && bytes[insn.offset..] == insn.encoded + rest
    ensures var next := insn.offset + |insn.encoded|;
            && AllAccepted(arch, cfg, bytes, insn.offset) == AllAccepted(arch, cfg, bytes, next)
            && Decoded(arch, cfg, bytes, insn.offset) == [Unresolved(insn)] + Decoded(arch, cfg, bytes, next)
  {
    DecodeOne(arch, cfg, insn);
    assert LooksNoFurther(arch, cfg, insn.encoded, rest);
    assert bytes[insn.offset..insn.offset + |insn.encoded|] == bytes[insn.offset..][..|insn.encoded|];
  }

  lemma DecodeOne(arch: Arch, cfg: Config, insn: Instruction)
    requires Lawful(arch) && Clean(arch, cfg, insn)
    ensures arch.decode(cfg, insn.encoded) == Accepted(|insn.encoded|, insn.branch.displacement)
    ensures 0 < |insn.encoded|
  {
    assert insn.encoded[..|insn.encoded|] == insn.encoded;
    assert DecodesWell(arch, cfg, insn.encoded);
  }

  ghost predicate NoneEmpty(insns: seq<Instruction>) {
    forall k :: 0 <= k < |insns| ==> |insns[k].encoded| > 0
  }

  lemma {:induction false} OffsetsIncrease(insns: seq<Instruction>, j: nat, k: nat)
    requires j <= |insns| && k <= |insns|
    requires NoneEmpty(insns)
    ensures j < k ==> OffsetAt(insns, j) < OffsetAt(insns, k)
    decreases k
  {
    if j < k - 1 { OffsetsIncrease(insns, j, k - 1); }
  }

  // The offset is that of boundary `b`, and resolves to it.
  ghost predicate ResolvesTo(insns: seq<Instruction>, programOffset: int, b: nat)
    requires insns != [] && b <= |insns|
  {
    Closest(insns, programOffset, |insns|) == b && BoundaryOffset(insns, b) == programOffset
  }

  // Sizes are positive, so the boundary at an offset is unique and is the closest one to it.
  lemma ClosestUnique(insns: seq<Instruction>, programOffset: int, b: nat)
    requires insns != [] && b <= |insns| && LaidOut(insns)
    requires NoneEmpty(insns)
    requires programOffset == OffsetAt(insns, b)
    ensures ResolvesTo(insns, programOffset, b)
  {
    var c := Closest(insns, programOffset, |insns|);
    ClosestIsClosest(insns, programOffset, |insns|);
    BoundaryOffsetExact(insns, b);
    assert Distance(insns, c, programOffset) <= Distance(insns, b, programOffset);
    BoundaryOffsetExact(insns, c);
    OffsetsIncrease(insns, c, b);
    OffsetsIncrease(insns, b, c);
  }

  // Resolving instruction `k` of `u` exactly gives `insn`.
  ghost predicate ResolvedExactly(u: seq<Instruction>, k: nat, insn: Instruction)
    requires k < |u|
  {
    ResolvedOne(u, u[k]) == insn && (u[k].branch.Valid() ==> ExactAt(u, k))
  }

  lemma ResolvedBackAt(u: seq<Instruction>, k: nat, insn: Instruction, programOffset: int, b: nat)
    requires k < |u| && u[k] == Unresolved(insn) && b <= |u| && ResolvesTo(u, programOffset, b)
    requires insn.branch.displacement.Some? && insn.offset + insn.branch.displacement.value == programOffset
    requires insn.branch.boundary.Some? && insn.branch.boundary.value == b
    ensures ResolvedExactly(u, k, insn)
  {
  }

  lemma ResolvesBackAt(insns: seq<Instruction>, u: seq<Instruction>, k: nat)
    requires LaidOut(insns) && LaidOut(u) && NoneEmpty(u) && SameSizes(u, insns)
    requires AllTargeted(insns) && k < |insns| && u[k] == Unresolved(insns[k]) && InSyncAt(insns, k)
    ensures ResolvedExactly(u, k, insns[k])
  {
    assert Targeted(insns[k], |insns| + 1);
    if insns[k].branch.Valid() {
      var b := insns[k].branch.boundary.value;
      OffsetsAgree(u, insns, b);
      ClosestUnique(u, OffsetAt(u, b), b);
      ResolvedBackAt(u, k, insns[k], OffsetAt(u, b), b);
    }
  }

  // Resolving the encoded displacements of a program in sync finds its symbolic targets.
  lemma ResolvedBack(insns: seq<Instruction>)
    requires LaidOut(insns) && AllTargeted(insns) && InSync(insns)
    requires NoneEmpty(insns)
    ensures Exact(AllUnresolved(insns)) && Resolved(AllUnresolved(insns)) == insns
  {
    var u := AllUnresolved(insns);
    SameLayout(insns, u);
    forall k | 0 <= k < |insns| ensures ResolvedExactly(u, k, insns[k]) {
      assert InSyncAt(insns, k);
      ResolvesBackAt(insns, u, k);
    }
    ResolvedAll(insns, u);
  }

  lemma ResolvedAll(insns: seq<Instruction>, u: seq<Instruction>)
    requires |u| == |insns|
    requires forall k :: 0 <= k < |insns| ==> ResolvedExactly(u, k, insns[k])
    ensures Exact(u) && Resolved(u) == insns
  {
    forall k | 0 <= k < |insns|
      ensures Resolved(u)[k] == insns[k] && (u[k].branch.Valid() ==> ExactAt(u, k))
    {
      assert ResolvedExactly(u, k, insns[k]);
    }
  }

  // The parse/print round trip: a laid out, clean program in sync reads back strictly, as itself.
  lemma RoundTrip(arch: Arch, cfg: Config, insns: seq<Instruction>)
    requires Lawful(arch) && Reparsable(arch)
    requires LaidOut(insns) && AllTargeted(insns) && InSync(insns) && AllClean(arch, cfg, insns)
    ensures StrictOk(arch, cfg, BytesOf(insns, |insns|))
    ensures Parsed(arch, cfg, BytesOf(insns, |insns|)) == insns
  {
    forall i | 0 <= i < |insns| ensures |insns[i].encoded| > 0 {
      assert Clean(arch, cfg, insns[i]);
      DecodeOne(arch, cfg, insns[i]);
    }
    DecodedAll(arch, cfg, insns);
    ResolvedBack(insns);
    RelaidLaidOut(insns);
  }

  // After a fixup the instructions are still accepted, and an instruction is clean unless it
  // is a branch whose new displacement is beyond the limit of the configuration.
  lemma RewrittenClean(arch: Arch, cfg: Config, was: Instruction, now: Instruction)
    requires Lawful(arch) && Reparsable(arch)
    requires Clean(arch, cfg, was) && Faithful(arch, was) && Faithful(arch, now) && Rewritten(arch, was, now)
    ensures Whole(arch, cfg, now.encoded)
    ensures Clean(arch, cfg, now) <==>
              (now.branch.Valid() ==> WithinFixupLimit(now.branch.displacement.value, cfg.fixupLimit))
  {
    if now.encoded != was.encoded {
      assert Encodes(arch, was.encoded, now.branch.displacement.value);
      assert StaysWhole(arch, cfg, was.encoded, now.branch.displacement.value);
    }
  }

  // The default limit is beyond every displacement.
  lemma DefaultLimit(arch: Arch, insn: Instruction)
    requires Reparsable(arch) && Faithful(arch, insn) && insn.branch.Valid()
    ensures WithinFixupLimit(insn.branch.displacement.value, DEFAULT_CONFIG.fixupLimit)
  {
    assert FitsWord(arch, insn.encoded);
  }

  // What decoding makes of an instruction: a displacement beyond the limit is not a branch.
  ghost function AsDecoded(arch: Arch, cfg: Config, insn: Instruction): Instruction {
    var d := Limited(arch.displacement(insn.encoded), cfg.fixupLimit);
    insn.(branch := DisplacementInfo(d, if d.Some? then insn.branch.boundary else None))
  }

  // Reading back whole instructions recovers every encoding, and the displacements up to the limit.
  lemma ParsedEncodings(arch: Arch, cfg: Config, insns: seq<Instruction>)
    requires Lawful(arch) && Reparsable(arch) && LaidOut(insns)
    requires forall k :: 0 <= k < |insns| ==> Whole(arch, cfg, insns[k].encoded)
    ensures var parsed := Parsed(arch, cfg, BytesOf(insns, |insns|));
            && |parsed| == |insns|
            && forall k :: 0 <= k < |insns| ==>
                 && parsed[k].encoded == insns[k].encoded
                 && parsed[k].branch.displacement == Limited(arch.displacement(insns[k].encoded), cfg.fixupLimit)
  {
    var clean := AllAsDecoded(arch, cfg, insns);
    SameLayout(insns, clean);
    assert AllClean(arch, cfg, clean);
    SameBytes(insns, clean, |insns|);
    DecodedAll(arch, cfg, clean);
  }

  ghost function AllAsDecoded(arch: Arch, cfg: Config, insns: seq<Instruction>): (r: seq<Instruction>)
    ensures |r| == |insns|
    ensures forall k {:trigger r[k]} :: 0 <= k < |r| ==> r[k] == AsDecoded(arch, cfg, insns[k])
  {
    seq(|insns|, k requires 0 <= k < |insns| => AsDecoded(arch, cfg, insns[k]))
  }

  lemma SameLayout(a: seq<Instruction>, b: seq<Instruction>)
    requires LaidOut(a) && |a| == |b|
    requires forall k :: 0 <= k < |a| ==> a[k].encoded == b[k].encoded && a[k].offset == b[k].offset
    ensures LaidOut(b)
  {
    forall k | 0 <= k < |b| ensures b[k].offset == OffsetAt(b, k) {
      OffsetsAgree(a, b, k);
      assert b[k].offset == a[k].offset;
    }
  }

  // All of a laid out, clean program is decoded again.
  lemma DecodedAll(arch: Arch, cfg: Config, insns: seq<Instruction>)
    requires Lawful(arch) && Reparsable(arch) && LaidOut(insns) && AllClean(arch, cfg, insns)
    ensures AllAccepted(arch, cfg, BytesOf(insns, |insns|), 0)
    ensures Decoded(arch, cfg, BytesOf(insns, |insns|), 0) == AllUnresolved(insns)
  {
    var bytes := BytesOf(insns, |insns|);
    forall i | 0 <= i < |insns| ensures PackedAt(bytes, insns, i) && insns[0].offset == 0 {
      BytesPacked(insns, i);
    }
    DecodedBack(arch, cfg, bytes, insns, 0);
    assert StartOf(bytes, insns, 0) == 0;
    UnresolvedSuffix(insns, 0);
    assert AllUnresolved(insns)[0..] == AllUnresolved(insns);
  }

  lemma {:induction false} SameBytes(a: seq<Instruction>, b: seq<Instruction>, k: nat)
    requires |a| == |b| && k <= |a|
    requires forall j :: 0 <= j < |a| ==> a[j].encoded == b[j].encoded
    ensures BytesOf(a, k) == BytesOf(b, k)
  {
    if k > 0 { SameBytes(a, b, k - 1); }
  }

  // A branch whose displacement the reader's limit hides.
  ghost predicate BeyondLimit(cfg: Config, insn: Instruction) {
    insn.branch.Valid() && !WithinFixupLimit(insn.branch.displacement.value, cfg.fixupLimit)
  }

  // What the reader makes of a fixed up instruction: a branch beyond its limit is no branch.
  ghost function ReadUpTo(cfg: Config, insn: Instruction): Instruction {
    if BeyondLimit(cfg, insn) then insn.(branch := DisplacementInfo(None, None)) else insn
  }

  lemma AsDecodedIs(arch: Arch, cfg: Config, was: Instruction, now: Instruction)
    requires Lawful(arch) && Reparsable(arch)
    requires Clean(arch, cfg, was) && Faithful(arch, was) && Faithful(arch, now) && Rewritten(arch, was, now)
    requires now.branch.Valid() || now.branch.boundary.None?
    ensures Clean(arch, cfg, AsDecoded(arch, cfg, now))
    ensures AsDecoded(arch, cfg, now) == ReadUpTo(cfg, now)
  {
    RewrittenClean(arch, cfg, was, now);
  }

  lemma AsDecodedInSync(arch: Arch, cfg: Config, now: seq<Instruction>)
    requires LaidOut(now) && AllTargeted(now) && InSync(now)
    requires forall k :: 0 <= k < |now| ==> AsDecoded(arch, cfg, now[k]) == ReadUpTo(cfg, now[k])
    ensures var r := AllAsDecoded(arch, cfg, now);
            LaidOut(r) && AllTargeted(r) && InSync(r)
  {
    var r := AllAsDecoded(arch, cfg, now);
    SameLayout(now, r);
    forall k | 0 <= k < |r| ensures Targeted(r[k], |r| + 1) {
      assert Targeted(now[k], |now| + 1) && r[k] == AsDecoded(arch, cfg, now[k]);
    }
    forall k | 0 <= k < |r| ensures InSyncAt(r, k) {
      assert InSyncAt(now, k) && r[k] == AsDecoded(arch, cfg, now[k]) && Targeted(r[k], |r| + 1);
      if r[k].branch.Valid() {
        OffsetsAgree(r, now, r[k].branch.boundary.value);
        OffsetsAgree(r, now, k);
      }
    }
  }

  // A program that was parsed and then fixed up always reads back strictly, with every branch up to
  // the limit and its target.  It reads back as itself exactly if no branch is beyond the limit.
  lemma FixedUpRoundTrip(arch: Arch, cfg: Config, was: seq<Instruction>, now: seq<Instruction>)
    requires Lawful(arch) && Reparsable(arch)
    requires AllClean(arch, cfg, was) && AllFaithful(arch, was) && AllRewritten(arch, was, now)
    requires LaidOut(now) && AllTargeted(now) && AllFaithful(arch, now) && InSync(now)
    ensures StrictOk(arch, cfg, BytesOf(now, |now|))
    ensures var parsed := Parsed(arch, cfg, BytesOf(now, |now|));
            |parsed| == |now| && forall k :: 0 <= k < |now| ==> parsed[k] == ReadUpTo(cfg, now[k])
    ensures Parsed(arch, cfg, BytesOf(now, |now|)) == now <==> forall k :: 0 <= k < |now| ==> !BeyondLimit(cfg, now[k])
  {
    var read := AllAsDecoded(arch, cfg, now);
    forall k | 0 <= k < |now|
      ensures Clean(arch, cfg, read[k])
      ensures AsDecoded(arch, cfg, now[k]) == ReadUpTo(cfg, now[k])
    {
      assert Clean(arch, cfg, was[k]) && Faithful(arch, was[k]) && Faithful(arch, now[k]);
      assert Rewritten(arch, was[k], now[k]) && Targeted(now[k], |now| + 1);
      AsDecodedIs(arch, cfg, was[k], now[k]);
    }
    AsDecodedInSync(arch, cfg, now);
    SameBytes(now, read, |now|);
    RoundTrip(arch, cfg, read);
  }

  // Under the default configuration, whose limit no branch reaches, a program always reads back
  // after a fixup.
  lemma DefaultRoundTrip(arch: Arch, was: seq<Instruction>, now: seq<Instruction>)
    requires Lawful(arch) && Reparsable(arch)
    requires AllClean(arch, DEFAULT_CONFIG, was) && AllFaithful(arch, was) && AllRewritten(arch, was, now)
    requires LaidOut(now) && AllTargeted(now) && AllFaithful(arch, now) && InSync(now)
    ensures StrictOk(arch, DEFAULT_CONFIG, BytesOf(now, |now|))
    ensures Parsed(arch, DEFAULT_CONFIG, BytesOf(now, |now|)) == now
  {
    forall k | 0 <= k < |now| && now[k].branch.Valid()
      ensures WithinFixupLimit(now[k].branch.displacement.value, DEFAULT_CONFIG.fixupLimit)
    {
      assert Faithful(arch, now[k]);
      DefaultLimit(arch, now[k]);
    }
    FixedUpRoundTrip(arch, DEFAULT_CONFIG, was, now);
  }

  // Where reading goes on after the instruction at `from`: behind it if it was accepted or its size is
  // known, and otherwise after the smallest possible instruction.
  ghost predicate GoesOn(arch: Arch, cfg: Config, bytes: seq<Byte>, from: nat, to: nat)
    requires from <= |bytes|
  {
    var outcome := arch.decode(cfg, bytes[from..]);
    to == from + if outcome.Rejected? && outcome.size == 0 then arch.minSize else outcome.size
  }

  // The offsets at which an instruction is looked for, and the first one beyond the bytes.
  ghost predicate IsWalk(arch: Arch, cfg: Config, bytes: seq<Byte>, stops: seq<nat>) {
    && stops != [] && stops[0] == 0 && stops[|stops| - 1] >= |bytes|
    && (forall k: nat :: k + 1 < |stops| ==> stops[k] < |bytes|)
    && (forall k: nat :: k + 1 < |stops| ==> WalksOn(arch, cfg, bytes, stops, k))
  }

  ghost predicate WalksOn(arch: Arch, cfg: Config, bytes: seq<Byte>, stops: seq<nat>, k: nat)
    requires k + 1 < |stops|
  {
    stops[k] < |bytes| && GoesOn(arch, cfg, bytes, stops[k], stops[k + 1])
  }

  // The instruction that is accepted at an offset, if there is one.
  ghost function AcceptedAt(arch: Arch, cfg: Config, bytes: seq<Byte>, offset: nat): seq<Instruction>
    requires Lawful(arch) && offset < |bytes|
  {
    assert DecodesWell(arch, cfg, bytes[offset..]);
    match arch.decode(cfg, bytes[offset..])
    case Rejected(_) => []
    case Accepted(size, displacement) =>
      [Instruction(bytes[offset..offset + size], DisplacementInfo(displacement, None), offset)]
  }

  ghost function AcceptedFrom(arch: Arch, cfg: Config, bytes: seq<Byte>, stops: seq<nat>, j: nat): seq<Instruction>
    requires Lawful(arch) && IsWalk(arch, cfg, bytes, stops) && j < |stops|
    decreases |stops| - j
  {
    if j + 1 == |stops| then []
    else AcceptedAt(arch, cfg, bytes, stops[j]) + AcceptedFrom(arch, cfg, bytes, stops, j + 1)
  }

  // Reading finds exactly the instructions that are accepted on the walk over the bytes, in order, and
  // strict reading asks that all of them are.
  lemma {:induction false} WalkFinds(arch: Arch, cfg: Config, bytes: seq<Byte>, stops: seq<nat>, j: nat)
    requires Lawful(arch) && IsWalk(arch, cfg, bytes, stops) && j < |stops|
    ensures Decoded(arch, cfg, bytes, stops[j]) == AcceptedFrom(arch, cfg, bytes, stops, j)
    ensures AllAccepted(arch, cfg, bytes, stops[j]) <==>
            forall k: nat :: j <= k && k + 1 < |stops| ==> AcceptedAt(arch, cfg, bytes, stops[k]) != []
    decreases |stops| - j
  {
    if j + 1 < |stops| {
      assert WalksOn(arch, cfg, bytes, stops, j);
      WalkFinds(arch, cfg, bytes, stops, j + 1);
      assert DecodesWell(arch, cfg, bytes[stops[j]..]);
    }
  }

  // There is a walk over the bytes, and only one.
  lemma {:induction false} WalkFrom(arch: Arch, cfg: Config, bytes: seq<Byte>, offset: nat) returns (rest: seq<nat>)
    requires Lawful(arch)
    ensures rest != [] && rest[0] == offset && rest[|rest| - 1] >= |bytes|
    ensures forall k: nat :: k + 1 < |rest| ==> rest[k] < |bytes|
    ensures forall k: nat :: k + 1 < |rest| ==> WalksOn(arch, cfg, bytes, rest, k)
    decreases |bytes| - offset
  {
    if offset >= |bytes| {
      return [offset];
    }
    assert DecodesWell(arch, cfg, bytes[offset..]);
    var outcome := arch.decode(cfg, bytes[offset..]);
    var next := offset + if outcome.Rejected? && outcome.size == 0 then arch.minSize else outcome.size;
    var tail := WalkFrom(arch, cfg, bytes, next);
    rest := [offset] + tail;
    forall k: nat | k + 1 < |rest| ensures rest[k] < |bytes| && WalksOn(arch, cfg, bytes, rest, k) {
      if k > 0 {
        assert WalksOn(arch, cfg, bytes, tail, k - 1);
        assert rest[k] == tail[k - 1] && rest[k + 1] == tail[k];
      }
    }
  }

  lemma {:induction false} WalkUnique(arch: Arch, cfg: Config, bytes: seq<Byte>, one: seq<nat>, two: seq<nat>, k: nat)
    requires IsWalk(arch, cfg, bytes, one) && IsWalk(arch, cfg, bytes, two) && k < |one|
    ensures k < |two| && one[k] == two[k] && (k + 1 == |one| <==> k + 1 == |two|)
  {
    if k > 0 {
      WalkUnique(arch, cfg, bytes, one, two, k - 1);
      assert WalksOn(arch, cfg, bytes, one, k - 1) && WalksOn(arch, cfg, bytes, two, k - 1);
    }
  }
}
