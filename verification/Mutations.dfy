/** The mutation operators of fuzzer/program_mutation_ops.h and .cc. */
module Mutations {
  import opened Basics
  import opened Bits
  import opened Isa
  import opened Layout
  import opened Rng
  import opened Fixup
  import opened Edits
  import opened Parsing

  // A decoded instruction whose target has not been chosen.
  ghost predicate Untargeted(arch: Arch, insn: Instruction) {
    && insn.branch.boundary.None?
    && Faithful(arch, insn)
    && (Reparsable(arch) ==> Clean(arch, DEFAULT_CONFIG, insn))
  }

  // Points a branch at a random boundary.
  method RandomizeBoundary(rng: MutatorRng, info: DisplacementInfo, numBoundaries: nat)
    returns (r: Option<DisplacementInfo>)
    requires numBoundaries > 0
    modifies rng
    ensures r.Some? ==> r.value.displacement == info.displacement
    ensures r.Some? && info.Valid() ==> r.value.boundary.Some? && r.value.boundary.value < numBoundaries
    ensures r.Some? && info.Valid() ==> Took(old(rng.draws), rng.draws, numBoundaries, r.value.boundary.value)
    ensures !info.Valid() ==> r == Some(info) && rng.draws == old(rng.draws)
    ensures |rng.draws| <= |old(rng.draws)|
  {
    if !info.Valid() {
      return Some(info);
    }
    var boundary :- rng.RandomIndex(numBoundaries);
    return Some(info.(boundary := Some(boundary)));
  }

  // Keeps the target of an instruction whose displacement the mutation left alone.
  method CopyOrRandomizeBoundary(rng: MutatorRng, original: DisplacementInfo, mutated: DisplacementInfo,
                                 numBoundaries: nat) returns (r: Option<DisplacementInfo>)
    requires numBoundaries > 0
    modifies rng
    ensures r.Some? ==> r.value.displacement == mutated.displacement
    ensures original.Valid() && mutated.displacement == original.displacement ==>
              r == Some(mutated.(boundary := original.boundary)) && rng.draws == old(rng.draws)
    ensures r.Some? && mutated.Valid() && mutated.displacement != original.displacement ==>
              r.value.boundary.Some? && Took(old(rng.draws), rng.draws, numBoundaries, r.value.boundary.value)
    ensures !mutated.Valid() ==> r == Some(mutated) && rng.draws == old(rng.draws)
  {
    if mutated.Valid() && original.Valid() && mutated.displacement == original.displacement {
      return Some(mutated.(boundary := original.boundary));
    }
    r := RandomizeBoundary(rng, mutated, numBoundaries);
  }

  // Moves a target along with its instruction, or to a random boundary if it would leave the program.
  method ShiftOrRandomizeBoundary(rng: MutatorRng, info: DisplacementInfo, shift: int, numBoundaries: nat)
    returns (r: Option<DisplacementInfo>)
    requires numBoundaries > 0 && (info.Valid() ==> info.boundary.Some?)
    modifies rng
    ensures r.Some? ==> r.value.displacement == info.displacement
    ensures r.Some? && info.Valid() ==> r.value.boundary.Some? && r.value.boundary.value < numBoundaries
    ensures info.Valid() && 0 <= info.boundary.value + shift < numBoundaries ==>
              r == Some(info.(boundary := Some(info.boundary.value + shift))) && rng.draws == old(rng.draws)
    ensures r.Some? && info.Valid() && !(0 <= info.boundary.value + shift < numBoundaries) ==>
              Took(old(rng.draws), rng.draws, numBoundaries, r.value.boundary.value)
    ensures !info.Valid() ==> r == Some(info) && rng.draws == old(rng.draws)
    ensures Rest(old(rng.draws), rng.draws)
  {
    if !info.Valid() {
      return Some(info);
    }
    var shifted := info.boundary.value + shift;
    if 0 <= shifted < numBoundaries {
      return Some(info.(boundary := Some(shifted)));
    }
    var boundary :- rng.RandomIndex(numBoundaries);
    return Some(info.(boundary := Some(boundary)));
  }

  // Copies a block of instructions to another place.
  method ShiftOrRandomizeBlock(rng: MutatorRng, arch: Arch, from: seq<Instruction>, src: nat, size: nat,
                               dst: nat, numBoundaries: nat) returns (r: Option<seq<Instruction>>)
    requires numBoundaries > 0 && src + size <= |from|
    requires AllTargeted(from) && AllFaithful(arch, from)
    modifies rng
    ensures r.Some? ==> |r.value| == size && AllFit(arch, r.value, numBoundaries)
    ensures r.Some? ==> Copied(from, src, dst, numBoundaries, r.value)
    ensures Rest(old(rng.draws), rng.draws)
  {
    var block := [];
    for j := 0 to size
      invariant |block| == j && Rest(old(rng.draws), rng.draws)
      invariant AllFit(arch, block, numBoundaries)
      invariant forall k :: 0 <= k < j ==> CopiedOne(from[src + k], dst - src, numBoundaries, block[k])
    {
      var insn := from[src + j];
      assert Targeted(insn, |from| + 1) && Faithful(arch, insn);
      var info :- ShiftOrRandomizeBoundary(rng, insn.branch, dst - src, numBoundaries);
      block := block + [insn.(branch := info)];
    }
    return Some(block);
  }

  // A byte with one bit inverted.
  function FlipInByte(b: Byte, bit: nat): Byte
    requires bit < 8
  {
    ByteFits();
    XorFits(b, ShiftLeft(1, bit), 8);
    OneFits(bit, 8);
    var flipped: int := Xor(b, ShiftLeft(1, bit));
    flipped
  }

  lemma ByteFits()
    ensures Pow2(8) == 256
  {
    PowByFour(4);
    PowByFour(0);
  }

  function FlipBit(buffer: seq<Byte>, bit: nat): (r: seq<Byte>)
    requires bit < 8 * |buffer|
    ensures |r| == |buffer|
  {
    buffer[bit / 8 := FlipInByte(buffer[bit / 8], bit % 8)]
  }

  // Bit `i` of a buffer, from the lowest bit of the first byte on.
  function BitAt(buffer: seq<Byte>, i: nat): nat
    requires i < 8 * |buffer|
  {
    Bit(buffer[i / 8], i % 8)
  }

  // Exactly the one bit is inverted.
  lemma FlipBitFlips(buffer: seq<Byte>, bit: nat, i: nat)
    requires bit < 8 * |buffer| && i < 8 * |buffer|
    ensures BitAt(FlipBit(buffer, bit), i) == if i == bit then 1 - BitAt(buffer, i) else BitAt(buffer, i)
  {
    BitOfXor(buffer[bit / 8], ShiftLeft(1, bit % 8), i % 8);
    BitOfXor(Xor(buffer[bit / 8], ShiftLeft(1, bit % 8)), 0, i % 8);
    BitOfOne(bit % 8, i % 8);
  }

  // The bytes that draws choose.
  ghost function AsBytes(draws: seq<nat>): (bytes: seq<Byte>)
    ensures |bytes| == |draws|
    ensures forall k {:trigger bytes[k]} :: 0 <= k < |draws| ==> bytes[k] == draws[k] % 256
  {
    seq(|draws|, k requires 0 <= k < |draws| => draws[k] % 256)
  }

  // A buffer of arbitrary bytes.
  method RandomizeBuffer(rng: MutatorRng, size: nat) returns (r: Option<seq<Byte>>)
    modifies rng
    ensures r.Some? ==> size <= |old(rng.draws)| && r.value == AsBytes(old(rng.draws)[..size])
    ensures r.Some? ==> rng.draws == old(rng.draws)[size..]
    ensures r.None? ==> |old(rng.draws)| < size
  {
    var buffer: seq<Byte> := [];
    for i := 0 to size
      invariant |buffer| == i <= |old(rng.draws)| && rng.draws == old(rng.draws)[i..]
      invariant forall k :: 0 <= k < i ==> buffer[k] == old(rng.draws)[k] % 256
    {
      var b :- rng.RandomIndex(256);
      buffer := buffer + [b];
    }
    return Some(buffer);
  }

  // The instruction, without a target, at the front of a buffer.
  ghost predicate DecodesTo(arch: Arch, buffer: seq<Byte>, insn: Instruction) {
    var outcome := arch.decode(DEFAULT_CONFIG, buffer);
    && outcome.Accepted? && outcome.size <= |buffer|
    && insn == Instruction(buffer[..outcome.size], DisplacementInfo(outcome.displacement, None), 0)
  }

  ghost predicate AllRejected(arch: Arch, tried: seq<seq<Byte>>) {
    forall k :: 0 <= k < |tried| ==> arch.decode(DEFAULT_CONFIG, tried[k]).Rejected?
  }

  // Decodes the instruction at the front of a buffer with the default configuration.
  method InstructionFromBuffer(arch: Arch, buffer: seq<Byte>) returns (r: Option<Instruction>)
    requires Lawful(arch)
    ensures r.Some? ==> Untargeted(arch, r.value) && DecodesTo(arch, buffer, r.value)
    ensures r.Some? <==> arch.decode(DEFAULT_CONFIG, buffer).Accepted?
  {
    assert DecodesWell(arch, DEFAULT_CONFIG, buffer);
    match arch.decode(DEFAULT_CONFIG, buffer)
    case Rejected(_) =>
      return None;
    case Accepted(size, displacement) =>
      assert Reparsable(arch) ==> LooksNoNearer(arch, DEFAULT_CONFIG, buffer);
      return Some(Instruction(buffer[..size], DisplacementInfo(displacement, None), 0));
  }

  const ATTEMPTS: nat := 64

  // The buffers were drawn one after the other.
  ghost predicate Drawn(was: seq<nat>, now: seq<nat>, size: nat, tried: seq<seq<Byte>>)
    decreases |tried|
  {
    if tried == [] then now == was
    else size <= |was| && tried[0] == AsBytes(was[..size]) && Drawn(was[size..], now, size, tried[1..])
  }

  lemma {:induction false} DrawnMore(was: seq<nat>, now: seq<nat>, size: nat, tried: seq<seq<Byte>>)
    requires Drawn(was, now, size, tried) && size <= |now|
    ensures Drawn(was, now[size..], size, tried + [AsBytes(now[..size])])
    decreases |tried|
  {
    var more := tried + [AsBytes(now[..size])];
    if tried != [] {
      DrawnMore(was[size..], now, size, tried[1..]);
      assert more[1..] == tried[1..] + [AsBytes(now[..size])];
    } else {
      assert more[1..] == [];
    }
  }

  // The first of up to 64 drawn buffers that decodes, or none of 64.
  ghost predicate GeneratedFrom(arch: Arch, was: seq<nat>, now: seq<nat>, r: Option<Instruction>,
                                tried: seq<seq<Byte>>)
  {
    && Drawn(was, now, arch.bufferSize, tried) && 0 < |tried| <= 64
    && match r
       case Some(insn) =>
         AllRejected(arch, tried[..|tried| - 1]) && DecodesTo(arch, tried[|tried| - 1], insn)
       case None =>
         AllRejected(arch, tried) && |tried| == 64
  }

  ghost predicate Generated(arch: Arch, was: seq<nat>, now: seq<nat>, r: Option<Instruction>) {
    exists tried :: GeneratedFrom(arch, was, now, r, tried)
  }

  // Tries to generate an instruction from scratch.  The inner option is empty when all
  // attempts failed.
  method GenerateSingleInstruction(rng: MutatorRng, arch: Arch) returns (r: Option<Option<Instruction>>)
    requires Lawful(arch)
    modifies rng
    ensures r.Some? && r.value.Some? ==> Untargeted(arch, r.value.value)
    ensures r.Some? ==> Generated(arch, old(rng.draws), rng.draws, r.value)
    ensures r.Some? ==> |rng.draws| < |old(rng.draws)|
  {
    ghost var tried: seq<seq<Byte>> := [];
    for i := 0 to ATTEMPTS
      invariant |rng.draws| <= |old(rng.draws)| - i
      invariant |tried| == i && Drawn(old(rng.draws), rng.draws, arch.bufferSize, tried) && AllRejected(arch, tried)
    {
      DrawnNext(old(rng.draws), rng.draws, arch.bufferSize, tried);
      var buffer :- RandomizeBuffer(rng, arch.bufferSize);
      tried := tried + [buffer];
      assert tried[..i] + [buffer] == tried;
      var insn := InstructionFromBuffer(arch, buffer);
      if insn.Some? {
        assert GeneratedFrom(arch, old(rng.draws), rng.draws, insn, tried);
        return Some(insn);
      }
    }
    assert GeneratedFrom(arch, old(rng.draws), rng.draws, None, tried);
    return Some(None);
  }

  lemma DrawnNext(was: seq<nat>, now: seq<nat>, size: nat, tried: seq<seq<Byte>>)
    requires Drawn(was, now, size, tried)
    ensures size <= |now| ==> Drawn(was, now[size..], size, tried + [AsBytes(now[..size])])
  {
    if size <= |now| {
      DrawnMore(was, now, size, tried);
    }
  }

  // The buffer with some bits inverted, one after the other.
  ghost function Flipped(buffer: seq<Byte>, flips: seq<nat>): (r: seq<Byte>)
    requires forall k :: 0 <= k < |flips| ==> flips[k] < 8 * |buffer|
    ensures |r| == |buffer|
  {
    if flips == [] then buffer else FlipBit(Flipped(buffer, flips[..|flips| - 1]), flips[|flips| - 1])
  }

  // The bits were inverted without finding an instruction.
  ghost predicate Flipping(arch: Arch, bytes: seq<Byte>, tail: seq<Byte>, flips: seq<nat>) {
    FlippingTo(arch, bytes, tail, flips, |flips| + 1)
  }

  // No instruction was found before `limit` bits were inverted.
  ghost predicate FlippingTo(arch: Arch, bytes: seq<Byte>, tail: seq<Byte>, flips: seq<nat>, limit: nat) {
    && (forall k :: 0 <= k < |flips| ==> flips[k] < 8 * |bytes|) && limit <= |flips| + 1
    && forall n :: 1 <= n < limit ==> arch.decode(DEFAULT_CONFIG, Flipped(bytes + tail, flips[..n])).Rejected?
  }

  // The first instruction found by inverting up to three bits of `bytes`, with `tail` behind them.
  ghost predicate MutatedBy(arch: Arch, bytes: seq<Byte>, tail: seq<Byte>, flips: seq<nat>, insn: Instruction) {
    && 1 <= |flips| <= 3 && FlippingTo(arch, bytes, tail, flips, |flips|)
    && (if arch.minSize == arch.maxSize then tail == [] else |bytes| + |tail| == arch.bufferSize)
    && DecodesTo(arch, Flipped(bytes + tail, flips), insn)
  }

  ghost predicate IsMutation(arch: Arch, bytes: seq<Byte>, insn: Instruction) {
    exists tail: seq<Byte>, flips: seq<nat> :: MutatedBy(arch, bytes, tail, flips, insn)
  }

  // An attempt: the random bytes behind the instruction, and the bits inverted.
  datatype Try = Try(tail: seq<Byte>, flips: seq<nat>)

  // How many draws choose the bytes behind an instruction.
  ghost function TailDraws(arch: Arch): nat {
    if arch.minSize == arch.maxSize then 0 else arch.bufferSize
  }

  // The bits, of `n` bits, that the draws choose.
  ghost predicate FlipsDrawn(was: seq<nat>, now: seq<nat>, n: nat, flips: seq<nat>)
    requires n > 0
  {
    && |flips| <= |was| && now == was[|flips|..]
    && forall k :: 0 <= k < |flips| ==> flips[k] == was[k] % n
  }

  // The attempt that the draws choose.
  ghost predicate TriedWith(arch: Arch, bytes: seq<Byte>, was: seq<nat>, now: seq<nat>, t: Try)
    requires bytes != []
  {
    var skip := TailDraws(arch);
    && skip <= |was| && FlipsDrawn(was[skip..], now, 8 * |bytes|, t.flips)
    && if skip == 0 then t.tail == [] else |bytes| <= skip && t.tail == AsBytes(was[..skip])[|bytes|..]
  }

  ghost predicate TriedAll(arch: Arch, bytes: seq<Byte>, was: seq<nat>, now: seq<nat>, tries: seq<Try>)
    requires bytes != []
    decreases |tries|
  {
    if tries == [] then now == was
    else
      var last := |tries| - 1;
      exists mid :: TriedWith(arch, bytes, mid, now, tries[last]) && TriedAll(arch, bytes, was, mid, tries[..last])
  }

  // Three bits were inverted without finding an instruction.
  ghost predicate Failed(arch: Arch, bytes: seq<Byte>, t: Try) {
    |t.flips| == 3 && Flipping(arch, bytes, t.tail, t.flips)
  }

  ghost predicate AllFailed(arch: Arch, bytes: seq<Byte>, tries: seq<Try>) {
    forall t :: t in tries ==> Failed(arch, bytes, t)
  }

  // The first of up to 64 attempts that finds an instruction, or none of 64.
  ghost predicate MutatedFrom(arch: Arch, bytes: seq<Byte>, was: seq<nat>, now: seq<nat>, r: Option<Instruction>,
                              tries: seq<Try>)
    requires bytes != []
  {
    && TriedAll(arch, bytes, was, now, tries) && 0 < |tries| <= 64
    && AllFailed(arch, bytes, tries[..|tries| - 1])
    && var last := tries[|tries| - 1];
       match r
       case Some(insn) => MutatedBy(arch, bytes, last.tail, last.flips, insn)
       case None => Failed(arch, bytes, last) && |tries| == 64
  }

  ghost predicate Mutated(arch: Arch, bytes: seq<Byte>, was: seq<nat>, now: seq<nat>, r: Option<Instruction>)
    requires bytes != []
  {
    exists tries :: MutatedFrom(arch, bytes, was, now, r, tries)
  }

  lemma TriedMore(arch: Arch, bytes: seq<Byte>, was: seq<nat>, mid: seq<nat>, now: seq<nat>, tries: seq<Try>, t: Try)
    requires bytes != [] && TriedAll(arch, bytes, was, mid, tries) && TriedWith(arch, bytes, mid, now, t)
    ensures TriedAll(arch, bytes, was, now, tries + [t])
  {
    assert (tries + [t])[..|tries|] == tries;
  }

  lemma TriedNext(arch: Arch, bytes: seq<Byte>, was: seq<nat>, now: seq<nat>, tries: seq<Try>, t: Try,
                  r: Option<Instruction>)
    requires bytes != [] && TriedAll(arch, bytes, was, now, tries + [t])
    requires |tries| < 64 && AllFailed(arch, bytes, tries)
    requires if r.Some? then MutatedBy(arch, bytes, t.tail, t.flips, r.value) else Failed(arch, bytes, t)
    ensures r.None? ==> AllFailed(arch, bytes, tries + [t])
    ensures r.Some? || |tries| == 63 ==> Mutated(arch, bytes, was, now, r)
    ensures r.Some? ==> IsMutation(arch, bytes, r.value)
  {
    assert (tries + [t])[..|tries|] == tries;
    assert r.Some? || |tries| == 63 ==> MutatedFrom(arch, bytes, was, now, r, tries + [t]);
  }

  // Tries to turn an instruction into another one by inverting up to three bits.
  method MutateSingleInstruction(rng: MutatorRng, arch: Arch, original: Instruction)
    returns (r: Option<Option<Instruction>>)
    requires Lawful(arch) && SizeOk(arch, original.encoded)
    modifies rng
    ensures r.Some? && r.value.Some? ==> Untargeted(arch, r.value.value)
    ensures r.Some? && r.value.Some? ==> IsMutation(arch, original.encoded, r.value.value)
    ensures r.Some? ==> Mutated(arch, original.encoded, old(rng.draws), rng.draws, r.value)
  {
    ghost var tries: seq<Try> := [];
    for i := 0 to ATTEMPTS
      invariant |tries| == i && TriedAll(arch, original.encoded, old(rng.draws), rng.draws, tries)
      invariant AllFailed(arch, original.encoded, tries)
      invariant i == 64 ==> Mutated(arch, original.encoded, old(rng.draws), rng.draws, None)
    {
      ghost var mid := rng.draws;
      var insn;
      ghost var t;
      insn, t := TryMutation(rng, arch, original.encoded);
      if insn.None? {
        return None;
      }
      TriedMore(arch, original.encoded, old(rng.draws), mid, rng.draws, tries, t);
      TriedNext(arch, original.encoded, old(rng.draws), rng.draws, tries, t, insn.value);
      tries := tries + [t];
      if insn.value.Some? {
        return insn;
      }
    }
    return Some(None);
  }

  method TryMutation(rng: MutatorRng, arch: Arch, original: seq<Byte>)
    returns (r: Option<Option<Instruction>>, ghost t: Try)
    requires Lawful(arch) && SizeOk(arch, original)
    modifies rng
    ensures r.Some? && r.value.Some? ==> Untargeted(arch, r.value.value)
    ensures r.Some? ==> TriedWith(arch, original, old(rng.draws), rng.draws, t)
    ensures r.Some? && r.value.Some? ==> MutatedBy(arch, original, t.tail, t.flips, r.value.value)
    ensures r.Some? && r.value.None? ==> Failed(arch, original, t)
  {
    t := Try([], []);
    var tail: seq<Byte> := [];
    if arch.minSize != arch.maxSize {
      // The mutation could make the instruction larger.
      var buffer :- RandomizeBuffer(rng, arch.bufferSize);
      tail := buffer[|original|..];
    }
    ghost var flips;
    r, flips := FlipUntilDecoded(rng, arch, original, tail);
    t := Try(tail, flips);
  }

  method FlipUntilDecoded(rng: MutatorRng, arch: Arch, original: seq<Byte>, tail: seq<Byte>)
    returns (r: Option<Option<Instruction>>, ghost flips: seq<nat>)
    requires Lawful(arch) && SizeOk(arch, original)
    requires if arch.minSize == arch.maxSize then tail == [] else |original| + |tail| == arch.bufferSize
    modifies rng
    ensures r.Some? && r.value.Some? ==> Untargeted(arch, r.value.value)
    ensures r.Some? ==> FlipsDrawn(old(rng.draws), rng.draws, 8 * |original|, flips)
    ensures r.Some? && r.value.Some? ==> MutatedBy(arch, original, tail, flips, r.value.value)
    ensures r.Some? && r.value.None? ==> Failed(arch, original, Try(tail, flips))
  {
    var bytes := original + tail;
    flips := [];
    ghost var n := 8 * |original|;
    for j := 0 to 3
      invariant |flips| == j && Flipping(arch, original, tail, flips) && bytes == Flipped(original + tail, flips)
      invariant FlipsDrawn(old(rng.draws), rng.draws, n, flips)
    {
      var bit :- rng.RandomIndex(8 * |original|);
      FlipMore(arch, original, tail, flips, bit);
      flips := flips + [bit];
      bytes := FlipBit(bytes, bit);
      var insn := InstructionFromBuffer(arch, bytes);
      if insn.Some? {
        return Some(insn), flips;
      }
    }
    return Some(None), flips;
  }

  lemma FlipMore(arch: Arch, bytes: seq<Byte>, tail: seq<Byte>, flips: seq<nat>, bit: nat)
    requires Flipping(arch, bytes, tail, flips) && bit < 8 * |bytes|
    ensures FlippingTo(arch, bytes, tail, flips + [bit], |flips| + 1)
    ensures Flipped(bytes + tail, flips + [bit]) == FlipBit(Flipped(bytes + tail, flips), bit)
    ensures (flips + [bit])[..|flips| + 1] == flips + [bit]
  {
    var more := flips + [bit];
    assert more[..|flips|] == flips;
    forall n | 1 <= n < |flips| + 1 ensures arch.decode(DEFAULT_CONFIG, Flipped(bytes + tail, more[..n])).Rejected? {
      assert more[..n] == flips[..n];
    }
  }

  lemma InsertedClean(arch: Arch, cfg: Config, insns: seq<Instruction>, boundary: nat, steal: bool,
                      block: seq<Instruction>)
    requires boundary <= |insns| && AllClean(arch, cfg, insns) && AllClean(arch, cfg, block)
    ensures AllClean(arch, cfg, Relaid(Inserted(insns, boundary, steal, block)))
  {
    var r := Inserted(insns, boundary, steal, block);
    forall k | 0 <= k < |r| ensures Clean(arch, cfg, Relaid(r)[k]) {
      if k < boundary {
        assert Clean(arch, cfg, insns[k]);
      } else if k < boundary + |block| {
        assert Clean(arch, cfg, block[k - boundary]);
      } else {
        assert Clean(arch, cfg, insns[k - |block|]);
      }
    }
  }

  lemma RemovedClean(arch: Arch, cfg: Config, insns: seq<Instruction>, index: nat)
    requires index < |insns| && AllClean(arch, cfg, insns)
    ensures AllClean(arch, cfg, Relaid(Removed(insns, index)))
  {
    var r := Removed(insns, index);
    forall k | 0 <= k < |r| ensures Clean(arch, cfg, Relaid(r)[k]) {
      assert Clean(arch, cfg, insns[if k < index then k else k + 1]);
    }
  }

  lemma OverwrittenClean(arch: Arch, cfg: Config, insns: seq<Instruction>, index: nat, block: seq<Instruction>)
    requires index + |block| <= |insns| && AllClean(arch, cfg, insns) && AllClean(arch, cfg, block)
    ensures AllClean(arch, cfg, Overwritten(insns, index, block))
  {
  }

  lemma CopiedClean(arch: Arch, cfg: Config, from: seq<Instruction>, src: nat, dst: nat, n: nat,
                    block: seq<Instruction>)
    requires Copied(from, src, dst, n, block) && AllClean(arch, cfg, from)
    ensures AllClean(arch, cfg, block)
  {
    forall k | 0 <= k < |block| ensures Clean(arch, cfg, block[k]) {
      assert CopiedOne(from[src + k], dst - src, n, block[k]) && Clean(arch, cfg, from[src + k]);
    }
  }
}
