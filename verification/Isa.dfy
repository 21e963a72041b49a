/** What the program editor needs from an instruction set.

    The C++ is a template over the architecture.  Here the architecture is a record of
    functions, and `Lawful` is what the editor relies on.  Modules AArch64 and X86 build
    the two instances and prove that they are lawful. */
module Isa {
  import opened Basics

  // Options that control which instructions are accepted when bytes are decoded.
  datatype Config = Config(requireValidEncoding: bool, filter: bool, fixupLimit: nat)

  const DEFAULT_CONFIG := Config(true, true, 0xFFFF_FFFF_FFFF_FFFF)

  // The result of decoding the front of a byte sequence.  A rejected instruction still
  // reports how many bytes it occupied, 0 when that is unknown.
  datatype Outcome =
    | Rejected(size: nat)
    | Accepted(size: nat, displacement: Option<int>)

  datatype Arch = Arch(
    minSize: nat,
    maxSize: nat,
    bufferSize: nat,
    // Decodes the instruction at the front of the bytes.
    decode: (Config, seq<Byte>) -> Outcome,
    // The displacement, from the start of the instruction, of a direct branch.
    displacement: seq<Byte> -> Option<int>,
    // The bytes left behind by an attempt to encode a displacement into a direct branch.
    reencode: (seq<Byte>, int) -> seq<Byte>)

  function Magnitude(displacement: int): nat {
    if displacement >= 0 then displacement else -displacement
  }

  // Whether a displacement is small enough to be rewritten.
  predicate WithinFixupLimit(displacement: int, limit: nat) {
    Magnitude(displacement) < limit
  }

  function Limited(displacement: Option<int>, limit: nat): Option<int> {
    if displacement.Some? && WithinFixupLimit(displacement.value, limit) then displacement else None
  }

  predicate SizeOk(arch: Arch, bytes: seq<Byte>) {
    arch.minSize <= |bytes| <= arch.maxSize
  }

  // Encoding `d` left an instruction that really has displacement `d`.
  predicate Encodes(arch: Arch, bytes: seq<Byte>, d: int) {
    arch.displacement(arch.reencode(bytes, d)) == Some(d)
  }

  // Re-encoding such an instruction never changes its size.
  ghost predicate Canonical(arch: Arch, bytes: seq<Byte>) {
    forall d: int :: |arch.reencode(bytes, d)| == |bytes|
  }

  ghost predicate IsBranch(arch: Arch, bytes: seq<Byte>) {
    SizeOk(arch, bytes) && arch.displacement(bytes).Some?
  }

  // An accepted instruction has a possible size, and its displacement is the one in its bytes.
  ghost predicate DecodesWell(arch: Arch, cfg: Config, bytes: seq<Byte>) {
    arch.decode(cfg, bytes).Accepted? ==>
      var a := arch.decode(cfg, bytes);
      && arch.minSize <= a.size <= arch.maxSize
      && a.size <= |bytes|
      && a.displacement == Limited(arch.displacement(bytes[..a.size]), cfg.fixupLimit)
  }

  // Re-encoding a branch gives a branch that no later re-encoding resizes: the first one
  // makes the instruction canonical.  It replaces the displacement and nothing else.
  ghost predicate ReencodesWell(arch: Arch, bytes: seq<Byte>, d: int) {
    IsBranch(arch, bytes) ==>
      && IsBranch(arch, arch.reencode(bytes, d))
      && Canonical(arch, arch.reencode(bytes, d))
      && SameOperation(arch, bytes, arch.reencode(bytes, d))
  }

  // Two encodings of the same branch, up to the displacement.
  ghost predicate SameOperation(arch: Arch, a: seq<Byte>, b: seq<Byte>) {
    forall d: int :: arch.reencode(a, d) == arch.reencode(b, d)
  }

  // A branch to itself can always be encoded.
  ghost predicate ReachesItself(arch: Arch, bytes: seq<Byte>) {
    IsBranch(arch, bytes) ==> Encodes(arch, bytes, 0)
  }

  // The size of `n` instructions of the largest size.
  ghost function Span(arch: Arch, n: nat): nat {
    if n == 0 then 0 else Span(arch, n - 1) + arch.maxSize
  }

  lemma {:induction false} SpanMonotone(arch: Arch, a: nat, b: nat)
    requires a <= b
    ensures Span(arch, a) <= Span(arch, b)
  {
    if a < b { SpanMonotone(arch, a, b - 1); }
  }

  lemma {:induction false} SpanIsProduct(arch: Arch, n: nat)
    ensures Span(arch, n) == arch.maxSize * n
  {
    if n > 0 { SpanIsProduct(arch, n - 1); }
  }

  // If all instructions have the same size, the displacement is a multiple of it.
  ghost predicate Aligned(arch: Arch, d: int) {
    arch.minSize == arch.maxSize ==> exists a: nat, b: nat :: Apart(arch, d, a, b)
  }

  ghost predicate Apart(arch: Arch, d: int, a: nat, b: nat) {
    d == Span(arch, a) - Span(arch, b)
  }

  // Every displacement between instructions at most `reach` bytes apart can be encoded in every branch.
  ghost predicate Reaches(arch: Arch, reach: nat) {
    forall bytes: seq<Byte>, d: int :: ReachesBy(arch, reach, bytes, d)
  }

  ghost predicate ReachesBy(arch: Arch, reach: nat, bytes: seq<Byte>, d: int) {
    IsBranch(arch, bytes) && Magnitude(d) <= reach && Aligned(arch, d) ==> Encodes(arch, bytes, d)
  }

  ghost predicate Lawful(arch: Arch) {
    && 0 < arch.minSize <= arch.maxSize <= arch.bufferSize
    && (forall cfg: Config, bytes: seq<Byte> :: DecodesWell(arch, cfg, bytes))
    && (forall bytes: seq<Byte>, d: int :: ReencodesWell(arch, bytes, d))
    && (forall bytes: seq<Byte> :: ReachesItself(arch, bytes))
  }

  // The bytes are exactly one instruction that the configuration accepts.
  predicate Whole(arch: Arch, cfg: Config, bytes: seq<Byte>) {
    arch.decode(cfg, bytes).Accepted? && arch.decode(cfg, bytes).size == |bytes|
  }

  // Decoding looks at the bytes of one instruction only.
  ghost predicate LooksNoFurther(arch: Arch, cfg: Config, bytes: seq<Byte>, rest: seq<Byte>) {
    Whole(arch, cfg, bytes) ==> arch.decode(cfg, bytes + rest) == arch.decode(cfg, bytes)
  }

  ghost predicate LooksNoNearer(arch: Arch, cfg: Config, bytes: seq<Byte>) {
    var a := arch.decode(cfg, bytes);
    a.Accepted? && a.size <= |bytes| ==> arch.decode(cfg, bytes[..a.size]) == a
  }

  // Rewriting a displacement does not change whether an instruction is accepted.
  ghost predicate StaysWhole(arch: Arch, cfg: Config, bytes: seq<Byte>, d: int) {
    Whole(arch, cfg, bytes) && IsBranch(arch, bytes) && Encodes(arch, bytes, d) ==>
      Whole(arch, cfg, arch.reencode(bytes, d))
  }

  // A displacement is a 64-bit number.
  ghost predicate FitsWord(arch: Arch, bytes: seq<Byte>) {
    arch.displacement(bytes).Some? ==> Magnitude(arch.displacement(bytes).value) <= 0x8000_0000_0000_0000
  }

  // What reading a program back relies on.
  ghost predicate Reparsable(arch: Arch) {
    && (forall cfg: Config, bytes: seq<Byte>, rest: seq<Byte> :: LooksNoFurther(arch, cfg, bytes, rest))
    && (forall cfg: Config, bytes: seq<Byte> :: LooksNoNearer(arch, cfg, bytes))
    && (forall cfg: Config, bytes: seq<Byte>, d: int :: StaysWhole(arch, cfg, bytes, d))
    && (forall bytes: seq<Byte> :: FitsWord(arch, bytes))
  }
}
