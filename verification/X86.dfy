/** The x86_64 instance of the program editor (fuzzer/program_x86_64.cc), over an abstract XED.

    XED decodes an instruction into an operation and, for a direct branch, a displacement
    from the end of the instruction; it encodes an operation in its canonical form. */
module X86 {
  import opened Basics
  import opened Isa

  // An operation stands for everything about an instruction but its displacement and its
  // choice among equivalent encodings.
  datatype XedInsn = XedInsn(length: nat, operation: int, displacement: Option<int>)

  datatype Xed = Xed(
    decode: seq<Byte> -> Option<XedInsn>,
    encode: (int, int) -> seq<Byte>,
    // InstructionIsAllowedInRunner.
    allowed: int -> bool)

  // Decoding finds an instruction of 1 to 15 bytes, and looks at its bytes only.
  ghost predicate DecodeContract(xed: Xed, bytes: seq<Byte>) {
    xed.decode(bytes).Some? ==>
      var insn := xed.decode(bytes).value;
      && 1 <= insn.length <= 15 && insn.length <= |bytes|
      && xed.decode(bytes[..insn.length]) == Some(insn)
  }

  ghost predicate PrefixContract(xed: Xed, bytes: seq<Byte>, rest: seq<Byte>) {
    xed.decode(bytes).Some? && xed.decode(bytes).value.length == |bytes| ==>
      xed.decode(bytes + rest) == xed.decode(bytes)
  }

  // Some instruction is a direct branch with this operation.
  ghost predicate IsBranchOperation(xed: Xed, operation: int) {
    exists bytes :: xed.decode(bytes).Some? && xed.decode(bytes).value.operation == operation
                    && xed.decode(bytes).value.displacement.Some?
  }

  // Encoding a branch never fails.  It gives an instruction with the same operation, whose
  // size does not depend on the displacement; the displacement may be truncated, but it
  // reaches the start of the instruction and is a 32-bit number.
  ghost predicate EncodeContract(xed: Xed, operation: int, d: int) {
    IsBranchOperation(xed, operation) ==>
      var bytes := xed.encode(operation, d);
      && |bytes| == |xed.encode(operation, 0)|
      && xed.decode(bytes).Some?
      && xed.decode(bytes).value.length == |bytes|
      && xed.decode(bytes).value.operation == operation
      && xed.decode(bytes).value.displacement.Some?
      && (d == -|bytes| ==> Holds(xed, operation, d))
  }

  ghost predicate RangeContract(xed: Xed, bytes: seq<Byte>) {
    xed.decode(bytes).Some? && xed.decode(bytes).value.displacement.Some? ==>
      Magnitude(xed.decode(bytes).value.displacement.value) <= 0x8000_0000
  }

  // The canonical form of the operation can hold the displacement.
  predicate Holds(xed: Xed, operation: int, d: int) {
    xed.decode(xed.encode(operation, d)).Some? &&
    xed.decode(xed.encode(operation, d)).value.displacement == Some(d)
  }

  ghost predicate XedContract(xed: Xed) {
    && (forall bytes: seq<Byte> :: DecodeContract(xed, bytes))
    && (forall bytes: seq<Byte>, rest: seq<Byte> :: PrefixContract(xed, bytes, rest))
    && (forall operation: int, d: int :: EncodeContract(xed, operation, d))
    && (forall bytes: seq<Byte> :: RangeContract(xed, bytes))
  }

  // A complete direct branch.
  predicate IsDirectBranch(xed: Xed, bytes: seq<Byte>) {
    && xed.decode(bytes).Some?
    && xed.decode(bytes).value.length == |bytes|
    && xed.decode(bytes).value.displacement.Some?
  }

  // Displacements are relative to the end of the instruction; the editor's to its start.
  function Displacement(xed: Xed, bytes: seq<Byte>): Option<int> {
    if IsDirectBranch(xed, bytes) then Some(xed.decode(bytes).value.displacement.value + |bytes|) else None
  }

  // ReencodeInternal: the displacement is adjusted for the size before re-encoding.
  function ReencodeOnce(xed: Xed, bytes: seq<Byte>, d: int): seq<Byte>
    requires IsDirectBranch(xed, bytes)
  {
    xed.encode(xed.decode(bytes).value.operation, d - |bytes|)
  }

  // Re-encodes a branch, a second time if the first one changed its size.  Other
  // instructions are never re-encoded.
  function Reencode(xed: Xed, bytes: seq<Byte>, d: int): seq<Byte> {
    if !IsDirectBranch(xed, bytes) then bytes
    else
      var first := ReencodeOnce(xed, bytes, d);
      if |first| != |bytes| && IsDirectBranch(xed, first) then ReencodeOnce(xed, first, d) else first
  }

  function Decode(xed: Xed, cfg: Config, bytes: seq<Byte>): Outcome {
    match xed.decode(bytes)
    case None => Rejected(0)
    case Some(insn) =>
      if cfg.filter && !xed.allowed(insn.operation) then Rejected(insn.length)
      else Accepted(insn.length, Limited(BranchDisplacement(insn), cfg.fixupLimit))
  }

  function BranchDisplacement(insn: XedInsn): Option<int> {
    if insn.displacement.Some? then Some(insn.displacement.value + insn.length) else None
  }

  function Instance(xed: Xed): Arch {
    Arch(1, 15, 16,
         (cfg: Config, bytes: seq<Byte>) => Decode(xed, cfg, bytes),
         (bytes: seq<Byte>) => Displacement(xed, bytes),
         (bytes: seq<Byte>, d: int) => Reencode(xed, bytes, d))
  }

  // Whatever the encoding it started from, re-encoding gives the canonical form with the
  // requested displacement: the second attempt compensates for the change of size.
  lemma ReencodeIsCanonical(xed: Xed, bytes: seq<Byte>, d: int)
    requires XedContract(xed) && IsDirectBranch(xed, bytes)
    ensures var operation := xed.decode(bytes).value.operation;
            var size := |xed.encode(operation, 0)|;
            var r := Reencode(xed, bytes, d);
            && r == xed.encode(operation, d - size) && |r| == size
            && IsDirectBranch(xed, r) && xed.decode(r).value.operation == operation
            && (Displacement(xed, r) == Some(d) <==> Holds(xed, operation, d - size))
  {
    var operation := xed.decode(bytes).value.operation;
    assert IsBranchOperation(xed, operation);
    assert EncodeContract(xed, operation, d - |bytes|);
    assert EncodeContract(xed, operation, d - |xed.encode(operation, 0)|);
  }

  lemma CanonicalSizes(xed: Xed, bytes: seq<Byte>, d: int)
    requires XedContract(xed) && IsDirectBranch(xed, bytes)
    ensures 1 <= |Reencode(xed, bytes, d)| <= 15
  {
    ReencodeIsCanonical(xed, bytes, d);
    assert DecodeContract(xed, Reencode(xed, bytes, d));
  }

  lemma InstanceLawful(xed: Xed)
    requires XedContract(xed)
    ensures Lawful(Instance(xed))
  {
    var arch := Instance(xed);
    forall cfg: Config, bytes: seq<Byte> ensures DecodesWell(arch, cfg, bytes) {
      assert DecodeContract(xed, bytes);
    }
    forall bytes: seq<Byte>, d: int | IsBranch(arch, bytes) ensures ReencodesWell(arch, bytes, d) {
      ReencodeIsCanonical(xed, bytes, d);
      CanonicalSizes(xed, bytes, d);
      forall e: int
        ensures |arch.reencode(arch.reencode(bytes, d), e)| == |arch.reencode(bytes, d)|
        ensures arch.reencode(bytes, e) == arch.reencode(arch.reencode(bytes, d), e)
      {
        ReencodeIsCanonical(xed, bytes, e);
        ReencodeIsCanonical(xed, Reencode(xed, bytes, d), e);
      }
    }
    forall bytes: seq<Byte> | IsBranch(arch, bytes) ensures ReachesItself(arch, bytes) {
      SelfEncodable(xed, bytes);
    }
  }

  lemma SelfEncodable(xed: Xed, bytes: seq<Byte>)
    requires XedContract(xed) && IsDirectBranch(xed, bytes)
    ensures Displacement(xed, Reencode(xed, bytes, 0)) == Some(0)
  {
    var operation := xed.decode(bytes).value.operation;
    ReencodeIsCanonical(xed, bytes, 0);
    assert IsBranchOperation(xed, operation);
    assert EncodeContract(xed, operation, -|xed.encode(operation, 0)|);
  }

  lemma InstanceReparsable(xed: Xed)
    requires XedContract(xed)
    ensures Reparsable(Instance(xed))
  {
    var arch := Instance(xed);
    forall cfg: Config, bytes: seq<Byte>, rest: seq<Byte> ensures LooksNoFurther(arch, cfg, bytes, rest) {
      assert PrefixContract(xed, bytes, rest);
    }
    forall cfg: Config, bytes: seq<Byte> ensures LooksNoNearer(arch, cfg, bytes) {
      assert DecodeContract(xed, bytes);
    }
    forall cfg: Config, bytes: seq<Byte>, d: int ensures StaysWhole(arch, cfg, bytes, d) {
      if IsDirectBranch(xed, bytes) {
        ReencodeIsCanonical(xed, bytes, d);
      }
    }
    forall bytes: seq<Byte> ensures FitsWord(arch, bytes) {
      assert DecodeContract(xed, bytes) && RangeContract(xed, bytes);
    }
  }

  // When an instruction is accepted, and which displacement, from its start, it then has.
  lemma DecodeIs(xed: Xed, cfg: Config, bytes: seq<Byte>)
    ensures Instance(xed).minSize == 1 && Instance(xed).maxSize == 15 && Instance(xed).bufferSize == 16
    ensures var o := Instance(xed).decode(cfg, bytes);
            match xed.decode(bytes)
            case None => o == Rejected(0)
            case Some(insn) =>
              && o.size == insn.length
              && (o.Rejected? <==> cfg.filter && !xed.allowed(insn.operation))
              && (o.Accepted? ==> forall d: int ::
                    o.displacement == Some(d) <==>
                      insn.displacement == Some(d - o.size) && d < cfg.fixupLimit && -d < cfg.fixupLimit)
  {
  }
}
