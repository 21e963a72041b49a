/** The parts of a snapshot, the guards of its operations and what the operations do
    (common/snapshot.h and common/snapshot.cc). */
module SnapshotState {
  import opened Basics
  import opened Memory
  import opened MappedMemory
  import opened Normalize

  const PAGE_SIZE: nat := 4096

  type Address = a: nat | a <= MAX_ADDRESS

  datatype Architecture = X86_64 | AArch64 {
    function RequiredStackSize(): nat {
      match this
      case X86_64 => 16
      case AArch64 => 32
    }
  }

  datatype RegisterState = RegisterState(gregs: seq<Byte>, fpregs: seq<Byte>) {
    predicate IsUnset() {
      gregs == [] && fpregs == []
    }
  }

  datatype Pointers = Pointers(instruction: Address, stack: Address)

  // The register formats: what a serialized state decodes to, and which checksums are well-formed.
  datatype Codec = Codec(
    decode: (Architecture, RegisterState) -> Option<Pointers>,
    checksumOk: (Architecture, seq<Byte>) -> bool)

  datatype SigNum = Segv | Trap | Fpe | Ill | Bus

  datatype SigCause = Generic | CantExec | CantWrite | CantRead | Overflow | GeneralProtection {
    predicate IsAccess() {
      CantExec? || CantWrite? || CantRead?
    }
  }

  datatype Endpoint =
    | AtInstruction(address: Address)
    | AtSignal(num: SigNum, cause: SigCause, sigAddress: Address, instruction: Address)
  {
    // What the constructor of the source checks.
    predicate Valid() {
      AtSignal? ==> (!cause.Generic? <==> num.Segv?)
    }

    predicate IsAccessFault() {
      AtSignal? && num.Segv? && cause.IsAccess()
    }
  }

  // The number of platform ids, of which the last one is only used by tests.
  const NUM_PLATFORMS: nat := 48

  datatype EndState = EndState(endpoint: Endpoint, registers: RegisterState, bytes: seq<MemoryBytes>,
                               platforms: seq<bool>, checksum: seq<Byte>)
  {
    predicate NoPlatforms() {
      forall i :: 0 <= i < |platforms| ==> !platforms[i]
    }

    // What the constructor and the guarded operations of an end state keep.
    ghost predicate Valid() {
      endpoint.Valid() && AllValid(bytes) && Disjoint(bytes) && |platforms| == NUM_PLATFORMS
    }

    // Equality of everything but the platforms.
    predicate DataEquals(e: EndState) {
      && endpoint == e.endpoint && registers == e.registers && checksum == e.checksum
      && |bytes| == |e.bytes| && Sorted(bytes) == Sorted(e.bytes)
    }

    predicate IsComplete(completion: Completion) {
      match completion
      case Normal => registers.gregs != [] && registers.fpregs != [] && !NoPlatforms()
      case _ => registers.IsUnset() && bytes == [] && NoPlatforms()
    }
  }

  datatype Completion = UndefinedEndState | Normal | Making

  datatype Origin = UndefinedOrigin | Ifuzz | Unicorn | Bochs | Xed | Gem5 | UseString

  datatype Metadata = Metadata(origin: Origin, originString: string)

  datatype TraceData = TraceData(numInstructions: nat, disassembly: string, platforms: seq<nat>)

  // The permissions that a list of mappings gives.
  function MapOf(list: seq<MemoryMapping>): map<nat, Perms> {
    if list == [] then map[] else Painted(MapOf(list[..|list| - 1]), list[|list| - 1])
  }

  // Some address of the mapping has one of its permissions in the map.
  predicate Conflicts(m: map<nat, Perms>, x: MemoryMapping) {
    exists a: nat :: x.start <= a < x.Limit() && a in m && x.perms.HasSomeOf(m[a])
  }

  predicate AllWritable(m: map<nat, Perms>, start: nat, limit: nat) {
    start < limit && forall a: nat :: start <= a < limit ==> a in m && m[a].w
  }

  predicate IsExecutable(m: map<nat, Perms>, a: nat) {
    a in m && m[a].x
  }

  predicate Aligned(a: nat) {
    a % PAGE_SIZE == 0
  }

  datatype State = State(
    id: string, arch: Architecture,
    mapped: map<nat, Perms>, negativeMapped: map<nat, Perms>, written: set<nat>,
    mappings: seq<MemoryMapping>, negative: seq<MemoryMapping>, bytes: seq<MemoryBytes>,
    registers: Option<RegisterState>, endStates: seq<EndState>, metadata: Metadata, traces: seq<TraceData>)
  {
    predicate CanAddMapping(x: MemoryMapping) {
      && !x.perms.IsEmpty() && x.size != 0 && Aligned(x.start) && Aligned(x.Limit())
      && !Overlaps(mapped, x) && !Conflicts(negativeMapped, x)
    }

    function AddMapping(x: MemoryMapping): State {
      this.(mapped := Painted(mapped, x), mappings := mappings + [x])
    }

    predicate CanAddNegative(x: MemoryMapping, overlapOk: bool) {
      && !x.perms.IsEmpty() && x.size != 0 && Aligned(x.start) && (Aligned(x.Limit()) || x.Limit() == MAX_ADDRESS)
      && (overlapOk || !Overlaps(negativeMapped, x)) && !Conflicts(mapped, x)
    }

    function AddNegative(x: MemoryMapping): State {
      this.(negativeMapped := Painted(negativeMapped, x), negative := negative + [x])
    }

    predicate CanAddBytes(b: MemoryBytes) {
      Contains(mapped, b.start, b.Limit()) && forall a: nat :: b.start <= a < b.Limit() ==> a !in written
    }

    function AddBytes(b: MemoryBytes): State {
      this.(written := written + Range(b.start, b.Limit()), bytes := bytes + [b])
    }

    predicate CanSetRegisters(codec: Codec, x: RegisterState, isEndState: bool) {
      codec.decode(arch, x).Some? &&
      (isEndState ||
       var p := codec.decode(arch, x).value;
       && p.instruction < MAX_ADDRESS && IsExecutable(mapped, p.instruction)
       && p.stack >= arch.RequiredStackSize()
       && AllWritable(mapped, p.stack - arch.RequiredStackSize(), p.stack))
    }

    // For a segmentation fault the negative mappings count, and the last page stands for MAX_ADDRESS.
    predicate IsKnownAddress(isSegv: bool, a: Address) {
      a in mapped || (isSegv && (a in negativeMapped || (a == MAX_ADDRESS && MAX_ADDRESS - 1 in negativeMapped)))
    }

    predicate EndpointOk(e: Endpoint, unmappedOk: bool) {
      match e
      case AtInstruction(a) => a < MAX_ADDRESS && (unmappedOk || IsExecutable(mapped, a))
      case AtSignal(num, _, sigAddress, instruction) =>
        && SigAddressOk(num, sigAddress)
        && (unmappedOk || IsKnownAddress(num.Segv?, instruction))
    }

    predicate SigAddressOk(num: SigNum, sigAddress: Address) {
      sigAddress != 0 ==> IsKnownAddress(num.Segv?, sigAddress)
    }

    predicate CanAddEndState(codec: Codec, x: EndState, unmappedOk: bool, duplicateOk: bool) {
      && EndpointOk(x.endpoint, unmappedOk)
      && (if x.registers.IsUnset() then x.bytes == [] else CanSetRegisters(codec, x.registers, true))
      && (forall i :: 0 <= i < |x.bytes| ==> AllWritable(mapped, x.bytes[i].start, x.bytes[i].Limit()))
      && (x.checksum != [] ==> codec.checksumOk(arch, x.checksum))
      && (duplicateOk || forall i :: 0 <= i < |endStates| ==> !x.DataEquals(endStates[i]))
    }

    function AddEndState(x: EndState): State {
      this.(endStates := endStates + [x])
    }

    predicate IsComplete(codec: Codec, completion: Completion) {
      && mappings != [] && bytes != [] && registers.Some?
      && ((exists i :: 0 <= i < |endStates| && endStates[i].endpoint.IsAccessFault()) <==> negative != [])
      && (endStates == [] ==> completion != Normal)
      && (forall i :: 0 <= i < |endStates| ==>
            && endStates[i].IsComplete(completion)
            && (completion != Making ==> CanAddEndState(codec, endStates[i], false, true)))
    }
  }

  function Empty(arch: Architecture, id: string): State {
    State(id, arch, map[], map[], {}, [], [], [], None, [], Metadata(UndefinedOrigin, ""), [])
  }

  // Two mappings without a common address.
  predicate Clear(x: MemoryMapping, y: MemoryMapping) {
    x.Limit() <= y.start || y.Limit() <= x.start
  }

  ghost predicate AllClear(list: seq<MemoryMapping>) {
    forall i: nat, j: nat :: i < j < |list| ==> Clear(list[i], list[j])
  }

  predicate MappingOk(x: MemoryMapping) {
    x.Valid() && !x.perms.IsEmpty() && Aligned(x.start) && Aligned(x.Limit())
  }

  predicate NegativeOk(x: MemoryMapping) {
    x.Valid() && !x.perms.IsEmpty() && Aligned(x.start) && (Aligned(x.Limit()) || x.Limit() == MAX_ADDRESS)
  }

  function Addresses(list: seq<MemoryBytes>): set<nat> {
    Content(list).Keys
  }

  ghost predicate NoConflict(mapped: map<nat, Perms>, negativeMapped: map<nat, Perms>) {
    forall a: nat :: a in mapped && a in negativeMapped ==> !mapped[a].HasSomeOf(negativeMapped[a])
  }

  // The end states are well-formed and pairwise different.
  ghost predicate EndStatesOk(list: seq<EndState>) {
    forall i :: 0 <= i < |list| ==> list[i].Valid()
  }

  ghost predicate Distinct(list: seq<EndState>) {
    forall i: nat, j: nat :: i < j < |list| ==> !list[j].DataEquals(list[i])
  }

  // The lists agree with the range maps, mappings are disjoint and aligned, bytes are disjoint
  // and mapped, and no permission is both granted and negatively mapped.
  ghost predicate Consistent(s: State) {
    && s.mapped == MapOf(s.mappings) && s.negativeMapped == MapOf(s.negative) && s.written == Addresses(s.bytes)
    && (forall i :: 0 <= i < |s.mappings| ==> MappingOk(s.mappings[i])) && AllClear(s.mappings)
    && (forall i :: 0 <= i < |s.negative| ==> NegativeOk(s.negative[i])) && AllClear(s.negative)
    && AllValid(s.bytes) && Disjoint(s.bytes) && s.written <= s.mapped.Keys
    && NoConflict(s.mapped, s.negativeMapped)
  }

  // Moreover the registers and the end states could be set and added now, but for unmapped endpoints.
  ghost predicate Guarded(codec: Codec, s: State) {
    && Consistent(s)
    && (s.registers.Some? ==> s.CanSetRegisters(codec, s.registers.value, false))
    && EndStatesOk(s.endStates) && AllAddable(codec, s, s.endStates)
  }

  ghost predicate AllAddable(codec: Codec, s: State, list: seq<EndState>) {
    forall i :: 0 <= i < |list| ==> s.CanAddEndState(codec, list[i], true, true)
  }
}
