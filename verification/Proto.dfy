/** Snapshots as protocol buffers (common/snapshot_proto.cc).

    An optional field is an Option, and an undefined enumeration value is an inner None.  Reading
    gives None for every error and failed check of the source. */
module Proto {
  import opened Basics
  import opened Memory
  import opened SnapshotState
  import opened Platforms

  datatype ProtoMapping = ProtoMapping(start: Option<nat>, numBytes: Option<nat>, permissions: Option<int>)

  datatype ProtoBytes = ProtoBytes(start: Option<nat>, values: Option<seq<Byte>>)

  datatype ProtoRegisters = ProtoRegisters(gregs: Option<seq<Byte>>, fpregs: Option<seq<Byte>>)

  datatype ProtoEndpoint =
    | NoEvent
    | InstructionEvent(address: Address)
    | SignalEvent(num: Option<Option<SigNum>>, cause: Option<Option<SigCause>>,
                  sigAddress: Option<Address>, instruction: Option<Address>)

  datatype ProtoEndState = ProtoEndState(endpoint: Option<ProtoEndpoint>, registers: Option<ProtoRegisters>,
                                         bytes: seq<ProtoBytes>, platforms: Option<nat>, checksum: Option<seq<Byte>>)

  datatype ProtoTrace = ProtoTrace(numInstructions: nat, disassembly: string, platforms: Option<nat>)

  datatype ProtoSnapshot = ProtoSnapshot(
    id: Option<string>, arch: Option<Option<Architecture>>,
    mappings: seq<ProtoMapping>, negative: seq<ProtoMapping>, bytes: seq<ProtoBytes>,
    registers: Option<ProtoRegisters>, endStates: seq<ProtoEndState>, metadata: Metadata, traces: seq<ProtoTrace>)

  const UNSET_ID := "has_not_been_set"

  predicate IsIdChar(c: char) {
    'a' <= c <= 'z' || 'A' <= c <= 'Z' || '0' <= c <= '9' || c == '_' || c == '-'
  }

  predicate IsValidId(id: string) {
    id == UNSET_ID || (id != "" && forall i :: 0 <= i < |id| ==> IsIdChar(id[i]))
  }

  function PermBits(p: Perms): int {
    (if p.r then 1 else 0) + (if p.w then 2 else 0) + (if p.x then 4 else 0) + if p.mapped then 8 else 0
  }

  function PermsOfBits(bits: int): Perms {
    Perms(bits % 2 == 1, bits / 2 % 2 == 1, bits / 4 % 2 == 1, bits / 8 % 2 == 1)
  }

  // Reading.

  function LoadMapping(p: ProtoMapping): Option<MemoryMapping> {
    if p.start.None? || p.numBytes.None? || p.permissions.None? then None
    // No bits beyond reading, writing and execution are known.
    else if !(0 <= p.permissions.value < 8) then None
    else
      var x := MemoryMapping(p.start.value, p.numBytes.value, PermsOfBits(p.permissions.value));
      if x.Valid() then Some(x) else None
  }

  function LoadByteValues(p: ProtoBytes): Option<MemoryBytes> {
    if p.start.None? || p.values.None? then None
    else
      var b := MemoryBytes(p.start.value, p.values.value);
      if b.Valid() then Some(b) else None
  }

  function LoadRegisters(p: ProtoRegisters): Option<RegisterState> {
    if p.gregs.None? || p.fpregs.None? then None else Some(RegisterState(p.gregs.value, p.fpregs.value))
  }

  function LoadEndpoint(p: ProtoEndpoint): Option<Endpoint> {
    match p
    case NoEvent => None
    case InstructionEvent(a) => Some(AtInstruction(a))
    case SignalEvent(num, cause, sigAddress, instruction) =>
      if num.None? || cause.None? || sigAddress.None? || instruction.None? then None
      else if num.value.None? || cause.value.None? then None
      else
        var e := AtSignal(num.value.value, cause.value.value, sigAddress.value, instruction.value);
        if e.Valid() then Some(e) else None
  }

  // The bytes of an end state, after those in `list`.
  function LoadEndStateBytes(list: seq<MemoryBytes>, ps: seq<ProtoBytes>): Option<seq<MemoryBytes>>
    decreases |ps|
  {
    if ps == [] then Some(list)
    else
      var b :- LoadByteValues(ps[0]);
      if exists a: nat :: b.start <= a < b.Limit() && a in Addresses(list) then None
      else LoadEndStateBytes(list + [b], ps[1..])
  }

  function LoadEndState(p: ProtoEndState): Option<EndState> {
    if p.endpoint.None? || p.registers.None? then None
    else
      var e :- LoadEndpoint(p.endpoint.value);
      var r :- LoadRegisters(p.registers.value);
      var bytes :- LoadEndStateBytes([], p.bytes);
      var flags := if p.platforms.Some? then FlagsOf(p.platforms.value) else FlagsOf(0);
      // Setting the last platform fails a check.
      if flags[NUM_PLATFORMS - 1] then None
      else Some(EndState(e, r, bytes, flags, if p.checksum.Some? then p.checksum.value else []))
  }

  function LoadTrace(p: ProtoTrace): TraceData {
    TraceData(p.numInstructions, p.disassembly,
              if p.platforms.Some? then AddPlatforms([], Ids(FlagsOf(p.platforms.value))) else [])
  }

  function LoadMappings(s: State, ps: seq<ProtoMapping>): Option<State>
    decreases |ps|
  {
    if ps == [] then Some(s)
    else
      var x :- LoadMapping(ps[0]);
      if s.CanAddMapping(x) then LoadMappings(s.AddMapping(x), ps[1..]) else None
  }

  function LoadNegatives(s: State, ps: seq<ProtoMapping>): Option<State>
    decreases |ps|
  {
    if ps == [] then Some(s)
    else
      var x :- LoadMapping(ps[0]);
      if s.CanAddNegative(x, false) then LoadNegatives(s.AddNegative(x), ps[1..]) else None
  }

  function LoadBytes(s: State, ps: seq<ProtoBytes>): Option<State>
    decreases |ps|
  {
    if ps == [] then Some(s)
    else
      var b :- LoadByteValues(ps[0]);
      if s.CanAddBytes(b) then LoadBytes(s.AddBytes(b), ps[1..]) else None
  }

  function LoadEndStates(codec: Codec, s: State, ps: seq<ProtoEndState>): Option<State>
    decreases |ps|
  {
    if ps == [] then Some(s)
    else
      var e :- LoadEndState(ps[0]);
      if s.CanAddEndState(codec, e, false, false) then LoadEndStates(codec, s.AddEndState(e), ps[1..]) else None
  }

  function LoadTraces(ps: seq<ProtoTrace>): seq<TraceData> {
    seq(|ps|, i requires 0 <= i < |ps| => LoadTrace(ps[i]))
  }

  function IdOf(p: ProtoSnapshot): string {
    if p.id.Some? then p.id.value else UNSET_ID
  }

  predicate IsCompleteSomeState(codec: Codec, s: State) {
    s.IsComplete(codec, Normal) || s.IsComplete(codec, UndefinedEndState) || s.IsComplete(codec, Making)
  }

  // The memory and the registers.
  function LoadMemory(codec: Codec, s: State, p: ProtoSnapshot): Option<State>
    requires p.registers.Some?
  {
    var s1 :- LoadMappings(s, p.mappings);
    var s2 :- LoadNegatives(s1, p.negative);
    var s3 :- LoadBytes(s2, p.bytes);
    var r :- LoadRegisters(p.registers.value);
    if s3.CanSetRegisters(codec, r, false) then Some(s3.(registers := Some(r))) else None
  }

  function Load(codec: Codec, p: ProtoSnapshot): Option<State> {
    if p.arch.None? || p.registers.None? || !IsValidId(IdOf(p)) || p.arch.value.None? then None
    else
      var s4 :- LoadMemory(codec, Empty(p.arch.value.value, IdOf(p)), p);
      var s5 :- LoadEndStates(codec, s4, p.endStates);
      var s6 := s5.(metadata := p.metadata, traces := LoadTraces(p.traces));
      if IsCompleteSomeState(codec, s6) then Some(s6) else None
  }

  // Writing.

  function StoreMapping(x: MemoryMapping): ProtoMapping {
    ProtoMapping(Some(x.start), Some(x.size), Some(PermBits(x.perms)))
  }

  function StoreByteValues(b: MemoryBytes): ProtoBytes {
    ProtoBytes(Some(b.start), Some(b.data))
  }

  function StoreRegisters(r: RegisterState): ProtoRegisters {
    ProtoRegisters(Some(r.gregs), Some(r.fpregs))
  }

  function StoreEndpoint(e: Endpoint): ProtoEndpoint {
    match e
    case AtInstruction(a) => InstructionEvent(a)
    case AtSignal(num, cause, sigAddress, instruction) =>
      SignalEvent(Some(Some(num)), Some(Some(cause)), Some(sigAddress), Some(instruction))
  }

  function StoreEndState(e: EndState): ProtoEndState {
    ProtoEndState(Some(StoreEndpoint(e.endpoint)), Some(StoreRegisters(e.registers)), StoreBytes(e.bytes),
                  if e.NoPlatforms() then None else Some(Mask(Ids(e.platforms))), Some(e.checksum))
  }

  function StoreMetadata(m: Metadata): Metadata {
    if m.origin.UseString? then m else m.(originString := "")
  }

  function StoreTrace(t: TraceData): ProtoTrace {
    ProtoTrace(t.numInstructions, t.disassembly, Some(Mask(t.platforms)))
  }

  function StoreMappings(list: seq<MemoryMapping>): (ps: seq<ProtoMapping>)
    ensures |ps| == |list|
    ensures forall i {:trigger ps[i]} :: 0 <= i < |ps| ==> ps[i] == StoreMapping(list[i])
  {
    seq(|list|, i requires 0 <= i < |list| => StoreMapping(list[i]))
  }

  function StoreBytes(list: seq<MemoryBytes>): (ps: seq<ProtoBytes>)
    ensures |ps| == |list|
    ensures forall i {:trigger ps[i]} :: 0 <= i < |ps| ==> ps[i] == StoreByteValues(list[i])
  {
    seq(|list|, i requires 0 <= i < |list| => StoreByteValues(list[i]))
  }

  function StoreEndStates(list: seq<EndState>): (ps: seq<ProtoEndState>)
    ensures |ps| == |list|
    ensures forall i {:trigger ps[i]} :: 0 <= i < |ps| ==> ps[i] == StoreEndState(list[i])
  {
    seq(|list|, i requires 0 <= i < |list| => StoreEndState(list[i]))
  }

  function StoreTraces(list: seq<TraceData>): (ps: seq<ProtoTrace>)
    ensures |ps| == |list|
    ensures forall i {:trigger ps[i]} :: 0 <= i < |ps| ==> ps[i] == StoreTrace(list[i])
  {
    seq(|list|, i requires 0 <= i < |list| => StoreTrace(list[i]))
  }

  function Store(s: State): ProtoSnapshot
    requires s.registers.Some?
  {
    ProtoSnapshot(Some(s.id), Some(Some(s.arch)), StoreMappings(s.mappings), StoreMappings(s.negative),
                  StoreBytes(s.bytes), Some(StoreRegisters(s.registers.value)), StoreEndStates(s.endStates),
                  StoreMetadata(s.metadata), StoreTraces(s.traces))
  }
}
