/** What a protocol buffer says about a snapshot, field by field, and that reading and writing follow it
    (common/snapshot_proto.cc, proto/snapshot.proto). */
module ProtoMeaning {
  import opened Basics
  import opened Bits
  import opened Memory
  import opened Normalize
  import opened SnapshotState
  import opened SnapshotGuards
  import opened Platforms
  import opened Proto
  import opened ProtoRoundTrip
  import opened ProtoReader

  // The permissions are bits 1, 2 and 4, and there are no others.
  predicate SaysMapping(p: ProtoMapping, x: MemoryMapping) {
    && p.start == Some(x.start) && p.numBytes == Some(x.size)
    && p.permissions.Some? && 0 <= p.permissions.value < 8
    && (p.permissions.value % 2 == 1 <==> x.perms.r)
    && (p.permissions.value / 2 % 2 == 1 <==> x.perms.w)
    && (p.permissions.value / 4 == 1 <==> x.perms.x)
    && !x.perms.mapped
  }

  predicate SaysBytes(p: ProtoBytes, b: MemoryBytes) {
    p.start == Some(b.start) && p.values == Some(b.data)
  }

  predicate SaysRegisters(p: Option<ProtoRegisters>, r: RegisterState) {
    p.Some? && p.value.gregs == Some(r.gregs) && p.value.fpregs == Some(r.fpregs)
  }

  predicate SaysEndpoint(p: Option<ProtoEndpoint>, e: Endpoint) {
    && p.Some?
    && match e
       case AtInstruction(a) => p.value.InstructionEvent? && p.value.address == a
       case AtSignal(num, cause, sigAddress, instruction) =>
         && p.value.SignalEvent?
         && p.value.num == Some(Some(num)) && p.value.cause == Some(Some(cause))
         && p.value.sigAddress == Some(sigAddress) && p.value.instruction == Some(instruction)
  }

  // Platform `i` is bit `i` of the mask, and no mask is an empty one.
  ghost predicate SaysPlatform(mask: Option<nat>, i: nat) {
    mask.Some? && Bit(mask.value, i) == 1
  }

  ghost predicate SaysEndState(p: ProtoEndState, e: EndState) {
    && SaysEndpoint(p.endpoint, e.endpoint) && SaysRegisters(p.registers, e.registers)
    && |p.bytes| == |e.bytes| && (forall i :: 0 <= i < |e.bytes| ==> SaysBytes(p.bytes[i], e.bytes[i]))
    && |e.platforms| == 48 && (forall i :: 0 <= i < 48 ==> (e.platforms[i] <==> SaysPlatform(p.platforms, i)))
    && e.checksum == if p.checksum.Some? then p.checksum.value else []
  }

  ghost predicate SaysTrace(p: ProtoTrace, t: TraceData) {
    && p.numInstructions == t.numInstructions && p.disassembly == t.disassembly
    && Increasing(t.platforms, 0)
    && (forall i: nat :: i < 48 ==> (i in t.platforms <==> SaysPlatform(p.platforms, i)))
  }

  ghost predicate SaysMappings(ps: seq<ProtoMapping>, list: seq<MemoryMapping>) {
    |ps| == |list| && forall i :: 0 <= i < |ps| ==> SaysMapping(ps[i], list[i])
  }

  ghost predicate SaysBytesList(ps: seq<ProtoBytes>, list: seq<MemoryBytes>) {
    |ps| == |list| && forall i :: 0 <= i < |ps| ==> SaysBytes(ps[i], list[i])
  }

  ghost predicate SaysEndStates(ps: seq<ProtoEndState>, list: seq<EndState>) {
    |ps| == |list| && forall i :: 0 <= i < |ps| ==> SaysEndState(ps[i], list[i])
  }

  ghost predicate SaysTraces(ps: seq<ProtoTrace>, list: seq<TraceData>) {
    |ps| == |list| && forall i :: 0 <= i < |ps| ==> SaysTrace(ps[i], list[i])
  }

  // Names are made of the ASCII codes of digits, letters, the underscore and the hyphen.
  predicate IsName(id: string) {
    id != "" && forall i :: 0 <= i < |id| ==> IsNameCode(id[i] as int)
  }

  predicate IsNameCode(code: int) {
    48 <= code <= 57 || 65 <= code <= 90 || 97 <= code <= 122 || code == 95 || code == 45
  }

  // The name of a snapshot without one is a name.
  lemma IdIsName(id: string)
    ensures IsValidId(id) <==> IsName(id)
  {
    assert IsName("has_not_been_set");
  }

  // The buffer says that the snapshot is this one.
  ghost predicate Says(p: ProtoSnapshot, s: State) {
    && (p.id == Some(s.id) || (p.id == None && s.id == "has_not_been_set"))
    && p.arch == Some(Some(s.arch)) && p.metadata == s.metadata
    && SaysMappings(p.mappings, s.mappings) && SaysMappings(p.negative, s.negative) && SaysBytesList(p.bytes, s.bytes)
    && s.registers.Some? && SaysRegisters(p.registers, s.registers.value)
    && SaysEndStates(p.endStates, s.endStates) && SaysTraces(p.traces, s.traces)
  }

  // A snapshot that can be read.
  ghost predicate Readable(codec: Codec, s: State) {
    && IsName(s.id) && Guarded(codec, s) && s.registers.Some?
    && (forall i :: 0 <= i < |s.endStates| ==> s.CanAddEndState(codec, s.endStates[i], false, true))
    && AllStorable(s.endStates, 0) && IsCompleteSomeState(codec, s)
  }

  // A well-formed mapping is read exactly from what says it.
  lemma ReadsMapping(p: ProtoMapping, x: MemoryMapping)
    ensures LoadMapping(p) == Some(x) <==> SaysMapping(p, x) && x.size > 0 && x.start + x.size <= MAX_ADDRESS
    ensures x.Valid() ==> SaysMapping(StoreMapping(x), x)
    ensures SaysMapping(p, x) ==> p == StoreMapping(x)
  {
  }

  lemma ReadsBytes(p: ProtoBytes, b: MemoryBytes)
    ensures LoadByteValues(p) == Some(b) <==> SaysBytes(p, b) && b.data != [] && b.start + |b.data| <= MAX_ADDRESS
    ensures SaysBytes(p, b) <==> p == StoreByteValues(b)
  {
  }

  lemma ReadsRegisters(p: ProtoRegisters, r: RegisterState)
    ensures LoadRegisters(p) == Some(r) <==> SaysRegisters(Some(p), r)
    ensures SaysRegisters(Some(p), r) <==> p == StoreRegisters(r)
  {
  }

  // A signal other than a segmentation fault has no cause.
  lemma ReadsEndpoint(p: ProtoEndpoint, e: Endpoint)
    ensures LoadEndpoint(p) == Some(e) <==>
            SaysEndpoint(Some(p), e) && (e.AtSignal? ==> (e.cause.Generic? <==> !e.num.Segv?))
    ensures SaysEndpoint(Some(p), e) <==> p == StoreEndpoint(e)
  {
  }

  lemma {:induction false} LoadedBytesSay(list: seq<MemoryBytes>, ps: seq<ProtoBytes>)
    requires LoadEndStateBytes(list, ps).Some?
    ensures var r := LoadEndStateBytes(list, ps).value;
            |r| == |list| + |ps| && r[..|list|] == list && SaysBytesList(ps, r[|list|..])
    decreases |ps|
  {
    if ps != [] {
      var b := LoadByteValues(ps[0]).value;
      ReadsBytes(ps[0], b);
      LoadedBytesSay(list + [b], ps[1..]);
      var r := LoadEndStateBytes(list, ps).value;
      assert r[|list|] == r[..|list| + 1][|list|] && r[..|list|] == r[..|list| + 1][..|list|];
      forall i | 0 <= i < |ps| ensures SaysBytes(ps[i], r[|list|..][i]) {
        if i > 0 {
          assert SaysBytes(ps[1..][i - 1], r[|list| + 1..][i - 1]);
        }
      }
    }
  }

  lemma SaidBytes(ps: seq<ProtoBytes>, list: seq<MemoryBytes>)
    requires SaysBytesList(ps, list)
    ensures ps == StoreBytes(list)
  {
    forall i | 0 <= i < |ps| ensures ps[i] == StoreBytes(list)[i] {
      ReadsBytes(ps[i], list[i]);
    }
  }

  lemma SaidMappings(ps: seq<ProtoMapping>, list: seq<MemoryMapping>)
    requires SaysMappings(ps, list)
    ensures ps == StoreMappings(list)
  {
    forall i | 0 <= i < |ps| ensures ps[i] == StoreMappings(list)[i] {
      ReadsMapping(ps[i], list[i]);
    }
  }

  function FlagsIn(platforms: Option<nat>): (flags: seq<bool>)
    ensures |flags| == 48
  {
    if platforms.Some? then FlagsOf(platforms.value) else FlagsOf(0)
  }

  lemma FlagsSay(mask: Option<nat>, flags: seq<bool>)
    ensures FlagsIn(mask) == flags <==>
            |flags| == 48 && forall i :: 0 <= i < 48 ==> (flags[i] <==> SaysPlatform(mask, i))
  {
    NoFlags();
  }

  // An end state is read exactly from what says it, if it is well-formed and does not have the last platform.
  lemma ReadsEndState(p: ProtoEndState, e: EndState)
    ensures LoadEndState(p) == Some(e) <==> SaysEndState(p, e) && e.Valid() && !e.platforms[47]
  {
    FlagsSay(p.platforms, e.platforms);
    if p.endpoint.Some? {
      ReadsEndpoint(p.endpoint.value, e.endpoint);
    }
    if p.registers.Some? {
      ReadsRegisters(p.registers.value, e.registers);
    }
    if LoadEndState(p) == Some(e) {
      LoadedEndStateOk(p);
      LoadedBytesSay([], p.bytes);
      assert e.bytes[0..] == e.bytes;
    }
    if SaysEndState(p, e) && e.Valid() && !e.platforms[47] {
      assert SaysBytesList(p.bytes, e.bytes);
      SaidBytes(p.bytes, e.bytes);
      EndStateBytesBack(e.bytes, 0);
      assert p.bytes[0..] == p.bytes && e.bytes[..0] == [];
    }
  }

  // A trace is read exactly from what says it.
  lemma ReadsTrace(p: ProtoTrace, t: TraceData)
    ensures LoadTrace(p) == t <==> SaysTrace(p, t)
  {
    var flags := FlagsIn(p.platforms);
    var ids := Ids(flags);
    FlagsSay(p.platforms, flags);
    IdsFacts(flags, 0);
    AddIncreasing(ids);
    assert LoadTrace(p).platforms == ids by {
      if p.platforms.None? {
        NoFlags();
        IncreasingUnique(ids, [], 0);
      }
    }
    if SaysTrace(p, t) {
      IncreasingUnique(t.platforms, ids, 0);
    }
  }

  lemma ReadsTraces(ps: seq<ProtoTrace>, list: seq<TraceData>)
    ensures LoadTraces(ps) == list <==> SaysTraces(ps, list)
  {
    forall i | 0 <= i < |ps| && i < |list| ensures LoadTraces(ps)[i] == list[i] <==> SaysTrace(ps[i], list[i]) {
      ReadsTrace(ps[i], list[i]);
    }
    if SaysTraces(ps, list) {
      assert forall i :: 0 <= i < |ps| ==> LoadTraces(ps)[i] == list[i];
    }
  }

  // What reading the mappings did to a snapshot.
  lemma {:induction false} LoadedMappings(codec: Codec, s: State, ps: seq<ProtoMapping>)
    requires Guarded(codec, s) && LoadMappings(s, ps).Some?
    ensures var t := LoadMappings(s, ps).value;
            && Guarded(codec, t) && t == s.(mapped := t.mapped, mappings := t.mappings)
            && |t.mappings| == |s.mappings| + |ps| && t.mappings[..|s.mappings|] == s.mappings
            && SaysMappings(ps, t.mappings[|s.mappings|..])
    decreases |ps|
  {
    if ps != [] {
      var x := LoadMapping(ps[0]).value;
      ReadsMapping(ps[0], x);
      AddMappingKeeps(codec, s, x);
      LoadedMappings(codec, s.AddMapping(x), ps[1..]);
      SaysMore(ps, LoadMappings(s, ps).value.mappings, s.mappings, x);
    }
  }

  lemma SaysMore(ps: seq<ProtoMapping>, all: seq<MemoryMapping>, list: seq<MemoryMapping>, x: MemoryMapping)
    requires ps != [] && SaysMapping(ps[0], x) && |list| < |all| && all[..|list| + 1] == list + [x]
    requires SaysMappings(ps[1..], all[|list| + 1..])
    ensures all[..|list|] == list && SaysMappings(ps, all[|list|..])
  {
    assert all[|list|] == all[..|list| + 1][|list|] && all[..|list|] == all[..|list| + 1][..|list|];
    forall i | 0 <= i < |ps| ensures SaysMapping(ps[i], all[|list|..][i]) {
      if i > 0 {
        assert SaysMapping(ps[1..][i - 1], all[|list| + 1..][i - 1]);
      }
    }
  }

  lemma {:induction false} LoadedNegatives(codec: Codec, s: State, ps: seq<ProtoMapping>)
    requires Guarded(codec, s) && LoadNegatives(s, ps).Some?
    ensures var t := LoadNegatives(s, ps).value;
            && Guarded(codec, t) && t == s.(negativeMapped := t.negativeMapped, negative := t.negative)
            && |t.negative| == |s.negative| + |ps| && t.negative[..|s.negative|] == s.negative
            && SaysMappings(ps, t.negative[|s.negative|..])
    decreases |ps|
  {
    if ps != [] {
      var x := LoadMapping(ps[0]).value;
      ReadsMapping(ps[0], x);
      AddNegativeKeeps(codec, s, x);
      LoadedNegatives(codec, s.AddNegative(x), ps[1..]);
      SaysMore(ps, LoadNegatives(s, ps).value.negative, s.negative, x);
    }
  }

  lemma {:induction false} LoadedBytes(codec: Codec, s: State, ps: seq<ProtoBytes>)
    requires Guarded(codec, s) && LoadBytes(s, ps).Some?
    ensures var t := LoadBytes(s, ps).value;
            && Guarded(codec, t) && t == s.(written := t.written, bytes := t.bytes)
            && |t.bytes| == |s.bytes| + |ps| && t.bytes[..|s.bytes|] == s.bytes
            && SaysBytesList(ps, t.bytes[|s.bytes|..])
    decreases |ps|
  {
    if ps != [] {
      var b := LoadByteValues(ps[0]).value;
      ReadsBytes(ps[0], b);
      AddBytesKeeps(codec, s, b);
      LoadedBytes(codec, s.AddBytes(b), ps[1..]);
      var t, n := LoadBytes(s, ps).value, |s.bytes|;
      assert t.bytes[n] == t.bytes[..n + 1][n] && t.bytes[..n] == t.bytes[..n + 1][..n];
      forall i | 0 <= i < |ps| ensures SaysBytes(ps[i], t.bytes[n..][i]) {
        if i > 0 {
          assert SaysBytes(ps[1..][i - 1], t.bytes[n + 1..][i - 1]);
        }
      }
    }
  }

  // The end states were read after those of `s`: each could be added, is different from those before it and has
  // not the last platform.
  ghost predicate EndStatesRead(codec: Codec, s: State, ps: seq<ProtoEndState>, all: seq<EndState>) {
    var n := |s.endStates|;
    && |all| == n + |ps| && all[..n] == s.endStates && EndStatesOk(all)
    && SaysEndStates(ps, all[n..]) && AllStorable(all, n)
    && forall i :: n <= i < |all| ==> s.CanAddEndState(codec, all[i], false, true)
  }

  lemma {:induction false} LoadedEndStates(codec: Codec, s: State, ps: seq<ProtoEndState>)
    requires Guarded(codec, s) && LoadEndStates(codec, s, ps).Some?
    ensures var t := LoadEndStates(codec, s, ps).value;
            && Guarded(codec, t) && t == s.(endStates := t.endStates)
            && EndStatesRead(codec, s, ps, t.endStates)
    decreases |ps|
  {
    if ps != [] {
      var e := LoadEndState(ps[0]).value;
      ReadsEndState(ps[0], e);
      AddEndStateKeeps(codec, s, e, false);
      LoadedEndStates(codec, s.AddEndState(e), ps[1..]);
      EndStatesMore(codec, s, ps, LoadEndStates(codec, s, ps).value.endStates, e);
    } else {
      NoneRead(codec, s);
    }
  }

  lemma NoneRead(codec: Codec, s: State)
    requires EndStatesOk(s.endStates)
    ensures EndStatesRead(codec, s, [], s.endStates)
  {
  }

  lemma EndStatesMore(codec: Codec, s: State, ps: seq<ProtoEndState>, all: seq<EndState>, e: EndState)
    requires ps != [] && SaysEndState(ps[0], e) && !e.platforms[47] && s.CanAddEndState(codec, e, false, false)
    requires EndStatesRead(codec, s.AddEndState(e), ps[1..], all)
    ensures EndStatesRead(codec, s, ps, all)
  {
    var n := |s.endStates|;
    assert all[n] == all[..n + 1][n] && all[..n] == all[..n + 1][..n];
    forall i | 0 <= i < |ps| ensures SaysEndState(ps[i], all[n..][i]) {
      if i > 0 {
        assert SaysEndState(ps[1..][i - 1], all[n + 1..][i - 1]);
      }
    }
    assert StorableAt(all, n) by {
      assert forall j :: 0 <= j < n ==> all[j] == s.endStates[j];
    }
    forall i | n <= i < |all| ensures s.CanAddEndState(codec, all[i], false, true) {
      if i > n {
        EndStateGrows(codec, s.AddEndState(e), s, all[i], false);
      }
    }
  }

  // The memory and the registers are read exactly from what says them.
  lemma LoadedMemory(codec: Codec, id: string, arch: Architecture, p: ProtoSnapshot)
    requires p.registers.Some? && LoadMemory(codec, Empty(arch, id), p).Some?
    ensures var t := LoadMemory(codec, Empty(arch, id), p).value;
            && Guarded(codec, t) && t == Core(t) && t.id == id && t.arch == arch && t.registers.Some?
            && SaysMappings(p.mappings, t.mappings) && SaysMappings(p.negative, t.negative)
            && SaysBytesList(p.bytes, t.bytes) && SaysRegisters(p.registers, t.registers.value)
  {
    var s0 := Empty(arch, id);
    assert Guarded(codec, s0);
    LoadedMappings(codec, s0, p.mappings);
    var s1 := LoadMappings(s0, p.mappings).value;
    LoadedNegatives(codec, s1, p.negative);
    var s2 := LoadNegatives(s1, p.negative).value;
    LoadedBytes(codec, s2, p.bytes);
    var s3 := LoadBytes(s2, p.bytes).value;
    var r := LoadRegisters(p.registers.value).value;
    ReadsRegisters(p.registers.value, r);
    SetRegistersKeeps(codec, s3, r);
    assert s1.mappings[0..] == s1.mappings && s2.negative[0..] == s2.negative && s3.bytes[0..] == s3.bytes;
  }

  lemma SaidMemory(codec: Codec, p: ProtoSnapshot, s: State)
    requires Guarded(codec, s) && Says(p, s)
    ensures p.registers.Some? && LoadMemory(codec, Empty(s.arch, s.id), p) == Some(Core(s))
  {
    SaidMappings(p.mappings, s.mappings);
    SaidMappings(p.negative, s.negative);
    SaidBytes(p.bytes, s.bytes);
    ReadsRegisters(p.registers.value, s.registers.value);
    MemoryBack(codec, s);
  }

  lemma {:induction false} SaidEndStates(codec: Codec, s: State, ps: seq<ProtoEndState>, qs: seq<ProtoEndState>)
    requires |ps| == |qs| && forall i :: 0 <= i < |ps| ==> LoadEndState(ps[i]) == LoadEndState(qs[i])
    ensures LoadEndStates(codec, s, ps) == LoadEndStates(codec, s, qs)
    decreases |ps|
  {
    if ps != [] {
      assert LoadEndState(ps[0]) == LoadEndState(qs[0]);
      if LoadEndState(ps[0]).Some? {
        SaidEndStates(codec, s.AddEndState(LoadEndState(ps[0]).value), ps[1..], qs[1..]);
      }
    }
  }

  lemma EndStatesSaid(codec: Codec, p: ProtoSnapshot, s: State)
    requires Readable(codec, s) && SaysEndStates(p.endStates, s.endStates)
    ensures LoadEndStates(codec, Core(s), p.endStates) == Some(Core(s).(endStates := s.endStates))
  {
    var qs := StoreEndStates(s.endStates);
    forall i | 0 <= i < |qs| ensures LoadEndState(p.endStates[i]) == LoadEndState(qs[i]) {
      assert StorableAt(s.endStates, i);
      EndStateBack(s.endStates[i]);
      ReadsEndState(p.endStates[i], s.endStates[i]);
    }
    SaidEndStates(codec, Core(s), p.endStates, qs);
    forall i | 0 <= i < |s.endStates| ensures Core(s).CanAddEndState(codec, s.endStates[i], false, true) {
      EndStateGrows(codec, s, Core(s), s.endStates[i], false);
    }
    EndStatesBack(codec, Core(s), s.endStates, 0);
    assert qs[0..] == qs;
  }

  // A snapshot is read from a buffer exactly if the buffer says that it is this one and it can be read: there is no
  // other way to accept a buffer, and nothing else is read from it.
  lemma ReadIff(codec: Codec, p: ProtoSnapshot, s: State)
    ensures Load(codec, p) == Some(s) <==> Says(p, s) && Readable(codec, s)
  {
    IdIsName(s.id);
    if Load(codec, p) == Some(s) {
      ReadSays(codec, p, s);
    }
    if Says(p, s) && Readable(codec, s) {
      SaidMemory(codec, p, s);
      EndStatesSaid(codec, p, s);
      ReadsTraces(p.traces, s.traces);
      assert Core(s).(endStates := s.endStates).(metadata := s.metadata, traces := s.traces) == s;
    }
  }

  lemma ReadSays(codec: Codec, p: ProtoSnapshot, s: State)
    requires Load(codec, p) == Some(s)
    ensures Says(p, s) && Readable(codec, s)
  {
    IdIsName(s.id);
    LoadedMemory(codec, IdOf(p), p.arch.value.value, p);
    var s4 := LoadMemory(codec, Empty(p.arch.value.value, IdOf(p)), p).value;
    LoadedEndStates(codec, s4, p.endStates);
    var s5 := LoadEndStates(codec, s4, p.endStates).value;
    assert s5.endStates[0..] == s5.endStates;
    ReadsTraces(p.traces, s.traces);
    GuardedGrows(codec, s5, s);
    forall i | 0 <= i < |s.endStates| ensures s.CanAddEndState(codec, s.endStates[i], false, true) {
      EndStateGrows(codec, s4, s, s.endStates[i], false);
    }
  }

  // What is written says that the snapshot is the one written, but for an origin string that is not in use.
  lemma WriteSays(codec: Codec, s: State)
    requires Guarded(codec, s) && s.registers.Some? && TracesOk(s.traces)
    ensures Says(Store(s), s.(metadata := Store(s).metadata))
    ensures Store(s).metadata.origin == s.metadata.origin
    ensures Store(s).metadata.originString == if s.metadata.origin == UseString then s.metadata.originString else ""
  {
    forall i | 0 <= i < |s.mappings| ensures SaysMapping(Store(s).mappings[i], s.mappings[i]) {
      ReadsMapping(Store(s).mappings[i], s.mappings[i]);
    }
    forall i | 0 <= i < |s.negative| ensures SaysMapping(Store(s).negative[i], s.negative[i]) {
      ReadsMapping(Store(s).negative[i], s.negative[i]);
    }
    forall i | 0 <= i < |s.endStates| ensures SaysEndState(Store(s).endStates[i], s.endStates[i]) {
      WritesEndState(s.endStates[i]);
    }
    TracesBack(s.traces);
    ReadsTraces(Store(s).traces, s.traces);
  }

  lemma WritesEndState(e: EndState)
    requires e.Valid()
    ensures SaysEndState(StoreEndState(e), e)
  {
    var mask := StoreEndState(e).platforms;
    ReadsEndpoint(StoreEndpoint(e.endpoint), e.endpoint);
    ReadsRegisters(StoreRegisters(e.registers), e.registers);
    forall i: nat | i < 48 ensures e.platforms[i] <==> SaysPlatform(mask, i) {
      IdsFacts(e.platforms, 0);
      MaskBit(Ids(e.platforms), i);
    }
  }
}
