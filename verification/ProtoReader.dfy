/** Building a snapshot object from a protocol buffer, guard by guard, and writing one
    (common/snapshot_proto.cc). */
module ProtoReader {
  import opened Basics
  import opened Memory
  import opened Normalize
  import opened SnapshotState
  import opened SnapshotGuards
  import opened Snapshots
  import opened Platforms
  import opened Proto

  method ReadMappings(snap: Snapshot, ps: seq<ProtoMapping>) returns (ok: bool)
    requires snap.Valid()
    modifies snap
    ensures snap.Valid() && snap.endStates == old(snap.endStates)
    ensures ok == LoadMappings(old(snap.View()), ps).Some?
    ensures ok ==> snap.View() == LoadMappings(old(snap.View()), ps).value
  {
    for k := 0 to |ps|
      invariant snap.Valid() && snap.endStates == old(snap.endStates)
      invariant LoadMappings(old(snap.View()), ps) == LoadMappings(snap.View(), ps[k..])
    {
      assert ps[k..][0] == ps[k] && ps[k..][1..] == ps[k + 1..];
      var x := LoadMapping(ps[k]);
      if x.None? || !snap.View().CanAddMapping(x.value) {
        return false;
      }
      snap.AddMemoryMapping(x.value);
    }
    return true;
  }

  method ReadNegatives(snap: Snapshot, ps: seq<ProtoMapping>) returns (ok: bool)
    requires snap.Valid()
    modifies snap
    ensures snap.Valid() && snap.endStates == old(snap.endStates)
    ensures ok == LoadNegatives(old(snap.View()), ps).Some?
    ensures ok ==> snap.View() == LoadNegatives(old(snap.View()), ps).value
  {
    for k := 0 to |ps|
      invariant snap.Valid() && snap.endStates == old(snap.endStates)
      invariant LoadNegatives(old(snap.View()), ps) == LoadNegatives(snap.View(), ps[k..])
    {
      assert ps[k..][0] == ps[k] && ps[k..][1..] == ps[k + 1..];
      var x := LoadMapping(ps[k]);
      if x.None? || !snap.View().CanAddNegative(x.value, false) {
        return false;
      }
      snap.AddNegativeMemoryMapping(x.value);
    }
    return true;
  }

  method ReadBytes(snap: Snapshot, ps: seq<ProtoBytes>) returns (ok: bool)
    requires snap.Valid()
    modifies snap
    ensures snap.Valid() && snap.endStates == old(snap.endStates)
    ensures ok == LoadBytes(old(snap.View()), ps).Some?
    ensures ok ==> snap.View() == LoadBytes(old(snap.View()), ps).value
  {
    for k := 0 to |ps|
      invariant snap.Valid() && snap.endStates == old(snap.endStates)
      invariant LoadBytes(old(snap.View()), ps) == LoadBytes(snap.View(), ps[k..])
    {
      assert ps[k..][0] == ps[k] && ps[k..][1..] == ps[k + 1..];
      var b := LoadByteValues(ps[k]);
      if b.None? || !snap.View().CanAddBytes(b.value) {
        return false;
      }
      snap.AddMemoryBytes(b.value);
    }
    return true;
  }

  lemma {:induction false} LoadedBytesOk(list: seq<MemoryBytes>, ps: seq<ProtoBytes>)
    requires AllValid(list) && Disjoint(list) && LoadEndStateBytes(list, ps).Some?
    ensures AllValid(LoadEndStateBytes(list, ps).value) && Disjoint(LoadEndStateBytes(list, ps).value)
    decreases |ps|
  {
    if ps != [] {
      var b := LoadByteValues(ps[0]).value;
      AppendBytes(list, b);
      LoadedBytesOk(list + [b], ps[1..]);
    }
  }

  lemma LoadedEndStateOk(p: ProtoEndState)
    requires LoadEndState(p).Some?
    ensures LoadEndState(p).value.Valid()
  {
    LoadedBytesOk([], p.bytes);
  }

  method ReadEndStates(snap: Snapshot, ps: seq<ProtoEndState>) returns (ok: bool)
    requires snap.Valid() && Distinct(snap.endStates)
    modifies snap
    ensures snap.Valid() && Distinct(snap.endStates) && ok == LoadEndStates(snap.codec, old(snap.View()), ps).Some?
    ensures ok ==> snap.View() == LoadEndStates(snap.codec, old(snap.View()), ps).value
  {
    for k := 0 to |ps|
      invariant snap.Valid() && Distinct(snap.endStates)
      invariant LoadEndStates(snap.codec, old(snap.View()), ps) == LoadEndStates(snap.codec, snap.View(), ps[k..])
    {
      assert ps[k..][0] == ps[k] && ps[k..][1..] == ps[k + 1..];
      var e := LoadEndState(ps[k]);
      if e.None? || !snap.View().CanAddEndState(snap.codec, e.value, false, false) {
        return false;
      }
      LoadedEndStateOk(ps[k]);
      snap.AddExpectedEndState(e.value, false);
    }
    return true;
  }

  // The mappings, the bytes and the registers.
  method ReadMemory(snap: Snapshot, p: ProtoSnapshot) returns (ok: bool)
    requires snap.Valid() && p.registers.Some?
    modifies snap
    ensures snap.Valid() && snap.endStates == old(snap.endStates)
    ensures ok == LoadMemory(snap.codec, old(snap.View()), p).Some?
    ensures ok ==> snap.View() == LoadMemory(snap.codec, old(snap.View()), p).value
  {
    ok := ReadMappings(snap, p.mappings);
    if ok {
      ok := ReadNegatives(snap, p.negative);
    }
    if ok {
      ok := ReadBytes(snap, p.bytes);
    }
    if ok {
      var r := LoadRegisters(p.registers.value);
      if r.None? || !snap.View().CanSetRegisters(snap.codec, r.value, false) {
        return false;
      }
      snap.SetRegisters(r.value);
    }
  }

  method ReadTraces(ps: seq<ProtoTrace>) returns (traces: seq<TraceData>)
    ensures traces == LoadTraces(ps)
  {
    traces := [];
    for k := 0 to |ps|
      invariant traces == LoadTraces(ps)[..k]
    {
      traces := traces + [LoadTrace(ps[k])];
    }
  }

  // Builds the snapshot.  Whatever the input, a snapshot that is returned satisfies all guards.
  method FromProto(codec: Codec, p: ProtoSnapshot) returns (r: Option<Snapshot>)
    ensures r.Some? == Load(codec, p).Some?
    ensures r.Some? ==> fresh(r.value) && r.value.codec == codec && r.value.View() == Load(codec, p).value
    ensures r.Some? ==> r.value.Valid() && Distinct(r.value.endStates)
  {
    if p.arch.None? || p.registers.None? || !IsValidId(IdOf(p)) || p.arch.value.None? {
      return None;
    }
    var snap := new Snapshot(codec, p.arch.value.value, IdOf(p));
    var ok := ReadMemory(snap, p);
    if !ok {
      return None;
    }
    ok := ReadEndStates(snap, p.endStates);
    if !ok {
      return None;
    }
    var traces := ReadTraces(p.traces);
    snap.SetMetadata(p.metadata, traces);
    if IsCompleteSomeState(codec, snap.View()) {
      return Some(snap);
    }
    return None;
  }

  method WriteMappings(list: seq<MemoryMapping>) returns (ps: seq<ProtoMapping>)
    ensures ps == StoreMappings(list)
  {
    ps := [];
    for k := 0 to |list|
      invariant ps == StoreMappings(list)[..k]
    {
      ps := ps + [StoreMapping(list[k])];
    }
  }

  method WriteBytes(list: seq<MemoryBytes>) returns (ps: seq<ProtoBytes>)
    ensures ps == StoreBytes(list)
  {
    ps := [];
    for k := 0 to |list|
      invariant ps == StoreBytes(list)[..k]
    {
      ps := ps + [StoreByteValues(list[k])];
    }
  }

  method WriteEndState(e: EndState) returns (p: ProtoEndState)
    ensures p == StoreEndState(e)
  {
    var bytes := WriteBytes(e.bytes);
    var platforms: Option<nat> := None;
    if !e.NoPlatforms() {
      var mask := PlatformsToBitmask(Ids(e.platforms));
      platforms := Some(mask);
    }
    p := ProtoEndState(Some(StoreEndpoint(e.endpoint)), Some(StoreRegisters(e.registers)), bytes, platforms,
                       Some(e.checksum));
  }

  method ToProto(snap: Snapshot) returns (p: ProtoSnapshot)
    requires snap.registers.Some?
    ensures p == Store(snap.View())
  {
    var mappings := WriteMappings(snap.mappings);
    var negative := WriteMappings(snap.negative);
    var bytes := WriteBytes(snap.bytes);
    var endStates := [];
    for k := 0 to |snap.endStates|
      invariant endStates == StoreEndStates(snap.endStates)[..k]
    {
      var e := WriteEndState(snap.endStates[k]);
      endStates := endStates + [e];
    }
    var traces := [];
    for k := 0 to |snap.traces|
      invariant traces == StoreTraces(snap.traces)[..k]
    {
      traces := traces + [StoreTrace(snap.traces[k])];
    }
    p := ProtoSnapshot(Some(snap.id), Some(Some(snap.arch)), mappings, negative, bytes,
                       Some(StoreRegisters(snap.registers.value)), endStates, StoreMetadata(snap.metadata), traces);
  }
}
