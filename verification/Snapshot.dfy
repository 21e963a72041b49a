/** The snapshot as an object whose guarded operations keep several views of the memory consistent
    (common/snapshot.cc). */
module Snapshots {
  import opened Basics
  import opened Memory
  import opened MappedMemory
  import opened Normalize
  import opened SnapshotState
  import opened SnapshotGuards

  // The end state with its bytes in canonical form.
  ghost predicate EndStateNormalized(was: EndState, now: EndState, mapped: map<nat, Perms>)
    requires Content(was.bytes).Keys <= mapped.Keys
  {
    && now == was.(bytes := now.bytes)
    && IsCanonical(now.bytes, Content(was.bytes), PermsOf(Content(was.bytes), mapped), MAX_ADDRESS)
  }

  // A list of writable bytes is mapped, and so is its canonical form writable.
  ghost predicate AllBytesWritable(mapped: map<nat, Perms>, list: seq<MemoryBytes>) {
    forall i :: 0 <= i < |list| ==> AllWritable(mapped, list[i].start, list[i].Limit())
  }

  lemma WritableContent(mapped: map<nat, Perms>, list: seq<MemoryBytes>)
    requires Disjoint(list) && AllBytesWritable(mapped, list)
    ensures Content(list).Keys <= mapped.Keys
    ensures forall a: nat :: a in Content(list) ==> mapped[a].w
  {
    forall a: nat | a in Content(list) ensures a in mapped && mapped[a].w {
      ContentAt(list, a);
      var i: nat :| InBytes(list, a, i);
      assert AllWritable(mapped, list[i].start, list[i].Limit());
    }
  }

  lemma CanonicalWritable(mapped: map<nat, Perms>, list: seq<MemoryBytes>, out: seq<MemoryBytes>)
    requires AllValid(list) && Disjoint(list) && AllBytesWritable(mapped, list) && Content(list).Keys <= mapped.Keys
    requires IsCanonical(out, Content(list), PermsOf(Content(list), mapped), MAX_ADDRESS)
    ensures AllValid(out) && Disjoint(out) && AllBytesWritable(mapped, out)
    ensures list == [] ==> out == []
  {
    WritableContent(mapped, list);
    ContentInSpace(list);
    CanonicalFacts(out, Content(list), PermsOf(Content(list), mapped));
    forall i | 0 <= i < |out| ensures AllWritable(mapped, out[i].start, out[i].Limit()) {
      assert out[i].Valid();
      forall a: nat | out[i].start <= a < out[i].Limit() ensures a in mapped && mapped[a].w {
        assert InBytes(out, a, i);
        ContentAt(out, a);
      }
    }
    if list == [] && out != [] {
      assert out[0].Valid() && InBytes(out, out[0].start, 0);
      ContentAt(out, out[0].start);
    }
  }

  ghost predicate EndStatesWritable(mapped: map<nat, Perms>, list: seq<EndState>) {
    forall i :: 0 <= i < |list| ==>
      list[i].Valid() && AllBytesWritable(mapped, list[i].bytes) && Content(list[i].bytes).Keys <= mapped.Keys
  }

  // All byte lists are replaced by their canonical forms, and nothing else changes.
  ghost predicate BytesNormalized(s: State, t: State)
    requires Addresses(s.bytes) <= s.mapped.Keys && EndStatesWritable(s.mapped, s.endStates)
  {
    && t == s.(bytes := t.bytes, endStates := t.endStates)
    && IsCanonical(t.bytes, Content(s.bytes), PermsOf(Content(s.bytes), s.mapped), MAX_ADDRESS)
    && |t.endStates| == |s.endStates|
    && forall i :: 0 <= i < |s.endStates| ==> EndStateNormalized(s.endStates[i], t.endStates[i], s.mapped)
  }

  lemma GuardedWritable(codec: Codec, s: State)
    requires Guarded(codec, s)
    ensures EndStatesWritable(s.mapped, s.endStates)
  {
    forall i | 0 <= i < |s.endStates|
      ensures s.endStates[i].Valid() && AllBytesWritable(s.mapped, s.endStates[i].bytes)
      ensures Content(s.endStates[i].bytes).Keys <= s.mapped.Keys
    {
      assert s.CanAddEndState(codec, s.endStates[i], true, true);
      WritableContent(s.mapped, s.endStates[i].bytes);
    }
  }

  lemma NormalizedEndState(codec: Codec, s: State, t: State, was: EndState, now: EndState, unmappedOk: bool)
    requires was.Valid() && s.CanAddEndState(codec, was, unmappedOk, true) && Content(was.bytes).Keys <= s.mapped.Keys
    requires EndStateNormalized(was, now, s.mapped) && t.mapped == s.mapped && t.negativeMapped == s.negativeMapped
    requires t.arch == s.arch && t.id == s.id
    ensures now.Valid() && t.CanAddEndState(codec, now, unmappedOk, true) && (was.bytes == [] ==> now.bytes == [])
  {
    assert forall i :: 0 <= i < |was.bytes| ==> AllWritable(s.mapped, was.bytes[i].start, was.bytes[i].Limit());
    CanonicalWritable(s.mapped, was.bytes, now.bytes);
    EndStateGrows(codec, s, t, was, unmappedOk);
  }

  lemma NormalizedGuarded(codec: Codec, s: State, t: State)
    requires Guarded(codec, s) && EndStatesWritable(s.mapped, s.endStates) && BytesNormalized(s, t)
    ensures Guarded(codec, t)
  {
    ContentInSpace(s.bytes);
    CanonicalFacts(t.bytes, Content(s.bytes), PermsOf(Content(s.bytes), s.mapped));
    assert Consistent(t);
    forall i | 0 <= i < |t.endStates|
      ensures t.endStates[i].Valid() && t.CanAddEndState(codec, t.endStates[i], true, true)
    {
      assert s.CanAddEndState(codec, s.endStates[i], true, true);
      assert EndStateNormalized(s.endStates[i], t.endStates[i], s.mapped);
      NormalizedEndState(codec, s, t, s.endStates[i], t.endStates[i], true);
    }
    if s.registers.Some? {
      RegistersGrow(codec, s, t, s.registers.value, false);
    }
  }

  // Equality of everything but the platforms, however the bytes are cut into pieces.
  ghost predicate SameData(e: EndState, f: EndState) {
    && e.endpoint == f.endpoint && e.registers == f.registers && e.checksum == f.checksum
    && Content(e.bytes) == Content(f.bytes)
  }

  ghost predicate NoSameData(list: seq<EndState>) {
    forall i: nat, j: nat :: i < j < |list| ==> !SameData(list[j], list[i])
  }

  // Normalized end states are equal exactly if they were, but for the pieces of their bytes.
  lemma NormalizedEqual(e: EndState, f: EndState, eNow: EndState, fNow: EndState, mapped: map<nat, Perms>)
    requires e.Valid() && Content(e.bytes).Keys <= mapped.Keys && EndStateNormalized(e, eNow, mapped)
    requires f.Valid() && Content(f.bytes).Keys <= mapped.Keys && EndStateNormalized(f, fNow, mapped)
    ensures fNow.DataEquals(eNow) <==> SameData(f, e)
  {
    if Content(e.bytes) == Content(f.bytes) {
      CanonicalUnique(eNow.bytes, fNow.bytes, Content(e.bytes), PermsOf(Content(e.bytes), mapped));
    } else if Sorted(eNow.bytes) == Sorted(fNow.bytes) {
      NormalizedContent(e, eNow, mapped);
      NormalizedContent(f, fNow, mapped);
    }
  }

  lemma NormalizedContent(e: EndState, now: EndState, mapped: map<nat, Perms>)
    requires e.Valid() && Content(e.bytes).Keys <= mapped.Keys && EndStateNormalized(e, now, mapped)
    ensures Content(Sorted(now.bytes)) == Content(e.bytes)
  {
    ContentInSpace(e.bytes);
    CanonicalFacts(now.bytes, Content(e.bytes), PermsOf(Content(e.bytes), mapped));
    SortedFacts(now.bytes);
  }

  // After normalization the end states are distinct exactly if no two had the same data before.
  lemma NormalizedDistinct(s: State, t: State)
    requires Addresses(s.bytes) <= s.mapped.Keys && EndStatesWritable(s.mapped, s.endStates) && BytesNormalized(s, t)
    ensures Distinct(t.endStates) <==> NoSameData(s.endStates)
  {
    forall i: nat, j: nat | i < j < |s.endStates|
      ensures t.endStates[j].DataEquals(t.endStates[i]) <==> SameData(s.endStates[j], s.endStates[i])
    {
      NormalizedEqual(s.endStates[i], s.endStates[j], t.endStates[i], t.endStates[j], s.mapped);
    }
  }

  method NormalizeEndStates(mapped: map<nat, Perms>, list: seq<EndState>) returns (out: seq<EndState>)
    requires EndStatesWritable(mapped, list)
    ensures |out| == |list| && forall i :: 0 <= i < |list| ==> EndStateNormalized(list[i], out[i], mapped)
  {
    out := [];
    for n := 0 to |list|
      invariant |out| == n && forall i :: 0 <= i < n ==> EndStateNormalized(list[i], out[i], mapped)
    {
      var normal := NormalizeMemoryBytes(mapped, list[n].bytes);
      out := out + [list[n].(bytes := normal)];
    }
  }

  class Snapshot {
    const codec: Codec
    const arch: Architecture
    var id: string
    // What is mapped, what is negatively mapped, and what has bytes.
    var mapped: map<nat, Perms>
    var negativeMapped: map<nat, Perms>
    var written: set<nat>
    // The same as lists.
    var mappings: seq<MemoryMapping>
    var negative: seq<MemoryMapping>
    var bytes: seq<MemoryBytes>
    var registers: Option<RegisterState>
    var endStates: seq<EndState>
    var metadata: Metadata
    var traces: seq<TraceData>

    function View(): State
      reads this
    {
      State(id, arch, mapped, negativeMapped, written, mappings, negative, bytes, registers, endStates,
            metadata, traces)
    }

    ghost predicate Valid()
      reads this
    {
      Guarded(codec, View())
    }

    constructor (codec: Codec, arch: Architecture, id: string)
      ensures Valid() && View() == Empty(arch, id) && this.codec == codec
    {
      this.codec, this.arch, this.id := codec, arch, id;
      mapped, negativeMapped, written := map[], map[], {};
      mappings, negative, bytes := [], [], [];
      registers, endStates, metadata, traces := None, [], Metadata(UndefinedOrigin, ""), [];
      new;
      EmptyGuarded(codec, arch, id);
    }

    method AddMemoryMapping(x: MemoryMapping)
      requires Valid() && x.Valid() && View().CanAddMapping(x)
      modifies this
      ensures Valid() && View() == old(View()).AddMapping(x)
    {
      AddMappingKeeps(codec, View(), x);
      mapped := Painted(mapped, x);
      mappings := mappings + [x];
    }

    method AddNegativeMemoryMapping(x: MemoryMapping)
      requires Valid() && x.Valid() && View().CanAddNegative(x, false)
      modifies this
      ensures Valid() && View() == old(View()).AddNegative(x)
    {
      AddNegativeKeeps(codec, View(), x);
      negativeMapped := Painted(negativeMapped, x);
      negative := negative + [x];
    }

    method AddNegativeMemoryMappingOverlapOk(x: MemoryMapping)
      requires Valid() && x.Valid() && View().CanAddNegative(x, true)
      modifies this
      ensures Valid() && View() == AddNegativeOverlapOk(old(View()), x)
    {
      AddNegativeOverlapKeeps(codec, View(), x);
      if Overlaps(negativeMapped, x) {
        negativeMapped := Painted(negativeMapped, x);
        negative := ListOf(negativeMapped);
      } else {
        negativeMapped := Painted(negativeMapped, x);
        negative := negative + [x];
      }
    }

    // Adds what explains the fault that the end state is, or reports that it cannot be added.
    method AddNegativeMemoryMappingsFor(x: EndState) returns (ok: bool)
      requires Valid() && x.endpoint.Valid()
      modifies this
      ensures Valid() && ok == AddNegativeFor(old(View()), x).Some?
      ensures View() == if ok then AddNegativeFor(old(View()), x).value else old(View())
      ensures ok && x.endpoint.IsAccessFault() ==> View().SigAddressOk(x.endpoint.num, x.endpoint.sigAddress)
      ensures View() == old(View()).(negativeMapped := negativeMapped, negative := negative)
      ensures ok <==> (x.endpoint.IsAccessFault() ==> forall a: nat ::
                         OnFaultPage(x.endpoint, a) && a in mapped ==> !Grants(mapped[a], x.endpoint.cause))
      ensures ok && x.endpoint.IsAccessFault() ==>
                forall a: nat :: FaultAddedAt(old(negativeMapped), negativeMapped, x.endpoint, a)
      ensures !ok || !x.endpoint.IsAccessFault() ==> negativeMapped == old(negativeMapped)
    {
      if x.endpoint.IsAccessFault() {
        FaultAddable(codec, View(), x);
        var m := FaultPage(x.endpoint.sigAddress, NegativePerms(x.endpoint.cause));
        if !m.Valid() || !View().CanAddNegative(m, true) {
          return false;
        }
        FaultAddressKnown(codec, View(), x);
        forall a: nat
          ensures FaultAddedAt(negativeMapped, AddNegativeFor(View(), x).value.negativeMapped, x.endpoint, a)
        {
          FaultAdded(codec, View(), x, a);
        }
        AddNegativeMemoryMappingOverlapOk(m);
      }
      return true;
    }

    method AddMemoryBytes(b: MemoryBytes)
      requires Valid() && b.Valid() && View().CanAddBytes(b)
      modifies this
      ensures Valid() && View() == old(View()).AddBytes(b)
    {
      AddBytesKeeps(codec, View(), b);
      written := written + Range(b.start, b.Limit());
      bytes := bytes + [b];
    }

    method SetRegisters(x: RegisterState)
      requires Valid() && View().CanSetRegisters(codec, x, false)
      modifies this
      ensures Valid() && View() == old(View()).(registers := Some(x))
    {
      SetRegistersKeeps(codec, View(), x);
      registers := Some(x);
    }

    method AddExpectedEndState(x: EndState, unmappedOk: bool)
      requires Valid() && x.Valid() && View().CanAddEndState(codec, x, unmappedOk, false)
      modifies this
      ensures Valid() && View() == old(View()).AddEndState(x)
      ensures Distinct(endStates) <==> Distinct(old(endStates))
    {
      AddEndStateKeeps(codec, View(), x, unmappedOk);
      endStates := endStates + [x];
    }

    // Replaces the whole snapshot.
    method Assign(s: State)
      requires Guarded(codec, s) && s.arch == arch
      modifies this
      ensures Valid() && View() == s
    {
      id, mapped, negativeMapped, written := s.id, s.mapped, s.negativeMapped, s.written;
      mappings, negative, bytes := s.mappings, s.negative, s.bytes;
      registers, endStates, metadata, traces := s.registers, s.endStates, s.metadata, s.traces;
      assert View() == s;
    }

    method SetMetadata(metadata: Metadata, traces: seq<TraceData>)
      requires Valid()
      modifies this
      ensures Valid() && View() == old(View()).(metadata := metadata, traces := traces)
    {
      ghost var was := View();
      this.metadata, this.traces := metadata, traces;
      assert Consistent(View());
      GuardedGrows(codec, was, View());
    }

    method NormalizeMemoryMappings()
      requires Valid()
      modifies this
      ensures Valid() && View() == NormalizeMappings(old(View()))
    {
      NormalizeMappingsKeeps(codec, View());
      mappings := ListOf(mapped);
      negative := ListOf(negativeMapped);
    }

    method NormalizeBytes()
      requires Valid()
      modifies this
      ensures Valid() && EndStatesWritable(old(mapped), old(endStates)) && BytesNormalized(old(View()), View())
      ensures Distinct(endStates) <==> NoSameData(old(endStates))
    {
      ghost var was := View();
      GuardedWritable(codec, was);
      var normal := NormalizeMemoryBytes(mapped, bytes);
      var normalEndStates := NormalizeEndStates(mapped, endStates);
      bytes, endStates := normal, normalEndStates;
      NormalizedGuarded(codec, was, View());
      NormalizedDistinct(was, View());
    }

    // Both kinds of lists are in their canonical form afterwards.  The end states stay distinct
    // exactly if no two of them have the same data in different pieces.
    method NormalizeAll()
      requires Valid()
      modifies this
      ensures Valid() && EndStatesWritable(old(mapped), old(endStates))
      ensures BytesNormalized(NormalizeMappings(old(View())), View())
      ensures Distinct(endStates) <==> NoSameData(old(endStates))
    {
      NormalizeMemoryMappings();
      NormalizeBytes();
    }

    // Whether all mapped memory has bytes.
    method MappedMemoryIsDefined() returns (defined: bool)
      requires Valid()
      ensures defined <==> mapped.Keys <= written
    {
      var left := mapped;
      for i := 0 to |bytes|
        invariant left.Keys == mapped.Keys - Addresses(bytes[..i])
      {
        assert bytes[..i + 1][..i] == bytes[..i];
        left := left - Range(bytes[i].start, bytes[i].Limit());
      }
      assert bytes[..|bytes|] == bytes;
      defined := left == map[];
      assert defined <==> left.Keys == {};
    }
  }

  // The ranges of a map, one by one.
  method ListOf(m: map<nat, Perms>) returns (list: seq<MemoryMapping>)
    ensures list == SortedMappings(m)
  {
    var runs := Runs(m);
    list := [];
    for i := 0 to |runs|
      invariant list == SortedMappings(m)[..i]
    {
      list := list + [MappingOfRun(runs[i])];
    }
  }
}
