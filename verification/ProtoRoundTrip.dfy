/** A snapshot survives the way through a protocol buffer exactly when its end states are distinct,
    no end state has the last platform, and the origin string is used (common/snapshot_proto.cc). */
module ProtoRoundTrip {
  import opened Basics
  import opened Bits
  import opened Memory
  import opened MappedMemory
  import opened Normalize
  import opened SnapshotState
  import opened SnapshotGuards
  import opened Platforms
  import opened Proto

  lemma MappingBack(x: MemoryMapping)
    requires x.Valid()
    ensures LoadMapping(StoreMapping(x)) == Some(x)
  {
  }

  lemma ByteValuesBack(b: MemoryBytes)
    requires b.Valid()
    ensures LoadByteValues(StoreByteValues(b)) == Some(b)
  {
  }

  lemma EndpointBack(e: Endpoint)
    requires e.Valid()
    ensures LoadEndpoint(StoreEndpoint(e)) == Some(e)
  {
  }

  // An element of a disjoint list is apart from the elements before it.
  lemma FreshBytes(list: seq<MemoryBytes>, k: nat, a: nat)
    requires Disjoint(list) && k < |list| && list[k].Has(a)
    ensures a !in Addresses(list[..k])
  {
    forall i: nat ensures !InBytes(list[..k], a, i) {
      if i < k {
        assert Separate(list[i], list[k]);
      }
    }
    ContentAt(list[..k], a);
  }

  lemma {:induction false} EndStateBytesBack(list: seq<MemoryBytes>, k: nat)
    requires AllValid(list) && Disjoint(list) && k <= |list|
    ensures LoadEndStateBytes(list[..k], StoreBytes(list)[k..]) == Some(list)
    decreases |list| - k
  {
    var ps := StoreBytes(list)[k..];
    if k == |list| {
      assert ps == [] && list[..k] == list;
    } else {
      assert ps[0] == StoreByteValues(list[k]) && ps[1..] == StoreBytes(list)[k + 1..];
      ByteValuesBack(list[k]);
      forall a: nat | list[k].start <= a < list[k].Limit() ensures a !in Addresses(list[..k]) {
        FreshBytes(list, k, a);
      }
      assert list[..k] + [list[k]] == list[..k + 1];
      EndStateBytesBack(list, k + 1);
    }
  }

  lemma NoFlags()
    ensures forall i :: 0 <= i < NUM_PLATFORMS ==> !FlagsOf(0)[i]
  {
    forall i: nat | i < NUM_PLATFORMS ensures !FlagsOf(0)[i] {
      BitOfZero(i);
    }
  }

  // An end state is read back unless it has the last platform.
  lemma EndStateBack(e: EndState)
    requires e.Valid()
    ensures LoadEndState(StoreEndState(e)) == if e.platforms[NUM_PLATFORMS - 1] then None else Some(e)
  {
    EndpointBack(e.endpoint);
    EndStateBytesBack(e.bytes, 0);
    assert StoreBytes(e.bytes)[0..] == StoreBytes(e.bytes) && e.bytes[..0] == [];
    if e.NoPlatforms() {
      NoFlags();
      assert FlagsOf(0) == e.platforms;
    } else {
      FlagsRoundTrip(e.platforms);
    }
  }

  lemma TraceBack(t: TraceData)
    requires Increasing(t.platforms, 0)
    ensures LoadTrace(StoreTrace(t)) == t
  {
    MaskRoundTrip(t.platforms);
    AddIncreasing(t.platforms);
  }

  // Replaying a list of mappings passes every guard.
  lemma FreshMapping(list: seq<MemoryMapping>, k: nat)
    requires AllClear(list) && k < |list|
    ensures !Overlaps(MapOf(list[..k]), list[k])
  {
    forall a: nat | list[k].Has(a) ensures a !in MapOf(list[..k]) {
      forall i: nat ensures !InMapping(list[..k], a, i) {
        if i < k {
          assert Clear(list[i], list[k]);
        }
      }
      MapOfOutside(list[..k], a);
    }
  }

  lemma StoredTail(list: seq<MemoryMapping>, k: nat)
    requires k < |list|
    ensures var ps := StoreMappings(list)[k..];
            ps[0] == StoreMapping(list[k]) && ps[1..] == StoreMappings(list)[k + 1..]
    ensures list[..k] + [list[k]] == list[..k + 1] && MapOf(list[..k + 1]) == Painted(MapOf(list[..k]), list[k])
  {
    assert list[..k + 1][..k] == list[..k];
  }

  lemma {:induction false} MappingsBack(s: State, list: seq<MemoryMapping>, k: nat)
    requires k <= |list| && AllClear(list) && forall i :: 0 <= i < |list| ==> MappingOk(list[i])
    requires s.mappings == list[..k] && s.mapped == MapOf(list[..k]) && s.negativeMapped == map[]
    ensures LoadMappings(s, StoreMappings(list)[k..]) == Some(s.(mappings := list, mapped := MapOf(list)))
    decreases |list| - k
  {
    if k == |list| {
      assert StoreMappings(list)[k..] == [] && list[..k] == list;
    } else {
      StoredTail(list, k);
      assert MappingOk(list[k]);
      MappingBack(list[k]);
      FreshMapping(list, k);
      MappingsBack(s.AddMapping(list[k]), list, k + 1);
    }
  }

  lemma {:induction false} NegativesBack(s: State, list: seq<MemoryMapping>, k: nat)
    requires k <= |list| && AllClear(list) && forall i :: 0 <= i < |list| ==> NegativeOk(list[i])
    requires s.negative == list[..k] && s.negativeMapped == MapOf(list[..k]) && NoConflict(s.mapped, MapOf(list))
    ensures LoadNegatives(s, StoreMappings(list)[k..]) == Some(s.(negative := list, negativeMapped := MapOf(list)))
    decreases |list| - k
  {
    if k == |list| {
      assert StoreMappings(list)[k..] == [] && list[..k] == list;
    } else {
      StoredTail(list, k);
      MappingBack(list[k]);
      NegativeFits(s, list, k);
      NegativesBack(s.AddNegative(list[k]), list, k + 1);
    }
  }

  lemma NegativeFits(s: State, list: seq<MemoryMapping>, k: nat)
    requires k < |list| && AllClear(list) && NegativeOk(list[k])
    requires s.negativeMapped == MapOf(list[..k]) && NoConflict(s.mapped, MapOf(list))
    ensures s.CanAddNegative(list[k], false)
  {
    FreshMapping(list, k);
    NoConflictAt(s.mapped, list, k);
  }

  lemma NoConflictAt(mapped: map<nat, Perms>, list: seq<MemoryMapping>, k: nat)
    requires AllClear(list) && k < |list| && NoConflict(mapped, MapOf(list))
    ensures !Conflicts(mapped, list[k])
  {
    forall a: nat | list[k].Has(a) && a in mapped ensures !list[k].perms.HasSomeOf(mapped[a]) {
      assert InMapping(list, a, k);
      MapOfInside(list, a, k);
    }
  }

  lemma {:induction false} BytesBack(s: State, list: seq<MemoryBytes>, k: nat)
    requires k <= |list| && AllValid(list) && Disjoint(list) && Addresses(list) <= s.mapped.Keys
    requires s.bytes == list[..k] && s.written == Addresses(list[..k])
    ensures LoadBytes(s, StoreBytes(list)[k..]) == Some(s.(bytes := list, written := Addresses(list)))
    decreases |list| - k
  {
    var ps := StoreBytes(list)[k..];
    if k == |list| {
      assert ps == [] && list[..k] == list;
    } else {
      assert ps[0] == StoreByteValues(list[k]) && ps[1..] == StoreBytes(list)[k + 1..];
      ByteValuesBack(list[k]);
      forall a: nat | list[k].Has(a) ensures a !in Addresses(list[..k]) && a in s.mapped {
        FreshBytes(list, k, a);
        AddressOf(list, a, k);
      }
      assert list[..k + 1][..k] == list[..k] && list[..k] + [list[k]] == list[..k + 1];
      BytesBack(s.AddBytes(list[k]), list, k + 1);
    }
  }

  // End state `i` can be read back after those before it.
  ghost predicate StorableAt(list: seq<EndState>, i: nat)
    requires EndStatesOk(list) && i < |list|
  {
    !list[i].platforms[NUM_PLATFORMS - 1] && forall j :: 0 <= j < i ==> !list[i].DataEquals(list[j])
  }

  ghost predicate AllStorable(list: seq<EndState>, k: nat)
    requires EndStatesOk(list)
  {
    forall i :: k <= i < |list| ==> StorableAt(list, i)
  }

  lemma {:induction false} EndStatesBack(codec: Codec, s: State, list: seq<EndState>, k: nat)
    requires k <= |list| && EndStatesOk(list) && s.endStates == list[..k]
    requires forall i :: 0 <= i < |list| ==> s.CanAddEndState(codec, list[i], false, true)
    ensures LoadEndStates(codec, s, StoreEndStates(list)[k..]) ==
            if AllStorable(list, k) then Some(s.(endStates := list)) else None
    decreases |list| - k
  {
    var ps := StoreEndStates(list)[k..];
    if k == |list| {
      assert ps == [] && list[..k] == list;
    } else {
      assert ps[0] == StoreEndState(list[k]) && ps[1..] == StoreEndStates(list)[k + 1..];
      EndStateBack(list[k]);
      assert s.CanAddEndState(codec, list[k], false, true);
      NotDuplicate(codec, s, list, k);
      assert AllStorable(list, k) <==> StorableAt(list, k) && AllStorable(list, k + 1);
      if StorableAt(list, k) {
        assert list[..k] + [list[k]] == list[..k + 1];
        forall i | 0 <= i < |list| ensures s.AddEndState(list[k]).CanAddEndState(codec, list[i], false, true) {
          assert s.CanAddEndState(codec, list[i], false, true);
          EndStateGrows(codec, s, s.AddEndState(list[k]), list[i], false);
        }
        EndStatesBack(codec, s.AddEndState(list[k]), list, k + 1);
      }
    }
  }

  lemma NotDuplicate(codec: Codec, s: State, list: seq<EndState>, k: nat)
    requires k < |list| && s.endStates == list[..k] && s.CanAddEndState(codec, list[k], false, true)
    ensures s.CanAddEndState(codec, list[k], false, false) <==> forall j :: 0 <= j < k ==> !list[k].DataEquals(list[j])
  {
    assert forall j :: 0 <= j < k ==> s.endStates[j] == list[j];
  }

  ghost predicate TracesOk(list: seq<TraceData>) {
    forall i :: 0 <= i < |list| ==> Increasing(list[i].platforms, 0)
  }

  lemma TracesBack(list: seq<TraceData>)
    requires TracesOk(list)
    ensures LoadTraces(StoreTraces(list)) == list
  {
    forall i | 0 <= i < |list| ensures LoadTraces(StoreTraces(list))[i] == list[i] {
      TraceBack(list[i]);
    }
  }

  // Only a string origin has a string.
  predicate OriginKept(m: Metadata) {
    m.origin.UseString? || m.originString == ""
  }

  // The snapshot without its end states and what is not guarded.
  ghost function Core(s: State): State {
    s.(endStates := [], metadata := Metadata(UndefinedOrigin, ""), traces := [])
  }

  lemma MemoryBack(codec: Codec, s: State)
    requires Guarded(codec, s) && s.registers.Some?
    ensures LoadMemory(codec, Empty(s.arch, s.id), Store(s)) == Some(Core(s))
  {
    var p, s0 := Store(s), Empty(s.arch, s.id);
    MappingsBack(s0, s.mappings, 0);
    assert p.mappings[0..] == p.mappings;
    var s1 := s0.(mappings := s.mappings, mapped := s.mapped);
    assert LoadMappings(s0, p.mappings) == Some(s1);
    NegativesBack(s1, s.negative, 0);
    assert p.negative[0..] == p.negative;
    var s2 := s1.(negative := s.negative, negativeMapped := s.negativeMapped);
    assert LoadNegatives(s1, p.negative) == Some(s2);
    BytesBack(s2, s.bytes, 0);
    assert p.bytes[0..] == p.bytes;
    var s3 := s2.(bytes := s.bytes, written := s.written);
    assert LoadBytes(s2, p.bytes) == Some(s3);
    RegistersGrow(codec, s, s3, s.registers.value, false);
    assert s3.(registers := s.registers) == Core(s);
  }

  // What reading back a complete snapshot gives.
  lemma StoredLoads(codec: Codec, s: State)
    requires Guarded(codec, s) && IsValidId(s.id) && TracesOk(s.traces)
    requires s.IsComplete(codec, Normal) || s.IsComplete(codec, UndefinedEndState)
    ensures Load(codec, Store(s)) ==
            if AllStorable(s.endStates, 0) then Some(s.(metadata := StoreMetadata(s.metadata))) else None
  {
    var p, core := Store(s), Core(s);
    MemoryBack(codec, s);
    CoreAddable(codec, s);
    EndStatesBack(codec, core, s.endStates, 0);
    assert p.endStates[0..] == p.endStates;
    TracesBack(s.traces);
    var t := s.(metadata := p.metadata);
    assert core.(endStates := s.endStates).(metadata := p.metadata, traces := LoadTraces(p.traces)) == t;
    CompleteSame(codec, s, t);
  }

  lemma CoreAddable(codec: Codec, s: State)
    requires s.IsComplete(codec, Normal) || s.IsComplete(codec, UndefinedEndState)
    ensures forall i :: 0 <= i < |s.endStates| ==> Core(s).CanAddEndState(codec, s.endStates[i], false, true)
  {
    forall i | 0 <= i < |s.endStates| ensures Core(s).CanAddEndState(codec, s.endStates[i], false, true) {
      EndStateGrows(codec, s, Core(s), s.endStates[i], false);
    }
  }

  // Reading what was written succeeds, and gives the same snapshot, exactly when the end states
  // are distinct without the last platform, and the origin string is kept.
  lemma RoundTrip(codec: Codec, s: State)
    requires Guarded(codec, s) && IsValidId(s.id) && TracesOk(s.traces)
    requires s.IsComplete(codec, Normal) || s.IsComplete(codec, UndefinedEndState)
    ensures Load(codec, Store(s)).Some? <==> AllStorable(s.endStates, 0)
    ensures Load(codec, Store(s)) == Some(s) <==> AllStorable(s.endStates, 0) && OriginKept(s.metadata)
  {
    StoredLoads(codec, s);
    assert s.(metadata := StoreMetadata(s.metadata)) == s <==> OriginKept(s.metadata);
  }

  lemma CompleteSame(codec: Codec, s: State, t: State)
    requires t == s.(metadata := t.metadata)
    requires s.IsComplete(codec, Normal) || s.IsComplete(codec, UndefinedEndState)
    ensures IsCompleteSomeState(codec, t)
  {
    forall i | 0 <= i < |s.endStates| && s.CanAddEndState(codec, s.endStates[i], false, true)
      ensures t.CanAddEndState(codec, s.endStates[i], false, true)
    {
      EndStateGrows(codec, s, t, s.endStates[i], false);
    }
  }

  // A snapshot built by guarded operations has distinct end states.
  lemma DistinctStorable(list: seq<EndState>)
    requires EndStatesOk(list) && Distinct(list)
    ensures AllStorable(list, 0) <==> forall i :: 0 <= i < |list| ==> !list[i].platforms[NUM_PLATFORMS - 1]
  {
    forall i | 0 <= i < |list| ensures StorableAt(list, i) <==> !list[i].platforms[NUM_PLATFORMS - 1] {
    }
  }

  // Every snapshot that guarded operations build, once it is complete, survives the way through
  // a protocol buffer if and only if it avoids the last platform and an unused origin string.
  lemma GuardedRunRoundTrip(codec: Codec, arch: Architecture, id: string, ops: seq<Op>, metadata: Metadata,
                            traces: seq<TraceData>)
    requires IsValidId(id) && TracesOk(traces) && forall i :: 0 <= i < |ops| ==> Constructible(ops[i])
    requires var s := After(codec, Empty(arch, id), ops).(metadata := metadata, traces := traces);
             s.IsComplete(codec, Normal) || s.IsComplete(codec, UndefinedEndState)
    ensures var s := After(codec, Empty(arch, id), ops).(metadata := metadata, traces := traces);
            Load(codec, Store(s)) == Some(s) <==>
              && OriginKept(metadata)
              && forall i :: 0 <= i < |s.endStates| ==>
                   s.endStates[i].Valid() && !s.endStates[i].platforms[NUM_PLATFORMS - 1]
  {
    var t := After(codec, Empty(arch, id), ops);
    var s := t.(metadata := metadata, traces := traces);
    EmptyGuarded(codec, arch, id);
    RunKeeps(codec, Empty(arch, id), ops);
    assert Consistent(s);
    GuardedGrows(codec, t, s);
    RoundTrip(codec, s);
    DistinctStorable(s.endStates);
  }
}
