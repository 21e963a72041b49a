/** A normalized snapshot survives the way through a protocol buffer exactly when no two of its end
    states had the same data before (normalize_all of common/snapshot.cc). */
module NormalizedRoundTrip {
  import opened Basics
  import opened Memory
  import opened MappedMemory
  import opened Normalize
  import opened SnapshotState
  import opened SnapshotGuards
  import opened Snapshots
  import opened Proto
  import opened ProtoRoundTrip

  lemma MappingsMap(list: seq<MemoryMapping>)
    requires AllClear(list) && forall i :: 0 <= i < |list| ==> list[i].Valid()
    ensures list == [] <==> MapOf(list) == map[]
  {
    if list != [] {
      assert list[0].Valid() && InMapping(list, list[0].start, 0);
      MapOfInside(list, list[0].start, 0);
    }
  }

  lemma BytesContent(list: seq<MemoryBytes>)
    requires Disjoint(list) && AllValid(list)
    ensures list == [] <==> Content(list) == map[]
  {
    if list != [] {
      assert list[0].Valid() && InBytes(list, list[0].start, 0);
      ContentAt(list, list[0].start);
    }
  }

  // Normalization keeps a snapshot complete.
  lemma NormalizedComplete(codec: Codec, s: State, t: State, completion: Completion)
    requires Guarded(codec, s) && s.IsComplete(codec, completion) && completion != Making
    requires EndStatesWritable(s.mapped, s.endStates) && BytesNormalized(NormalizeMappings(s), t)
    ensures t.IsComplete(codec, completion)
  {
    var n := NormalizeMappings(s);
    NormalizeMappingsKeeps(codec, s);
    NormalizedLists(codec, s, n, t);
    forall i | 0 <= i < |t.endStates|
      ensures t.endStates[i].IsComplete(completion) && t.CanAddEndState(codec, t.endStates[i], false, true)
      ensures t.endStates[i].endpoint == s.endStates[i].endpoint
    {
      assert s.endStates[i].IsComplete(completion) && s.CanAddEndState(codec, s.endStates[i], false, true);
      assert EndStateNormalized(s.endStates[i], t.endStates[i], s.mapped);
      EndStateGrows(codec, s, n, s.endStates[i], false);
      NormalizedEndState(codec, n, t, s.endStates[i], t.endStates[i], false);
    }
  }

  lemma NormalizedLists(codec: Codec, s: State, n: State, t: State)
    requires Guarded(codec, s) && n == NormalizeMappings(s) && Guarded(codec, n)
    requires EndStatesWritable(s.mapped, s.endStates) && BytesNormalized(n, t)
    ensures (s.mappings == [] <==> t.mappings == []) && (s.negative == [] <==> t.negative == [])
    ensures s.bytes == [] <==> t.bytes == []
  {
    MappingsMap(s.mappings);
    MappingsMap(n.mappings);
    MappingsMap(s.negative);
    MappingsMap(n.negative);
    BytesContent(s.bytes);
    ContentInSpace(s.bytes);
    CanonicalFacts(t.bytes, Content(s.bytes), PermsOf(Content(s.bytes), s.mapped));
    BytesContent(t.bytes);
  }

  ghost predicate AvoidsLastPlatform(list: seq<EndState>)
    requires EndStatesOk(list)
  {
    forall i :: 0 <= i < |list| ==> !list[i].platforms[NUM_PLATFORMS - 1]
  }

  lemma StorableDistinct(list: seq<EndState>)
    requires EndStatesOk(list)
    ensures AllStorable(list, 0) <==> Distinct(list) && AvoidsLastPlatform(list)
  {
    if AllStorable(list, 0) {
      forall i: nat, j: nat | i < j < |list| ensures !list[j].DataEquals(list[i]) {
        assert StorableAt(list, j);
      }
      forall i | 0 <= i < |list| ensures !list[i].platforms[NUM_PLATFORMS - 1] {
        assert StorableAt(list, i);
      }
    } else {
      var i :| 0 <= i < |list| && !StorableAt(list, i);
    }
  }

  // The exact condition, on the snapshot before the call, for a complete snapshot to be read back
  // after it was normalized and written.
  lemma NormalizedRoundTrip(codec: Codec, s: State, t: State)
    requires Guarded(codec, s) && IsValidId(s.id) && TracesOk(s.traces)
    requires s.IsComplete(codec, Normal) || s.IsComplete(codec, UndefinedEndState)
    requires EndStatesWritable(s.mapped, s.endStates) && BytesNormalized(NormalizeMappings(s), t)
    ensures Load(codec, Store(t)).Some? <==> NoSameData(s.endStates) && AvoidsLastPlatform(s.endStates)
    ensures Load(codec, Store(t)) == Some(t) <==>
              NoSameData(s.endStates) && AvoidsLastPlatform(s.endStates) && OriginKept(s.metadata)
  {
    var n := NormalizeMappings(s);
    NormalizeMappingsKeeps(codec, s);
    NormalizedGuarded(codec, n, t);
    NormalizedComplete(codec, s, t, if s.IsComplete(codec, Normal) then Normal else UndefinedEndState);
    RoundTrip(codec, t);
    StorableDistinct(t.endStates);
    NormalizedDistinct(n, t);
    SamePlatforms(n, t);
  }

  lemma SamePlatforms(n: State, t: State)
    requires Addresses(n.bytes) <= n.mapped.Keys && EndStatesWritable(n.mapped, n.endStates) && BytesNormalized(n, t)
    requires EndStatesOk(n.endStates) && EndStatesOk(t.endStates)
    ensures AvoidsLastPlatform(t.endStates) <==> AvoidsLastPlatform(n.endStates)
  {
    forall i | 0 <= i < |t.endStates| ensures t.endStates[i].platforms == n.endStates[i].platforms {
      assert EndStateNormalized(n.endStates[i], t.endStates[i], n.mapped);
    }
  }

  // Bytes in one piece and in two have the same content.
  lemma SplitContent(b: MemoryBytes, at: nat)
    requires b.start < at < b.Limit()
    ensures Content([b]) == Content([b.Range(b.start, at), b.Range(at, b.Limit())])
  {
    var one, two := [b], [b.Range(b.start, at), b.Range(at, b.Limit())];
    forall a: nat
      ensures a in Content(one) <==> a in Content(two)
      ensures a in Content(one) ==> Content(one)[a] == Content(two)[a]
    {
      ContentAt(one, a);
      ContentAt(two, a);
      if b.Has(a) {
        assert InBytes(one, a, 0) && InBytes(two, a, if a < at then 0 else 1);
      }
    }
  }

  // A snapshot of one page whose two end states list the same bytes in one piece and in two.
  const FIXED_CODEC := Codec((arch, r) => Some(Pointers(0x1000, 0x1100)), (arch, sum) => true)
  const PAGE := MemoryMapping(0x1000, 0x1000, Perms(true, true, true, false))
  const BYTES := MemoryBytes(0x1000, [1, 2])
  const REGISTERS := RegisterState([0], [0])

  function OnFirstPlatform(bytes: seq<MemoryBytes>): EndState {
    EndState(AtInstruction(0x1000), REGISTERS, bytes, seq(NUM_PLATFORMS, i => i == 0), [])
  }

  const WHOLE := OnFirstPlatform([BYTES])
  const HALVES := OnFirstPlatform([MemoryBytes(0x1000, [1]), MemoryBytes(0x1001, [2])])

  // The snapshot before its end states.
  function Page(): State {
    Empty(X86_64, "page").AddMapping(PAGE).AddBytes(BYTES).(registers := Some(REGISTERS))
  }

  // All addresses of the page are readable, writable and executable.
  ghost predicate HasPage(m: map<nat, Perms>) {
    forall a: nat :: PAGE.Has(a) ==> a in m && m[a] == PAGE.perms
  }

  lemma PageMapped()
    ensures var s := Empty(X86_64, "page").AddMapping(PAGE);
            Guarded(FIXED_CODEC, s) && HasPage(s.mapped) && s.written == {}
  {
    var s0 := Empty(X86_64, "page");
    EmptyGuarded(FIXED_CODEC, X86_64, "page");
    assert s0.CanAddMapping(PAGE);
    AddMappingKeeps(FIXED_CODEC, s0, PAGE);
  }

  lemma RegistersFit(s: State)
    requires HasPage(s.mapped) && s.arch == X86_64
    ensures s.CanSetRegisters(FIXED_CODEC, REGISTERS, false)
  {
    assert PAGE.Has(0x1000);
    assert forall a: nat :: 0x10F0 <= a < 0x1100 ==> PAGE.Has(a);
  }

  lemma BytesFit(s: State, b: MemoryBytes)
    requires HasPage(s.mapped) && s.written == {} && PAGE.start <= b.start && b.Limit() <= PAGE.Limit()
    ensures s.CanAddBytes(b)
  {
    assert forall a: nat :: b.start <= a < b.Limit() ==> PAGE.Has(a);
  }

  lemma PageGuarded()
    ensures Guarded(FIXED_CODEC, Page()) && HasPage(Page().mapped) && Page().arch == X86_64
  {
    var s := Empty(X86_64, "page").AddMapping(PAGE);
    PageMapped();
    BytesFit(s, BYTES);
    AddBytesKeeps(FIXED_CODEC, s, BYTES);
    RegistersFit(s.AddBytes(BYTES));
    SetRegistersKeeps(FIXED_CODEC, s.AddBytes(BYTES), REGISTERS);
  }

  // An end state on the page passes the guards, but for duplicates.
  lemma EndStateFits(s: State, bytes: seq<MemoryBytes>)
    requires HasPage(s.mapped)
    requires forall i :: 0 <= i < |bytes| ==> OnPage(bytes[i])
    ensures s.CanAddEndState(FIXED_CODEC, OnFirstPlatform(bytes), false, true)
  {
    assert PAGE.Has(0x1000);
    forall i | 0 <= i < |bytes| ensures AllWritable(s.mapped, bytes[i].start, bytes[i].Limit()) {
      assert OnPage(bytes[i]);
      assert forall a: nat :: bytes[i].start <= a < bytes[i].Limit() ==> PAGE.Has(a);
    }
  }

  ghost predicate OnPage(b: MemoryBytes) {
    b.data != [] && PAGE.start <= b.start && b.Limit() <= PAGE.Limit()
  }

  // Both end states pass the guards, one after the other.
  lemma BothAddable()
    ensures WHOLE.Valid() && Page().CanAddEndState(FIXED_CODEC, WHOLE, false, false)
    ensures HALVES.Valid() && Page().AddEndState(WHOLE).CanAddEndState(FIXED_CODEC, HALVES, false, false)
  {
    PageGuarded();
    EndStateFits(Page(), WHOLE.bytes);
    EndStateFits(Page().AddEndState(WHOLE), HALVES.bytes);
    assert !HALVES.DataEquals(WHOLE);
  }

  function PageWithBoth(): State {
    Page().AddEndState(WHOLE).AddEndState(HALVES)
  }

  lemma BothGuarded()
    ensures Guarded(FIXED_CODEC, PageWithBoth()) && Distinct(PageWithBoth().endStates)
  {
    PageGuarded();
    BothAddable();
    AddEndStateKeeps(FIXED_CODEC, Page(), WHOLE, false);
    AddEndStateKeeps(FIXED_CODEC, Page().AddEndState(WHOLE), HALVES, false);
  }

  lemma BothComplete()
    ensures PageWithBoth().IsComplete(FIXED_CODEC, Normal)
  {
    var s := PageWithBoth();
    BothAddable();
    EndStateGrows(FIXED_CODEC, Page(), s, WHOLE, false);
    EndStateGrows(FIXED_CODEC, Page().AddEndState(WHOLE), s, HALVES, false);
    assert WHOLE.platforms[0] && HALVES.platforms[0];
    assert s.endStates == [WHOLE, HALVES];
  }

  lemma BothStorable()
    ensures EndStatesOk(PageWithBoth().endStates) && AvoidsLastPlatform(PageWithBoth().endStates)
    ensures IsValidId(PageWithBoth().id) && TracesOk(PageWithBoth().traces) && OriginKept(PageWithBoth().metadata)
  {
    BothAddable();
    assert !WHOLE.platforms[NUM_PLATFORMS - 1] && !HALVES.platforms[NUM_PLATFORMS - 1];
  }

  lemma BothContent()
    ensures Content(WHOLE.bytes) == Content(HALVES.bytes)
  {
    SplitContent(BYTES, 0x1001);
    assert BYTES.Range(0x1000, 0x1001) == HALVES.bytes[0] && BYTES.Range(0x1001, 0x1002) == HALVES.bytes[1];
    assert HALVES.bytes == [BYTES.Range(0x1000, 0x1001), BYTES.Range(0x1001, 0x1002)];
  }

  lemma BothSameData()
    ensures !NoSameData(PageWithBoth().endStates)
  {
    BothContent();
    assert PageWithBoth().endStates == [WHOLE, HALVES];
    assert SameData(PageWithBoth().endStates[1], PageWithBoth().endStates[0]);
  }

  // The snapshot can be read back.
  lemma BothReadBack()
    ensures Load(FIXED_CODEC, Store(PageWithBoth())) == Some(PageWithBoth())
  {
    BothGuarded();
    BothComplete();
    BothStorable();
    StorableDistinct(PageWithBoth().endStates);
    RoundTrip(FIXED_CODEC, PageWithBoth());
  }

  // Normalizing makes the end states of this guarded snapshot equal, and it can no longer be read back.
  lemma NormalizingLosesSnapshot(t: State)
    requires EndStatesWritable(PageWithBoth().mapped, PageWithBoth().endStates)
    requires Addresses(PageWithBoth().bytes) <= PageWithBoth().mapped.Keys
    requires BytesNormalized(NormalizeMappings(PageWithBoth()), t)
    ensures Guarded(FIXED_CODEC, PageWithBoth())
    ensures Load(FIXED_CODEC, Store(PageWithBoth())) == Some(PageWithBoth())
    ensures t.registers.Some? && Load(FIXED_CODEC, Store(t)) == None
  {
    BothGuarded();
    BothComplete();
    BothStorable();
    BothSameData();
    BothReadBack();
    NormalizedRoundTrip(FIXED_CODEC, PageWithBoth(), t);
  }

  // The same for the object: it reads back before the call, and not after it.
  method NormalizeBoth(snap: Snapshot)
    requires snap.Valid() && snap.codec == FIXED_CODEC && snap.View() == PageWithBoth()
    modifies snap
    ensures Load(FIXED_CODEC, Store(PageWithBoth())) == Some(PageWithBoth())
    ensures snap.Valid() && snap.registers.Some? && Load(FIXED_CODEC, Store(snap.View())) == None
  {
    BothGuarded();
    snap.NormalizeAll();
    NormalizingLosesSnapshot(snap.View());
  }
}
