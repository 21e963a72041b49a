/** What every run of guarded snapshot operations keeps, and the negative mappings of segmentation
    faults (common/snapshot.cc). */
module SnapshotGuards {
  import opened Basics
  import opened Memory
  import opened MappedMemory
  import opened Normalize
  import opened SnapshotState

  ghost predicate InMapping(list: seq<MemoryMapping>, a: nat, i: nat) {
    i < |list| && list[i].Has(a)
  }

  ghost predicate AmongMappings(list: seq<MemoryMapping>, a: nat) {
    exists i: nat :: InMapping(list, a, i)
  }

  lemma {:induction false} MapOfInside(list: seq<MemoryMapping>, a: nat, i: nat)
    requires AllClear(list) && InMapping(list, a, i)
    ensures a in MapOf(list) && MapOf(list)[a] == list[i].perms
  {
    var n := |list| - 1;
    if i < n {
      assert Clear(list[i], list[n]);
      assert InMapping(list[..n], a, i);
      MapOfInside(list[..n], a, i);
    } else {
      forall j: nat ensures !InMapping(list[..n], a, j) {
        if j < n {
          assert Clear(list[j], list[n]);
        }
      }
      MapOfOutside(list[..n], a);
    }
  }

  lemma {:induction false} MapOfOutside(list: seq<MemoryMapping>, a: nat)
    requires !AmongMappings(list, a)
    ensures a !in MapOf(list)
  {
    if list != [] {
      var n := |list| - 1;
      assert !InMapping(list, a, n);
      assert forall i: nat :: InMapping(list[..n], a, i) ==> InMapping(list, a, i);
      MapOfOutside(list[..n], a);
    }
  }

  // What holds at an address holds at all addresses of its page, below MAX_ADDRESS.
  ghost predicate SameAt(m: map<nat, Perms>, a: nat, b: nat) {
    (a in m <==> b in m) && (a in m && b in m ==> m[a] == m[b])
  }

  ghost predicate PageUniform(m: map<nat, Perms>) {
    forall a: nat, b: nat {:trigger SameAt(m, a, b)} ::
      a < MAX_ADDRESS && b < MAX_ADDRESS && a / PAGE_SIZE == b / PAGE_SIZE ==> SameAt(m, a, b)
  }

  lemma WholePages(x: MemoryMapping, a: nat, b: nat)
    requires NegativeOk(x) && a < MAX_ADDRESS && b < MAX_ADDRESS && a / PAGE_SIZE == b / PAGE_SIZE
    ensures x.Has(a) <==> x.Has(b)
  {
  }

  lemma PaintedUniform(m: map<nat, Perms>, x: MemoryMapping)
    requires PageUniform(m) && NegativeOk(x)
    ensures PageUniform(Painted(m, x))
  {
    forall a: nat, b: nat | a < MAX_ADDRESS && b < MAX_ADDRESS && a / PAGE_SIZE == b / PAGE_SIZE
      ensures SameAt(Painted(m, x), a, b)
    {
      assert SameAt(m, a, b);
      WholePages(x, a, b);
    }
  }

  lemma {:induction false} MapOfUniform(list: seq<MemoryMapping>)
    requires forall i :: 0 <= i < |list| ==> NegativeOk(list[i])
    ensures PageUniform(MapOf(list))
  {
    if list != [] {
      MapOfUniform(list[..|list| - 1]);
      PaintedUniform(MapOf(list[..|list| - 1]), list[|list| - 1]);
    }
  }

  // Permissions that a mapping may have.
  predicate Grantable(p: Perms) {
    !p.IsEmpty() && !p.mapped
  }

  ghost predicate AllGrantable(m: map<nat, Perms>) {
    forall a: nat :: a in m ==> Grantable(m[a]) && a < MAX_ADDRESS
  }

  lemma {:induction false} MapOfGrantable(list: seq<MemoryMapping>)
    requires forall i :: 0 <= i < |list| ==> NegativeOk(list[i])
    ensures AllGrantable(MapOf(list))
  {
    if list != [] {
      MapOfGrantable(list[..|list| - 1]);
    }
  }

  function MappingOfRun(r: Run<Perms>): MemoryMapping {
    MemoryMapping(r.start, if r.start <= r.limit then r.limit - r.start else 0, r.value)
  }

  // One mapping for each range of the map, in order.
  function SortedMappings(m: map<nat, Perms>): (list: seq<MemoryMapping>)
    ensures |list| == |Runs(m)|
    ensures forall i {:trigger list[i]} :: 0 <= i < |list| ==> list[i] == MappingOfRun(Runs(m)[i])
  {
    seq(|Runs(m)|, i requires 0 <= i < |Runs(m)| => MappingOfRun(Runs(m)[i]))
  }

  // A range of a page-uniform map starts and ends at page boundaries.
  lemma RunAligned(m: map<nat, Perms>, i: nat)
    requires PageUniform(m) && AllGrantable(m) && i < |Runs(m)|
    ensures NegativeOk(SortedMappings(m)[i])
  {
    var run := Runs(m)[i];
    RunsAreRuns(m, 0, MAX_ADDRESS);
    assert Within(run, m, 0, MAX_ADDRESS);
    assert run.start in m;
    if run.start > 0 {
      RunStartsFresh(Runs(m), m, MAX_ADDRESS, i);
      assert Aligned(run.start) || SameAt(m, run.start - 1, run.start);
    }
    if run.limit < MAX_ADDRESS {
      RunEndsFresh(Runs(m), m, MAX_ADDRESS, i);
      assert Aligned(run.limit) || SameAt(m, run.limit - 1, run.limit);
    }
  }

  // The sorted list stands for the same map.
  lemma SortedMappingsMap(m: map<nat, Perms>)
    requires AllGrantable(m)
    ensures AllClear(SortedMappings(m)) && MapOf(SortedMappings(m)) == m
  {
    var runs, list := Runs(m), SortedMappings(m);
    RunsAreRuns(m, 0, MAX_ADDRESS);
    forall i: nat, j: nat | i < j < |list| ensures Clear(list[i], list[j]) {
      RunsOrdered(runs, m, 0, MAX_ADDRESS, i, j);
      assert Within(runs[i], m, 0, MAX_ADDRESS);
    }
    forall a: nat ensures (a in MapOf(list) <==> a in m) && (a in m ==> MapOf(list)[a] == m[a]) {
      SortedMappingsAt(m, a);
    }
  }

  lemma SortedMappingsAt(m: map<nat, Perms>, a: nat)
    requires AllGrantable(m) && AllClear(SortedMappings(m))
    ensures a in MapOf(SortedMappings(m)) <==> a in m
    ensures a in m ==> MapOf(SortedMappings(m))[a] == m[a]
  {
    var runs, list := Runs(m), SortedMappings(m);
    RunsAreRuns(m, 0, MAX_ADDRESS);
    if a in m {
      assert Covered(runs, a);
      var i: nat :| InRun(runs, a, i);
      assert Within(runs[i], m, 0, MAX_ADDRESS);
      assert list[i].Has(a);
      assert InMapping(list, a, i);
      MapOfInside(list, a, i);
    } else {
      forall i: nat ensures !InMapping(list, a, i) {
        assert i < |list| ==> Within(runs[i], m, 0, MAX_ADDRESS);
      }
      MapOfOutside(list, a);
    }
  }

  // Everything mapped stays mapped with the same permissions, and negative mappings stay.
  ghost predicate Grows(s: State, t: State) {
    && t.arch == s.arch && t.id == s.id
    && (forall a: nat :: a in s.mapped ==> a in t.mapped && t.mapped[a] == s.mapped[a])
    && s.negativeMapped.Keys <= t.negativeMapped.Keys
  }

  lemma RegistersGrow(codec: Codec, s: State, t: State, x: RegisterState, isEndState: bool)
    requires Grows(s, t) && s.CanSetRegisters(codec, x, isEndState)
    ensures t.CanSetRegisters(codec, x, isEndState)
  {
  }

  lemma EndStateGrows(codec: Codec, s: State, t: State, x: EndState, unmappedOk: bool)
    requires Grows(s, t) && s.CanAddEndState(codec, x, unmappedOk, true)
    ensures t.CanAddEndState(codec, x, unmappedOk, true)
  {
    if !x.registers.IsUnset() {
      RegistersGrow(codec, s, t, x.registers, true);
    }
    assert t.EndpointOk(x.endpoint, unmappedOk);
    forall i | 0 <= i < |x.bytes| ensures AllWritable(t.mapped, x.bytes[i].start, x.bytes[i].Limit()) {
      assert AllWritable(s.mapped, x.bytes[i].start, x.bytes[i].Limit());
    }
  }

  // A consistent state that grew from a guarded one, with the same registers and end states, is guarded.
  lemma GuardedGrows(codec: Codec, s: State, t: State)
    requires Guarded(codec, s) && Grows(s, t) && Consistent(t)
    requires t.registers == s.registers && t.endStates == s.endStates
    ensures Guarded(codec, t)
  {
    if s.registers.Some? {
      RegistersGrow(codec, s, t, s.registers.value, false);
    }
    AddableGrows(codec, s, t, s.endStates);
  }

  lemma AddableGrows(codec: Codec, s: State, t: State, list: seq<EndState>)
    requires Grows(s, t) && AllAddable(codec, s, list)
    ensures AllAddable(codec, t, list)
  {
    forall i | 0 <= i < |list| ensures t.CanAddEndState(codec, list[i], true, true) {
      EndStateGrows(codec, s, t, list[i], true);
    }
  }

  lemma AppendMapping(list: seq<MemoryMapping>, x: MemoryMapping)
    requires AllClear(list) && x.size > 0 && !Overlaps(MapOf(list), x)
    requires forall i :: 0 <= i < |list| ==> list[i].size > 0
    ensures AllClear(list + [x]) && MapOf(list + [x]) == Painted(MapOf(list), x)
  {
    var now := list + [x];
    assert now[..|list|] == list;
    forall i: nat, j: nat | i < j < |now| ensures Clear(now[i], now[j]) {
      if j < |list| {
        assert Clear(list[i], list[j]);
      } else if !Clear(list[i], x) {
        var a := if list[i].start < x.start then x.start else list[i].start;
        assert InMapping(list, a, i);
        MapOfInside(list, a, i);
      }
    }
  }

  lemma AddMappingKeeps(codec: Codec, s: State, x: MemoryMapping)
    requires Guarded(codec, s) && x.Valid() && s.CanAddMapping(x)
    ensures Guarded(codec, s.AddMapping(x)) && Grows(s, s.AddMapping(x))
  {
    var t := s.AddMapping(x);
    AppendMapping(s.mappings, x);
    NewMappingNoConflict(s.mapped, s.negativeMapped, x);
    assert Consistent(t);
    GuardedGrows(codec, s, t);
  }

  lemma NewMappingNoConflict(mapped: map<nat, Perms>, negativeMapped: map<nat, Perms>, x: MemoryMapping)
    requires NoConflict(mapped, negativeMapped) && !Overlaps(mapped, x) && !Conflicts(negativeMapped, x)
    ensures NoConflict(Painted(mapped, x), negativeMapped)
  {
    var now := Painted(mapped, x);
    forall a: nat | a in now && a in negativeMapped ensures !now[a].HasSomeOf(negativeMapped[a]) {
      if x.Has(a) {
        assert !x.perms.HasSomeOf(negativeMapped[a]);
      }
    }
  }

  lemma PaintedNoConflict(mapped: map<nat, Perms>, negativeMapped: map<nat, Perms>, x: MemoryMapping)
    requires NoConflict(mapped, negativeMapped) && !Conflicts(mapped, x)
    ensures NoConflict(mapped, Painted(negativeMapped, x))
  {
    var now := Painted(negativeMapped, x);
    forall a: nat | a in mapped && a in now ensures !mapped[a].HasSomeOf(now[a]) {
      if x.Has(a) {
        assert !x.perms.HasSomeOf(mapped[a]);
        if a in negativeMapped {
          assert !mapped[a].HasSomeOf(negativeMapped[a]);
        }
      }
    }
  }

  lemma AddNegativeKeeps(codec: Codec, s: State, x: MemoryMapping)
    requires Guarded(codec, s) && x.Valid() && s.CanAddNegative(x, false)
    ensures Guarded(codec, s.AddNegative(x)) && Grows(s, s.AddNegative(x))
  {
    var t := s.AddNegative(x);
    AppendMapping(s.negative, x);
    PaintedNoConflict(s.mapped, s.negativeMapped, x);
    assert Consistent(t);
    GuardedGrows(codec, s, t);
  }

  // Adds a negative mapping that may overlap earlier ones: the list is then rebuilt from the map.
  function AddNegativeOverlapOk(s: State, x: MemoryMapping): State {
    if Overlaps(s.negativeMapped, x) then
      var now := Painted(s.negativeMapped, x);
      s.(negativeMapped := now, negative := SortedMappings(now))
    else
      s.AddNegative(x)
  }

  lemma AddNegativeOverlapKeeps(codec: Codec, s: State, x: MemoryMapping)
    requires Guarded(codec, s) && x.Valid() && s.CanAddNegative(x, true)
    ensures Guarded(codec, AddNegativeOverlapOk(s, x)) && Grows(s, AddNegativeOverlapOk(s, x))
    ensures AddNegativeOverlapOk(s, x).negativeMapped == Painted(s.negativeMapped, x)
  {
    if Overlaps(s.negativeMapped, x) {
      var t := AddNegativeOverlapOk(s, x);
      MapOfUniform(s.negative);
      MapOfGrantable(s.negative);
      PaintedUniform(s.negativeMapped, x);
      forall i | 0 <= i < |t.negative| ensures NegativeOk(t.negative[i]) {
        RunAligned(t.negativeMapped, i);
      }
      SortedMappingsMap(t.negativeMapped);
      PaintedNoConflict(s.mapped, s.negativeMapped, x);
      assert Consistent(t);
      GuardedGrows(codec, s, t);
    } else {
      AddNegativeKeeps(codec, s, x);
    }
  }

  lemma AppendBytes(list: seq<MemoryBytes>, b: MemoryBytes)
    requires AllValid(list) && Disjoint(list) && b.Valid()
    requires forall a: nat :: b.start <= a < b.Limit() ==> a !in Addresses(list)
    ensures Disjoint(list + [b]) && Addresses(list + [b]) == Addresses(list) + Range(b.start, b.Limit())
  {
    var now := list + [b];
    assert now[..|list|] == list;
    forall i: nat, j: nat | i < j < |now| ensures Separate(now[i], now[j]) {
      if j < |list| {
        assert Separate(list[i], list[j]);
      } else if !Separate(list[i], b) {
        var a := if list[i].start < b.start then b.start else list[i].start;
        AddressOf(list, a, i);
      }
    }
  }

  lemma AddressOf(list: seq<MemoryBytes>, a: nat, i: nat)
    requires Disjoint(list) && i < |list| && list[i].Has(a)
    ensures a in Addresses(list)
  {
    assert InBytes(list, a, i);
    ContentAt(list, a);
  }

  lemma AddBytesKeeps(codec: Codec, s: State, b: MemoryBytes)
    requires Guarded(codec, s) && b.Valid() && s.CanAddBytes(b)
    ensures Guarded(codec, s.AddBytes(b)) && Grows(s, s.AddBytes(b))
  {
    AppendBytes(s.bytes, b);
    assert Consistent(s.AddBytes(b));
    GuardedGrows(codec, s, s.AddBytes(b));
  }

  lemma AddEndStateKeeps(codec: Codec, s: State, x: EndState, unmappedOk: bool)
    requires Guarded(codec, s) && x.Valid() && s.CanAddEndState(codec, x, unmappedOk, false)
    ensures Guarded(codec, s.AddEndState(x)) && Grows(s, s.AddEndState(x))
    ensures Distinct(s.AddEndState(x).endStates) <==> Distinct(s.endStates)
  {
    var t := s.AddEndState(x);
    assert Consistent(t);
    AddableAppend(codec, s, s.endStates, x, unmappedOk);
    AddableGrows(codec, s, t, t.endStates);
    DistinctAppend(s.endStates, x);
    if s.registers.Some? {
      RegistersGrow(codec, s, t, s.registers.value, false);
    }
  }

  lemma DistinctAppend(list: seq<EndState>, x: EndState)
    requires forall i :: 0 <= i < |list| ==> !x.DataEquals(list[i])
    ensures Distinct(list + [x]) <==> Distinct(list)
  {
    var more := list + [x];
    assert forall i: nat :: i < |list| ==> more[i] == list[i];
  }

  lemma AddableAppend(codec: Codec, s: State, list: seq<EndState>, x: EndState, unmappedOk: bool)
    requires AllAddable(codec, s, list) && s.CanAddEndState(codec, x, unmappedOk, false)
    ensures AllAddable(codec, s, list + [x])
  {
    forall i | 0 <= i < |list + [x]| ensures s.CanAddEndState(codec, (list + [x])[i], true, true) {
      if i < |list| {
        assert s.CanAddEndState(codec, list[i], true, true);
      }
    }
  }

  lemma NormalizeMappingsKeeps(codec: Codec, s: State)
    requires Guarded(codec, s)
    ensures Guarded(codec, NormalizeMappings(s)) && Grows(s, NormalizeMappings(s))
  {
    var t := NormalizeMappings(s);
    MapOfUniform(s.negative);
    MapOfGrantable(s.negative);
    SortedMappingsMap(s.negativeMapped);
    forall i | 0 <= i < |t.negative| ensures NegativeOk(t.negative[i]) {
      RunAligned(s.negativeMapped, i);
    }
    assert forall i :: 0 <= i < |s.mappings| ==> NegativeOk(s.mappings[i]);
    MapOfUniform(s.mappings);
    MapOfGrantable(s.mappings);
    SortedMappingsMap(s.mapped);
    LastByteUnmapped(s.mappings);
    forall i | 0 <= i < |t.mappings| ensures MappingOk(t.mappings[i]) {
      RunAligned(s.mapped, i);
      EndsAligned(s.mapped, i);
    }
    assert Consistent(t);
    GuardedGrows(codec, s, t);
  }

  // Both lists are rebuilt from their maps.
  function NormalizeMappings(s: State): State {
    s.(mappings := SortedMappings(s.mapped), negative := SortedMappings(s.negativeMapped))
  }

  // A mapping never reaches MAX_ADDRESS, which is not aligned.
  lemma LastByteUnmapped(list: seq<MemoryMapping>)
    requires forall i :: 0 <= i < |list| ==> MappingOk(list[i])
    ensures MAX_ADDRESS - 1 !in MapOf(list)
  {
    var last: nat := MAX_ADDRESS - 1;
    forall i: nat ensures !InMapping(list, last, i) {
      if i < |list| {
        assert MappingOk(list[i]);
      }
    }
    MapOfOutside(list, last);
  }

  lemma EndsAligned(m: map<nat, Perms>, i: nat)
    requires MAX_ADDRESS - 1 !in m && i < |SortedMappings(m)|
    ensures SortedMappings(m)[i].Limit() != MAX_ADDRESS
  {
    RunsAreRuns(m, 0, MAX_ADDRESS);
    assert Within(Runs(m)[i], m, 0, MAX_ADDRESS);
  }

  // The permissions whose absence explains a fault.
  function NegativePerms(cause: SigCause): Perms
    requires cause.IsAccess()
  {
    match cause
    case CantExec => Perms(false, false, true, false)
    case CantWrite => Perms(false, true, false, false)
    // Execution and writing each imply reading.
    case CantRead => Perms(true, true, true, false)
  }

  // The page of a fault.  The last page leaves out MAX_ADDRESS.
  function FaultPage(a: Address, perms: Perms): MemoryMapping {
    var isLast := a >= MAX_ADDRESS - PAGE_SIZE + 1;
    MemoryMapping(a / PAGE_SIZE * PAGE_SIZE, if isLast then PAGE_SIZE - 1 else PAGE_SIZE, perms)
  }

  // None if the mapping cannot be added.
  function AddNegativeFor(s: State, x: EndState): Option<State> {
    if x.endpoint.IsAccessFault() then
      var m := FaultPage(x.endpoint.sigAddress, NegativePerms(x.endpoint.cause));
      if m.Valid() && s.CanAddNegative(m, true) then Some(AddNegativeOverlapOk(s, m)) else None
    else
      Some(s)
  }

  lemma FaultPageFacts(a: Address, perms: Perms)
    requires !perms.mapped
    ensures FaultPage(a, perms).Valid()
    ensures FaultPage(a, perms).Has(a) || (a == MAX_ADDRESS && FaultPage(a, perms).Has(MAX_ADDRESS - 1))
  {
  }

  // After a success, the signal address of the fault passes the check of the end state, whatever it is.
  lemma FaultAddressKnown(codec: Codec, s: State, x: EndState)
    requires Guarded(codec, s) && AddNegativeFor(s, x).Some? && x.endpoint.IsAccessFault()
    ensures AddNegativeFor(s, x).value.SigAddressOk(x.endpoint.num, x.endpoint.sigAddress)
  {
    var m := FaultPage(x.endpoint.sigAddress, NegativePerms(x.endpoint.cause));
    FaultPageFacts(x.endpoint.sigAddress, NegativePerms(x.endpoint.cause));
    AddNegativeOverlapKeeps(codec, s, m);
  }

  // The permissions include the access that failed.
  predicate Grants(p: Perms, cause: SigCause) {
    (cause.CantExec? && p.x) || (cause.CantWrite? && p.w) || (cause.CantRead? && (p.r || p.w || p.x))
  }

  // The address is on the page of a fault.
  predicate OnFaultPage(e: Endpoint, a: nat)
    requires e.AtSignal?
  {
    a < MAX_ADDRESS && a / 4096 == e.sigAddress / 4096
  }

  // The negative permissions of an address after those of a fault were added: on its page the access
  // that failed is negative, and one that was negative stays so.
  ghost predicate FaultAddedAt(was: map<nat, Perms>, now: map<nat, Perms>, e: Endpoint, a: nat)
    requires e.AtSignal?
  {
    if OnFaultPage(e, a) then
      && a in now
      && (now[a].r <==> (a in was && was[a].r) || e.cause.CantRead?)
      && (now[a].w <==> (a in was && was[a].w) || e.cause.CantWrite? || e.cause.CantRead?)
      && (now[a].x <==> (a in was && was[a].x) || e.cause.CantExec? || e.cause.CantRead?)
    else
      (a in now <==> a in was) && (a in was ==> now[a] == was[a])
  }

  lemma FaultPageHas(e: Endpoint, perms: Perms, a: nat)
    requires e.AtSignal?
    ensures FaultPage(e.sigAddress, perms).Has(a) <==> OnFaultPage(e, a)
  {
  }

  // The negative mapping can be added exactly if no mapping on the page grants the access that failed.
  lemma FaultAddable(codec: Codec, s: State, x: EndState)
    requires Guarded(codec, s) && x.endpoint.IsAccessFault()
    ensures AddNegativeFor(s, x).Some? <==>
            forall a: nat :: OnFaultPage(x.endpoint, a) && a in s.mapped ==> !Grants(s.mapped[a], x.endpoint.cause)
  {
    var e := x.endpoint;
    var m := FaultPage(e.sigAddress, NegativePerms(e.cause));
    FaultPageFacts(e.sigAddress, NegativePerms(e.cause));
    forall a: nat ensures m.start <= a < m.Limit() <==> OnFaultPage(e, a) {
      FaultPageHas(e, NegativePerms(e.cause), a);
    }
    MapOfGrantable(s.mappings);
    forall a: nat | a in s.mapped ensures m.perms.HasSomeOf(s.mapped[a]) <==> Grants(s.mapped[a], e.cause) {
    }
  }

  lemma FaultAdded(codec: Codec, s: State, x: EndState, a: nat)
    requires Guarded(codec, s) && AddNegativeFor(s, x).Some? && x.endpoint.IsAccessFault()
    ensures FaultAddedAt(s.negativeMapped, AddNegativeFor(s, x).value.negativeMapped, x.endpoint, a)
  {
    var m := FaultPage(x.endpoint.sigAddress, NegativePerms(x.endpoint.cause));
    FaultPageFacts(x.endpoint.sigAddress, NegativePerms(x.endpoint.cause));
    AddNegativeOverlapKeeps(codec, s, m);
    FaultPageHas(x.endpoint, NegativePerms(x.endpoint.cause), a);
  }

  lemma AddNegativeForKeeps(codec: Codec, s: State, x: EndState)
    requires Guarded(codec, s) && AddNegativeFor(s, x).Some?
    ensures Guarded(codec, AddNegativeFor(s, x).value) && Grows(s, AddNegativeFor(s, x).value)
    ensures AddNegativeFor(s, x).value.endStates == s.endStates
  {
    if x.endpoint.IsAccessFault() {
      AddNegativeOverlapKeeps(codec, s, FaultPage(x.endpoint.sigAddress, NegativePerms(x.endpoint.cause)));
    }
  }

  // A call of a guarded operation.
  datatype Op =
    | MappingOp(mapping: MemoryMapping)
    | NegativeOp(mapping: MemoryMapping)
    | NegativeForOp(endState: EndState)
    | BytesOp(bytes: MemoryBytes)
    | RegistersOp(registers: RegisterState)
    | EndStateOp(endState: EndState, unmappedOk: bool)
    | NormalizeMappingsOp

  // The arguments are values that the source can construct.
  ghost predicate Constructible(op: Op) {
    match op
    case MappingOp(x) => x.Valid()
    case NegativeOp(x) => x.Valid()
    case BytesOp(b) => b.Valid()
    case EndStateOp(e, _) => e.Valid()
    case _ => true
  }

  // The operation, if its guard allows it.
  function Step(codec: Codec, s: State, op: Op): State {
    match op
    case MappingOp(x) => if s.CanAddMapping(x) then s.AddMapping(x) else s
    case NegativeOp(x) => if s.CanAddNegative(x, false) then s.AddNegative(x) else s
    case NegativeForOp(e) => var r := AddNegativeFor(s, e); if r.Some? then r.value else s
    case BytesOp(b) => if s.CanAddBytes(b) then s.AddBytes(b) else s
    case RegistersOp(r) => if s.CanSetRegisters(codec, r, false) then s.(registers := Some(r)) else s
    case EndStateOp(e, unmappedOk) => if s.CanAddEndState(codec, e, unmappedOk, false) then s.AddEndState(e) else s
    case NormalizeMappingsOp => NormalizeMappings(s)
  }

  function After(codec: Codec, s: State, ops: seq<Op>): State {
    if ops == [] then s else Step(codec, After(codec, s, ops[..|ops| - 1]), ops[|ops| - 1])
  }

  lemma SetRegistersKeeps(codec: Codec, s: State, r: RegisterState)
    requires Guarded(codec, s) && s.CanSetRegisters(codec, r, false)
    ensures Guarded(codec, s.(registers := Some(r))) && Grows(s, s.(registers := Some(r)))
  {
    var t := s.(registers := Some(r));
    assert Consistent(t);
    AddableGrows(codec, s, t, s.endStates);
    RegistersGrow(codec, s, t, r, false);
  }

  lemma StepKeeps(codec: Codec, s: State, op: Op)
    requires Guarded(codec, s) && Distinct(s.endStates) && Constructible(op)
    ensures Guarded(codec, Step(codec, s, op)) && Distinct(Step(codec, s, op).endStates)
    ensures Grows(s, Step(codec, s, op))
  {
    match op
    case MappingOp(x) => if s.CanAddMapping(x) { AddMappingKeeps(codec, s, x); }
    case NegativeOp(x) => if s.CanAddNegative(x, false) { AddNegativeKeeps(codec, s, x); }
    case NegativeForOp(e) => if AddNegativeFor(s, e).Some? { AddNegativeForKeeps(codec, s, e); }
    case BytesOp(b) => if s.CanAddBytes(b) { AddBytesKeeps(codec, s, b); }
    case RegistersOp(r) => if s.CanSetRegisters(codec, r, false) { SetRegistersKeeps(codec, s, r); }
    case EndStateOp(e, unmappedOk) =>
      if s.CanAddEndState(codec, e, unmappedOk, false) { AddEndStateKeeps(codec, s, e, unmappedOk); }
    case NormalizeMappingsOp => NormalizeMappingsKeeps(codec, s);
  }

  lemma GrowsThrough(s: State, t: State, u: State)
    requires Grows(s, t) && Grows(t, u)
    ensures Grows(s, u)
  {
  }

  // Every run of guarded operations keeps the snapshot guarded, and its end states distinct.
  lemma {:induction false} RunKeeps(codec: Codec, s: State, ops: seq<Op>)
    requires Guarded(codec, s) && Distinct(s.endStates)
    requires forall i :: 0 <= i < |ops| ==> Constructible(ops[i])
    ensures Guarded(codec, After(codec, s, ops)) && Distinct(After(codec, s, ops).endStates)
    ensures Grows(s, After(codec, s, ops))
  {
    if ops != [] {
      var t := After(codec, s, ops[..|ops| - 1]);
      RunKeeps(codec, s, ops[..|ops| - 1]);
      StepKeeps(codec, t, ops[|ops| - 1]);
      GrowsThrough(s, t, After(codec, s, ops));
    }
  }

  lemma EmptyGuarded(codec: Codec, arch: Architecture, id: string)
    ensures Guarded(codec, Empty(arch, id)) && Distinct(Empty(arch, id).endStates)
  {
  }

  // Once negative mappings were added for a fault, its signal address passes the check of its
  // end state after any further run of guarded operations.
  lemma FaultStaysKnown(codec: Codec, s: State, x: EndState, ops: seq<Op>)
    requires Guarded(codec, s) && Distinct(s.endStates) && AddNegativeFor(s, x).Some? && x.endpoint.IsAccessFault()
    requires forall i :: 0 <= i < |ops| ==> Constructible(ops[i])
    ensures After(codec, AddNegativeFor(s, x).value, ops).SigAddressOk(x.endpoint.num, x.endpoint.sigAddress)
  {
    var t := AddNegativeFor(s, x).value;
    FaultAddressKnown(codec, s, x);
    StepKeeps(codec, s, NegativeForOp(x));
    RunKeeps(codec, t, ops);
  }

  // The permissions of `p` are among those of `q`.
  predicate NoLess(p: Perms, q: Perms) {
    (p.r ==> q.r) && (p.w ==> q.w) && (p.x ==> q.x) && (p.mapped ==> q.mapped)
  }

  ghost predicate NegativeKept(s: State, t: State, a: nat) {
    a in s.negativeMapped ==> a in t.negativeMapped && NoLess(s.negativeMapped[a], t.negativeMapped[a])
  }

  lemma StepNegative(codec: Codec, s: State, op: Op, a: nat)
    ensures NegativeKept(s, Step(codec, s, op), a)
  {
  }

  lemma {:induction false} RunNegative(codec: Codec, s: State, ops: seq<Op>, a: nat)
    ensures NegativeKept(s, After(codec, s, ops), a)
  {
    if ops != [] {
      RunNegative(codec, s, ops[..|ops| - 1], a);
      StepNegative(codec, After(codec, s, ops[..|ops| - 1]), ops[|ops| - 1], a);
    }
  }

  // From then on, over every run of guarded operations, no mapping of the page grants the access that failed.
  lemma FaultNeverGranted(codec: Codec, s: State, x: EndState, ops: seq<Op>, a: nat)
    requires Guarded(codec, s) && Distinct(s.endStates) && AddNegativeFor(s, x).Some? && x.endpoint.IsAccessFault()
    requires forall i :: 0 <= i < |ops| ==> Constructible(ops[i])
    requires OnFaultPage(x.endpoint, a)
    ensures var t := After(codec, AddNegativeFor(s, x).value, ops);
            a in t.mapped ==> !Grants(t.mapped[a], x.endpoint.cause)
  {
    var u := AddNegativeFor(s, x).value;
    var t := After(codec, u, ops);
    FaultAdded(codec, s, x, a);
    StepKeeps(codec, s, NegativeForOp(x));
    RunKeeps(codec, u, ops);
    RunNegative(codec, u, ops, a);
    assert a in t.mapped ==> !t.mapped[a].HasSomeOf(t.negativeMapped[a]);
  }
}
