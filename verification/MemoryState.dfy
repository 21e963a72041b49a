/** The state of memory while snapshots are played (common/memory_state.cc). */
module MemoryStates {
  import opened Basics
  import opened Memory
  import opened RangeMaps
  import opened MappedMemory
  import opened Normalize
  import opened SnapshotState
  import opened SnapshotGuards
  import opened DeltaBytes
  import DeltaMappings

  // What is mapped with which permissions, what was written, and what is known of it.
  datatype MemoryView = MemoryView(mapped: map<nat, Perms>, written: set<nat>, known: map<nat, Byte>)

  function Zeros(addresses: set<nat>): map<nat, Byte> {
    map a | a in addresses :: 0
  }

  function ZeroBytes(start: nat, size: nat): (b: MemoryBytes)
    ensures b.start == start && b.Limit() == start + size
  {
    MemoryBytes(start, seq(size, _ => 0))
  }

  lemma WriteZeros(known: map<nat, Byte>, start: nat, size: nat)
    ensures Written(known, ZeroBytes(start, size)) == known + Zeros(Range(start, start + size))
  {
  }

  lemma {:induction false} WrittenKeys(m: map<nat, Byte>, list: seq<MemoryBytes>)
    ensures WrittenAll(m, list).Keys == m.Keys + Addresses(list)
  {
    if list != [] {
      WrittenKeys(m, list[..|list| - 1]);
    }
  }

  // The mappings of a snapshot with their mapped flags.
  function Lifted(m: map<nat, Perms>): (r: map<nat, Perms>)
    ensures r.Keys == m.Keys
  {
    map a | a in m :: m[a].Plus(MAPPED)
  }

  // The map after setting the mappings of a snapshot and removing what it must not have elsewhere.
  function InitialMapped(m: map<nat, Perms>, s: State): (r: map<nat, Perms>)
    ensures r.Keys == m.Keys + s.mapped.Keys
  {
    map a | a in m.Keys + s.mapped.Keys ::
      if a in s.mapped then s.mapped[a].Plus(MAPPED)
      else if a in DeltaMappings.Forbidden(m, s) then m[a].Minus(s.negativeMapped[a])
      else m[a]
  }

  function InitialOver(v: MemoryView, s: State, zeroed: bool): MemoryView {
    var zeros := if zeroed then s.mapped.Keys - v.mapped.Keys else {};
    MemoryView(InitialMapped(v.mapped, s), v.written + zeros + Addresses(s.bytes),
               WrittenAll(v.known + Zeros(zeros), s.bytes))
  }

  const EMPTY := MemoryView(map[], {}, map[])

  // What an address has: its permissions, whether it was written, and what is known of it.
  datatype Cell = Cell(perms: Option<Perms>, written: bool, known: Option<Byte>)

  function CellAt(v: MemoryView, a: nat): Cell {
    Cell(Get(v.mapped, a), a in v.written, Get(v.known, a))
  }

  const UNMAPPED := Cell(None, false, None)

  function Flag(p: Perms): Perms {
    Perms(p.r, p.w, p.x, true)
  }

  // The permissions of `p` that `q` does not have.
  function Without(p: Perms, q: Perms): Perms {
    Perms(p.r && !q.r, p.w && !q.w, p.x && !q.x, p.mapped && !q.mapped)
  }

  // What the start of a snapshot makes of an address: its mappings get their permissions, other memory
  // loses what the snapshot must not have; bytes of the snapshot are written, memory that was mapped
  // before keeps what it had, and new memory is zero if that is asked for.
  function CellAtStart(was: Cell, s: State, zeroed: bool, a: nat): Cell {
    var perms := if a in s.mapped then Some(Flag(s.mapped[a]))
                 else if was.perms.Some? && a in s.negativeMapped then
                   Some(Without(was.perms.value, s.negativeMapped[a]))
                 else was.perms;
    if a in Content(s.bytes) then Cell(perms, true, Some(Content(s.bytes)[a]))
    else if was.perms.Some? then Cell(perms, was.written, was.known)
    else if a in s.mapped && zeroed then Cell(perms, true, Some(0))
    else Cell(perms, false, None)
  }

  lemma {:induction false} WrittenAllAt(m: map<nat, Byte>, list: seq<MemoryBytes>, a: nat)
    ensures Get(WrittenAll(m, list), a) == if a in Content(list) then Some(Content(list)[a]) else Get(m, a)
  {
    if list != [] {
      WrittenAllAt(m, list[..|list| - 1], a);
    }
  }

  lemma InitialMappedAt(m: map<nat, Perms>, s: State, a: nat)
    requires DeltaMappings.AllFlagged(m)
    ensures Get(InitialMapped(m, s), a) ==
            if a in s.mapped then Some(Flag(s.mapped[a]))
            else if a in m && a in s.negativeMapped then Some(Without(m[a], s.negativeMapped[a]))
            else Get(m, a)
  {
  }

  lemma InitialOverAt(v: MemoryView, s: State, zeroed: bool, a: nat)
    requires v.known.Keys <= v.written <= v.mapped.Keys && DeltaMappings.AllFlagged(v.mapped)
    ensures CellAt(InitialOver(v, s, zeroed), a) == CellAtStart(CellAt(v, a), s, zeroed, a)
  {
    var zeros := if zeroed then s.mapped.Keys - v.mapped.Keys else {};
    InitialMappedAt(v.mapped, s, a);
    WrittenAllAt(v.known + Zeros(zeros), s.bytes, a);
  }

  // The state at the start of a snapshot, and in one of its end states.
  function InitialView(s: State, zeroed: bool): MemoryView {
    var zeros := if zeroed then s.mapped.Keys else {};
    MemoryView(Lifted(s.mapped), zeros + Addresses(s.bytes), WrittenAll(Zeros(zeros), s.bytes))
  }

  function EndView(s: State, e: EndState, zeroed: bool): MemoryView {
    var v := InitialView(s, zeroed);
    WrittenIn(v, e.bytes)
  }

  function Dropped(v: MemoryView, keys: set<nat>): MemoryView {
    MemoryView(v.mapped - keys, v.written - keys, v.known - keys)
  }

  lemma DroppedTwice(v: MemoryView, keys: set<nat>, more: set<nat>)
    ensures Dropped(Dropped(v, keys), more) == Dropped(v, keys + more)
  {
    assert v.mapped - keys - more == v.mapped - (keys + more);
    assert v.known - keys - more == v.known - (keys + more);
  }

  // With a list of bytes written.
  function WrittenIn(v: MemoryView, list: seq<MemoryBytes>): MemoryView {
    v.(written := v.written + Addresses(list), known := WrittenAll(v.known, list))
  }

  lemma WrittenInStep(v: MemoryView, list: seq<MemoryBytes>, k: nat)
    requires k < |list| && Addresses(list) <= v.mapped.Keys
    ensures Contains(v.mapped, list[k].start, list[k].Limit())
    ensures var w := WrittenIn(v, list[..k]);
            w.(written := w.written + Range(list[k].start, list[k].Limit()), known := Written(w.known, list[k])) ==
            WrittenIn(v, list[..k + 1])
  {
    assert list[..k + 1][..k] == list[..k];
    PartOfAddresses(list, k);
  }

  // Without the addresses that are not in `keys`.
  function OnlyIn(v: MemoryView, keys: set<nat>): MemoryView {
    Dropped(v, v.mapped.Keys - keys)
  }

  // Memory in `extra` keeps its mapped flag only.
  function Unprotected(m: map<nat, Perms>, extra: set<nat>): map<nat, Perms> {
    map a | a in m :: if a in extra then m[a].Minus(ALL) else m[a]
  }

  class MemoryState {
    var mapped: map<nat, Perms>
    var written: set<nat>
    var known: map<nat, Byte>

    function View(): MemoryView
      reads this
    {
      MemoryView(mapped, written, known)
    }

    // All memory has its mapped flag, and what is known was written and is mapped.
    ghost predicate Valid()
      reads this
    {
      InSpace(mapped) && DeltaMappings.AllFlagged(mapped) && known.Keys <= written <= mapped.Keys
    }

    // All that was written is known.
    ghost predicate IsExact()
      reads this
    {
      written == known.Keys
    }

    constructor ()
      ensures Valid() && IsExact() && View() == EMPTY
    {
      mapped, written, known := map[], {}, map[];
    }

    method AddNewMemoryMapping(x: MemoryMapping)
      requires Valid() && x.Valid() && !x.perms.IsEmpty() && !Overlaps(mapped, x)
      modifies this
      ensures Valid() && View() == old(View()).(mapped := Painted(old(mapped), DeltaMappings.Flagged(x)))
      ensures forall a: nat :: CellAt(View(), a) ==
                if x.start <= a < x.start + x.size then CellAt(old(View()), a).(perms := Some(Flag(x.perms)))
                else CellAt(old(View()), a)
    {
      mapped := Painted(mapped, DeltaMappings.Flagged(x));
    }

    method SetMemoryMappingEmptyPermsOk(x: MemoryMapping)
      requires Valid() && x.Valid()
      modifies this
      ensures Valid() && View() == old(View()).(mapped := Repainted(old(mapped), DeltaMappings.Flagged(x)))
      ensures forall a: nat :: CellAt(View(), a) ==
                if x.start <= a < x.start + x.size then CellAt(old(View()), a).(perms := Some(Flag(x.perms)))
                else CellAt(old(View()), a)
    {
      mapped := Repainted(mapped, DeltaMappings.Flagged(x));
    }

    method RemoveMemoryMapping(start: nat, limit: nat)
      requires Valid() && start < limit
      modifies this
      ensures Valid() && (old(IsExact()) ==> IsExact())
      ensures View() == Dropped(old(View()), Range(start, limit))
      ensures forall a: nat :: CellAt(View(), a) == if start <= a < limit then UNMAPPED else CellAt(old(View()), a)
    {
      mapped := mapped - Range(start, limit);
      written := written - Range(start, limit);
      known := known - Range(start, limit);
    }

    // Removes everything that the snapshot does not map.
    method RemoveMemoryMappingsNotIn(s: State)
      requires Valid()
      modifies this
      ensures Valid() && (old(IsExact()) ==> IsExact()) && View() == OnlyIn(old(View()), s.mapped.Keys)
      ensures forall a: nat :: CellAt(View(), a) == if a in s.mapped then CellAt(old(View()), a) else UNMAPPED
    {
      var extra := mapped - s.mapped.Keys;
      var runs := Runs(extra);
      RunsAreRuns(extra, 0, MAX_ADDRESS);
      for i := 0 to |runs|
        invariant Valid() && (old(IsExact()) ==> IsExact())
        invariant View() == Dropped(old(View()), RunKeys(runs[..i]))
      {
        assert Within(runs[i], extra, 0, MAX_ADDRESS);
        assert runs[..i + 1][..i] == runs[..i];
        DroppedTwice(old(View()), RunKeys(runs[..i]), Range(runs[i].start, runs[i].limit));
        RemoveMemoryMapping(runs[i].start, runs[i].limit);
      }
      assert runs[..|runs|] == runs;
      RunKeysAll(extra);
      assert extra.Keys == old(mapped).Keys - s.mapped.Keys;
    }

    // Removes the permissions of everything that the snapshot does not map.
    method ClearMemoryMappingsPermsNotIn(s: State)
      requires Valid()
      modifies this`mapped
      ensures Valid() && mapped == Unprotected(old(mapped), old(mapped).Keys - s.mapped.Keys)
      ensures forall a: nat :: CellAt(View(), a) ==
                if a in s.mapped || a !in old(mapped) then CellAt(old(View()), a)
                else CellAt(old(View()), a).(perms := Some(MAPPED))
    {
      var extra := mapped - s.mapped.Keys;
      var runs := Runs(extra);
      for i := 0 to |runs|
        invariant mapped == Unprotected(old(mapped), RunKeys(runs[..i]))
      {
        UnprotectStep(old(mapped), runs, i);
        mapped := Weakened(mapped, runs[i].start, runs[i].limit, ALL);
      }
      assert runs[..|runs|] == runs;
      RunKeysAll(extra);
      assert extra.Keys == old(mapped).Keys - s.mapped.Keys;
    }

    method SetMemoryBytes(b: MemoryBytes)
      requires Valid() && Contains(mapped, b.start, b.Limit())
      modifies this
      ensures Valid() && (old(IsExact()) ==> IsExact())
      ensures View() ==
                old(View()).(written := old(written) + Range(b.start, b.Limit()), known := Written(old(known), b))
      ensures forall a: nat :: CellAt(View(), a) ==
                if b.start <= a < b.start + |b.data| then
                  CellAt(old(View()), a).(written := true, known := Some(b.data[a - b.start]))
                else CellAt(old(View()), a)
    {
      written := written + Range(b.start, b.Limit());
      known := Written(known, b);
    }

    method SetMemoryBytesList(list: seq<MemoryBytes>)
      requires Valid() && Addresses(list) <= mapped.Keys
      modifies this
      ensures Valid() && (old(IsExact()) ==> IsExact())
      ensures View() == WrittenIn(old(View()), list)
    {
      ghost var start := View();
      for k := 0 to |list|
        invariant Valid() && (old(IsExact()) ==> IsExact()) && mapped == start.mapped
        invariant View() == WrittenIn(start, list[..k])
      {
        WrittenInStep(start, list, k);
        SetMemoryBytes(list[k]);
      }
      assert list[..|list|] == list;
    }

    method ForgetMemoryBytes(start: nat, limit: nat)
      requires Valid() && start < limit
      modifies this
      ensures Valid() && View() == old(View()).(known := old(known) - Range(start, limit))
      ensures forall a: nat :: CellAt(View(), a) ==
                if start <= a < limit then CellAt(old(View()), a).(known := None) else CellAt(old(View()), a)
    {
      known := known - Range(start, limit);
    }

    method ZeroMappedMemoryBytes(x: MemoryMapping)
      requires Valid() && x.Valid() && Contains(mapped, x.start, x.Limit())
      modifies this
      ensures Valid() && (old(IsExact()) ==> IsExact())
      ensures View() == ZeroedIn(old(View()), Range(x.start, x.Limit()))
    {
      var b := ZeroBytes(x.start, x.size);
      ZeroWritten(View(), x);
      SetMemoryBytes(b);
    }

    // The parts of the bytes that are not known to be there already: writing them has the same effect.
    method DeltaMemoryBytesOf(list: seq<MemoryBytes>) returns (result: seq<MemoryBytes>)
      requires Valid() && AllValid(list) && Disjoint(list)
      ensures IsListDelta(known, list, result) && Disjoint(result)
      ensures WrittenAll(known, result) == WrittenAll(known, list)
    {
      result := DeltaMemoryBytesList(known, list);
      ghost var parts :| AreDeltas(known, list, parts) && result == Concat(parts);
      DeltaListApplies(known, list, parts);
      DeltaListDisjoint(known, list, parts);
    }

    // Writes zeros to all addresses of a map.
    method ZeroRanges(m: map<nat, Perms>)
      requires Valid() && InSpace(m) && m.Keys <= mapped.Keys
      modifies this
      ensures Valid() && (old(IsExact()) ==> IsExact())
      ensures View() == ZeroedIn(old(View()), m.Keys)
    {
      var runs := Runs(m);
      ghost var start := View();
      ZeroedRuns(start, m);
      for i := 0 to |runs|
        invariant Valid() && (old(IsExact()) ==> IsExact())
        invariant View() == ZeroedIn(start, RunKeys(runs[..i]))
      {
        ZeroedStep(start, m, i);
        ZeroMappedMemoryBytes(RunMapping(m, i));
      }
    }

    // Sets the mappings of a snapshot.
    method SetMemoryMappings(s: State)
      requires Valid() && Consistent(s)
      modifies this`mapped
      ensures Valid() && mapped == SetOver(old(mapped), s.mapped)
    {
      SetOverNone(mapped);
      for k := 0 to |s.mappings|
        invariant mapped == SetOver(old(mapped), MapOf(s.mappings[..k]))
      {
        SetOverStep(old(mapped), s, k);
        mapped := Repainted(mapped, DeltaMappings.Flagged(s.mappings[k]));
      }
      assert s.mappings[..|s.mappings|] == s.mappings;
      SetOverFacts(old(mapped), s);
    }

    // Takes over the start of a snapshot, and leaves what is outside of its memory as it is.
    method SetInitialState(s: State, zeroed: bool)
      requires Valid() && Consistent(s)
      modifies this
      ensures Valid() && (old(IsExact()) ==> IsExact()) && View() == InitialOver(old(View()), s, zeroed)
      ensures forall a: nat :: CellAt(View(), a) == CellAtStart(CellAt(old(View()), a), s, zeroed, a)
    {
      forall a: nat ensures CellAt(InitialOver(View(), s, zeroed), a) == CellAtStart(CellAt(View(), a), s, zeroed, a) {
        InitialOverAt(View(), s, zeroed, a);
      }
      var newMappings := s.mapped - mapped.Keys;
      SetMemoryMappings(s);
      MapOfGrantable(s.negative);
      RemoveForbidden(s);
      InitialMappedIs(old(mapped), s);
      ghost var zeros := if zeroed then newMappings.Keys else {};
      if zeroed {
        ZeroRanges(newMappings);
      } else {
        ZeroedInNone(View());
      }
      assert View() == ZeroedIn(old(View()).(mapped := mapped), zeros);
      SetMemoryBytesList(s.bytes);
    }

    // Removes the permissions that a snapshot must not have.
    method RemoveForbidden(s: State)
      requires Valid() && DeltaMappings.AllUnflagged(s.negativeMapped)
      modifies this`mapped
      ensures Valid() && mapped == StrippedIn(old(mapped), DeltaMappings.Forbidden(old(mapped), s),
                                              DeltaMappings.Forbidden(old(mapped), s).Keys)
    {
      var delta := DeltaMappings.Forbidden(mapped, s);
      var runs := Runs(delta);
      StrippedNone(mapped, delta);
      for i := 0 to |runs|
        invariant mapped == StrippedIn(old(mapped), delta, RunKeys(runs[..i]))
      {
        StrippedStep(old(mapped), delta, i);
        mapped := Weakened(mapped, runs[i].start, runs[i].limit, runs[i].value);
      }
      assert runs[..|runs|] == runs;
      RunKeysAll(delta);
    }
  }

  lemma InitialMappedIs(m: map<nat, Perms>, s: State)
    requires DeltaMappings.AllFlagged(m)
    ensures var over := SetOver(m, s.mapped);
            var forbidden := DeltaMappings.Forbidden(over, s);
            StrippedIn(over, forbidden, forbidden.Keys) == InitialMapped(m, s)
  {
    var over := SetOver(m, s.mapped);
    var forbidden := DeltaMappings.Forbidden(over, s);
    forall a | a in over
      ensures StrippedIn(over, forbidden, forbidden.Keys)[a] == InitialMapped(m, s)[a]
    {
      assert a in forbidden <==> a in DeltaMappings.Forbidden(m, s);
    }
  }

  lemma InitialOverEmpty(s: State, zeroed: bool)
    ensures InitialOver(EMPTY, s, zeroed) == InitialView(s, zeroed)
  {
    assert InitialMapped(map[], s) == Lifted(s.mapped);
    var zeros := if zeroed then s.mapped.Keys else {};
    assert s.mapped.Keys - EMPTY.mapped.Keys == s.mapped.Keys;
    assert EMPTY.known + Zeros(zeros) == Zeros(zeros);
    assert EMPTY.written + zeros == zeros;
  }

  // The state at the start of a snapshot.
  method MakeInitial(s: State, zeroed: bool) returns (r: MemoryState)
    requires Consistent(s)
    ensures fresh(r) && r.Valid() && r.IsExact() && r.View() == InitialView(s, zeroed)
    ensures forall a: nat :: CellAt(r.View(), a) == CellAtStart(UNMAPPED, s, zeroed, a)
  {
    r := new MemoryState();
    r.SetInitialState(s, zeroed);
    InitialOverEmpty(s, zeroed);
  }

  lemma LiftedStep(s: State, k: nat)
    requires Consistent(s) && k < |s.mappings|
    ensures !Overlaps(Lifted(MapOf(s.mappings[..k])), s.mappings[k])
    ensures Painted(Lifted(MapOf(s.mappings[..k])), DeltaMappings.Flagged(s.mappings[k])) ==
            Lifted(MapOf(s.mappings[..k + 1]))
  {
    var before := MapOf(s.mappings[..k]);
    assert MapOf(s.mappings[..k + 1]) == Painted(before, s.mappings[k]) by {
      assert s.mappings[..k + 1][..k] == s.mappings[..k];
    }
    forall a: nat | s.mappings[k].Has(a) ensures a !in before {
      DeltaMappings.MappingAt(s, k, a);
    }
    LiftedPainted(before, s.mappings[k]);
  }

  lemma LiftedPainted(m: map<nat, Perms>, x: MemoryMapping)
    ensures Painted(Lifted(m), DeltaMappings.Flagged(x)) == Lifted(Painted(m, x))
  {
    var one, two := Painted(Lifted(m), DeltaMappings.Flagged(x)), Lifted(Painted(m, x));
    assert one.Keys == two.Keys;
    forall a | a in one ensures one[a] == two[a] {
      assert x.Has(a) <==> DeltaMappings.Flagged(x).Has(a);
    }
  }

  // Where the end state has no bytes it has what the start of the snapshot has.
  function CellAtEnd(s: State, e: EndState, zeroed: bool, a: nat): Cell {
    var start := CellAtStart(UNMAPPED, s, zeroed, a);
    if a in Content(e.bytes) then start.(written := true, known := Some(Content(e.bytes)[a])) else start
  }

  lemma EndViewAt(s: State, e: EndState, zeroed: bool, a: nat)
    ensures CellAt(EndView(s, e, zeroed), a) == CellAtEnd(s, e, zeroed, a)
  {
    InitialOverAt(EMPTY, s, zeroed, a);
    InitialOverEmpty(s, zeroed);
    WrittenAllAt(InitialView(s, zeroed).known, e.bytes, a);
  }

  // The state in an end state of a snapshot.
  method MakeEnd(s: State, index: nat, zeroed: bool) returns (r: MemoryState)
    requires Consistent(s) && index < |s.endStates| && Addresses(s.endStates[index].bytes) <= s.mapped.Keys
    ensures fresh(r) && r.Valid() && r.IsExact() && r.View() == EndView(s, s.endStates[index], zeroed)
    ensures forall a: nat :: CellAt(r.View(), a) == CellAtEnd(s, s.endStates[index], zeroed, a)
  {
    forall a: nat
      ensures CellAt(EndView(s, s.endStates[index], zeroed), a) == CellAtEnd(s, s.endStates[index], zeroed, a)
    {
      EndViewAt(s, s.endStates[index], zeroed, a);
    }
    r := new MemoryState();
    for k := 0 to |s.mappings|
      invariant fresh(r) && r.Valid() && r.View() == EMPTY.(mapped := Lifted(MapOf(s.mappings[..k])))
    {
      assert MappingOk(s.mappings[k]);
      LiftedStep(s, k);
      r.AddNewMemoryMapping(s.mappings[k]);
    }
    assert s.mappings[..|s.mappings|] == s.mappings;
    if zeroed {
      ZeroMappings(r, s);
    }
    r.SetMemoryBytesList(s.bytes);
    r.SetMemoryBytesList(s.endStates[index].bytes);
  }

  // Writes zeros to all mappings of a snapshot.
  method ZeroMappings(r: MemoryState, s: State)
    requires r.Valid() && Consistent(s) && r.View() == EMPTY.(mapped := Lifted(s.mapped))
    modifies r
    ensures r.Valid() && r.View() == MemoryView(Lifted(s.mapped), s.mapped.Keys, Zeros(s.mapped.Keys))
  {
    ghost var start := r.View();
    ZeroedInNone(start);
    for k := 0 to |s.mappings|
      invariant r.Valid() && r.View() == ZeroedIn(start, MapOf(s.mappings[..k]).Keys)
    {
      ZeroMappingStep(start, s, k);
      r.ZeroMappedMemoryBytes(s.mappings[k]);
    }
    assert s.mappings[..|s.mappings|] == s.mappings;
    ZeroedEmpty(start, s.mapped.Keys);
  }

  lemma ZeroMappingStep(v: MemoryView, s: State, k: nat)
    requires Consistent(s) && k < |s.mappings| && v.mapped.Keys == s.mapped.Keys
    ensures s.mappings[k].Valid() && Contains(v.mapped, s.mappings[k].start, s.mappings[k].Limit())
    ensures ZeroedIn(ZeroedIn(v, MapOf(s.mappings[..k]).Keys), Range(s.mappings[k].start, s.mappings[k].Limit())) ==
            ZeroedIn(v, MapOf(s.mappings[..k + 1]).Keys)
  {
    var x := s.mappings[k];
    assert MappingOk(x);
    forall a: nat | x.Has(a) ensures a in s.mapped {
      DeltaMappings.MappingAt(s, k, a);
    }
    DeltaMappings.PrefixKeys(s.mappings, k);
    ZeroedInTwice(v, MapOf(s.mappings[..k]).Keys, Range(x.start, x.Limit()));
  }

  lemma ZeroedEmpty(v: MemoryView, keys: set<nat>)
    requires v.written == {} && v.known == map[]
    ensures ZeroedIn(v, keys) == MemoryView(v.mapped, keys, Zeros(keys))
  {
    assert v.known + Zeros(keys) == Zeros(keys);
  }

  // Setting the bytes of an end state at the start of the snapshot, all or only those that differ,
  // gives the end state.
  lemma InitialToEnd(s: State, e: EndState, zeroed: bool, delta: seq<MemoryBytes>)
    requires Disjoint(e.bytes) && IsListDelta(InitialView(s, zeroed).known, e.bytes, delta)
    ensures WrittenIn(InitialView(s, zeroed), delta) == EndView(s, e, zeroed)
  {
    var v := InitialView(s, zeroed);
    var parts :| AreDeltas(v.known, e.bytes, parts) && delta == Concat(parts);
    DeltaListApplies(v.known, e.bytes, parts);
    WrittenKeys(v.known, Concat(parts));
    WrittenKeys(v.known, e.bytes);
    WrittenKeys(Zeros(if zeroed then s.mapped.Keys else {}), s.bytes);
  }

  // The addresses of a run, as a mapping.
  function RunMapping(m: map<nat, Perms>, i: nat): (x: MemoryMapping)
    requires i < |Runs(m)|
    ensures x.Valid() && Range(x.start, x.Limit()) <= m.Keys
    ensures x.start == Runs(m)[i].start && x.Limit() == Runs(m)[i].limit
  {
    RunsAreRuns(m, 0, MAX_ADDRESS);
    assert Within(Runs(m)[i], m, 0, MAX_ADDRESS);
    MemoryMapping(Runs(m)[i].start, Runs(m)[i].limit - Runs(m)[i].start, NONE)
  }

  function ZeroedIn(v: MemoryView, keys: set<nat>): MemoryView {
    v.(written := v.written + keys, known := v.known + Zeros(keys))
  }

  lemma ZeroWritten(v: MemoryView, x: MemoryMapping)
    ensures var b := ZeroBytes(x.start, x.size);
            && b.start == x.start && b.Limit() == x.Limit()
            && v.(written := v.written + Range(b.start, b.Limit()), known := Written(v.known, b)) ==
               ZeroedIn(v, Range(x.start, x.Limit()))
  {
    WriteZeros(v.known, x.start, x.size);
  }

  lemma ZeroedInNone(v: MemoryView)
    ensures ZeroedIn(v, {}) == v
  {
    assert v.known + Zeros({}) == v.known;
  }

  lemma ZeroedInTwice(v: MemoryView, keys: set<nat>, more: set<nat>)
    ensures ZeroedIn(ZeroedIn(v, keys), more) == ZeroedIn(v, keys + more)
  {
    assert v.known + Zeros(keys) + Zeros(more) == v.known + Zeros(keys + more);
  }

  lemma ZeroedStep(v: MemoryView, m: map<nat, Perms>, i: nat)
    requires i < |Runs(m)|
    ensures var x := RunMapping(m, i);
            ZeroedIn(ZeroedIn(v, RunKeys(Runs(m)[..i])), Range(x.start, x.Limit())) ==
            ZeroedIn(v, RunKeys(Runs(m)[..i + 1]))
  {
    var runs, x := Runs(m), RunMapping(m, i);
    assert runs[..i + 1][..i] == runs[..i];
    ZeroedInTwice(v, RunKeys(runs[..i]), Range(x.start, x.Limit()));
  }

  lemma ZeroedRuns(v: MemoryView, m: map<nat, Perms>)
    requires InSpace(m)
    ensures ZeroedIn(v, RunKeys(Runs(m)[..0])) == v && RunKeys(Runs(m)[..|Runs(m)|]) == m.Keys
  {
    ZeroedInNone(v);
    RunKeysAll(m);
    assert Runs(m)[..|Runs(m)|] == Runs(m);
  }

  // The map with the permissions of another one, flagged, where that has any.
  function SetOver(m: map<nat, Perms>, n: map<nat, Perms>): (r: map<nat, Perms>)
    ensures r.Keys == m.Keys + n.Keys
  {
    map a | a in m.Keys + n.Keys :: if a in n then n[a].Plus(MAPPED) else m[a]
  }

  lemma SetOverNone(m: map<nat, Perms>)
    ensures SetOver(m, MapOf([])) == m
  {
  }

  lemma SetOverStep(m: map<nat, Perms>, s: State, k: nat)
    requires Consistent(s) && k < |s.mappings|
    ensures Repainted(SetOver(m, MapOf(s.mappings[..k])), DeltaMappings.Flagged(s.mappings[k])) ==
            SetOver(m, MapOf(s.mappings[..k + 1]))
  {
    var before := MapOf(s.mappings[..k]);
    assert MapOf(s.mappings[..k + 1]) == Painted(before, s.mappings[k]) by {
      assert s.mappings[..k + 1][..k] == s.mappings[..k];
    }
    forall a: nat | s.mappings[k].Has(a) ensures a !in before {
      DeltaMappings.MappingAt(s, k, a);
    }
    SetOverPainted(m, before, s.mappings[k]);
  }

  lemma SetOverPainted(m: map<nat, Perms>, n: map<nat, Perms>, x: MemoryMapping)
    requires forall a: nat :: x.Has(a) ==> a !in n
    ensures Repainted(SetOver(m, n), DeltaMappings.Flagged(x)) == SetOver(m, Painted(n, x))
  {
    var one, two := Repainted(SetOver(m, n), DeltaMappings.Flagged(x)), SetOver(m, Painted(n, x));
    assert one.Keys == two.Keys;
    forall a | a in one ensures one[a] == two[a] {
      if x.Has(a) {
        assert a !in n;
      }
    }
  }

  lemma SetOverFacts(m: map<nat, Perms>, s: State)
    requires Consistent(s) && InSpace(m) && DeltaMappings.AllFlagged(m)
    ensures InSpace(SetOver(m, s.mapped)) && DeltaMappings.AllFlagged(SetOver(m, s.mapped))
  {
    assert forall i :: 0 <= i < |s.mappings| ==> NegativeOk(s.mappings[i]);
    MapOfGrantable(s.mappings);
  }

  // The map without the permissions of `delta`, for some addresses.
  function StrippedIn(m: map<nat, Perms>, delta: map<nat, Perms>, keys: set<nat>): map<nat, Perms> {
    map a | a in m :: if a in keys && a in delta then m[a].Minus(delta[a]) else m[a]
  }

  lemma StrippedNone(m: map<nat, Perms>, delta: map<nat, Perms>)
    ensures StrippedIn(m, delta, {}) == m
  {
  }

  lemma StrippedStep(m: map<nat, Perms>, delta: map<nat, Perms>, i: nat)
    requires DeltaMappings.AllFlagged(m) && DeltaMappings.AllUnflagged(delta) && i < |Runs(delta)|
    ensures var run := Runs(delta)[i];
            Weakened(StrippedIn(m, delta, RunKeys(Runs(delta)[..i])), run.start, run.limit, run.value) ==
            StrippedIn(m, delta, RunKeys(Runs(delta)[..i + 1]))
  {
    var runs := Runs(delta);
    assert runs[..i + 1][..i] == runs[..i];
    forall a: nat | runs[i].Has(a) ensures a !in RunKeys(runs[..i]) && a in delta && delta[a] == runs[i].value {
      RunKeysFresh(delta, i, a);
    }
  }

  lemma UnprotectStep(m: map<nat, Perms>, runs: seq<Run<Perms>>, i: nat)
    requires DeltaMappings.AllFlagged(m) && i < |runs|
    ensures Weakened(Unprotected(m, RunKeys(runs[..i])), runs[i].start, runs[i].limit, ALL) ==
            Unprotected(m, RunKeys(runs[..i + 1]))
  {
    assert runs[..i + 1][..i] == runs[..i];
  }

  lemma {:induction false} PartOfAddresses(list: seq<MemoryBytes>, k: nat)
    requires k < |list|
    ensures Range(list[k].start, list[k].Limit()) <= Addresses(list)
    decreases |list|
  {
    if k < |list| - 1 {
      PartOfAddresses(list[..|list| - 1], k);
    }
  }
}
