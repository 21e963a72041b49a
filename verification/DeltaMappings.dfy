/** The commands that bring a memory map to that of a snapshot (DeltaMemoryMapping,
    DeltaMemoryMappings and DeltaMemoryMappingsExact of common/memory_state.cc). */
module DeltaMappings {
  import opened Basics
  import opened Memory
  import opened MappedMemory
  import opened SnapshotState
  import opened SnapshotGuards
  import opened PermissionSets

  datatype Action = Map | Protect | Unmap

  datatype Command = Command(mapping: MemoryMapping, action: Action)

  // What to do with mappings that the snapshot does not have.
  datatype Mode = UnmapUnused | ProtectUnused

  // Memory is recorded with its mapped flag.
  function Flagged(x: MemoryMapping): MemoryMapping {
    x.(perms := x.perms.Plus(MAPPED))
  }

  function Applied(m: map<nat, Perms>, c: Command): map<nat, Perms> {
    if c.action.Unmap? then m - Range(c.mapping.start, c.mapping.Limit()) else Repainted(m, Flagged(c.mapping))
  }

  function AppliedAll(m: map<nat, Perms>, cs: seq<Command>): map<nat, Perms> {
    if cs == [] then m else Applied(AppliedAll(m, cs[..|cs| - 1]), cs[|cs| - 1])
  }

  ghost predicate AllApart(cs: seq<Command>) {
    forall i: nat, j: nat :: i < j < |cs| ==> Clear(cs[i].mapping, cs[j].mapping)
  }

  ghost predicate InCommand(cs: seq<Command>, a: nat, i: nat) {
    i < |cs| && cs[i].mapping.Has(a)
  }

  ghost predicate Commanded(cs: seq<Command>, a: nat) {
    exists i: nat :: InCommand(cs, a, i)
  }

  lemma {:induction false} AppliedOutside(m: map<nat, Perms>, cs: seq<Command>, a: nat)
    requires !Commanded(cs, a)
    ensures a in AppliedAll(m, cs) <==> a in m
    ensures a in m ==> AppliedAll(m, cs)[a] == m[a]
  {
    if cs != [] {
      var init := cs[..|cs| - 1];
      assert !InCommand(cs, a, |cs| - 1);
      assert forall i: nat :: InCommand(init, a, i) ==> InCommand(cs, a, i);
      AppliedOutside(m, init, a);
    }
  }

  lemma {:induction false} AppliedInside(m: map<nat, Perms>, cs: seq<Command>, a: nat, i: nat)
    requires AllApart(cs) && InCommand(cs, a, i)
    ensures a in AppliedAll(m, cs) <==> !cs[i].action.Unmap?
    ensures !cs[i].action.Unmap? ==> AppliedAll(m, cs)[a] == cs[i].mapping.perms.Plus(MAPPED)
  {
    var n := |cs| - 1;
    if i < n {
      assert Clear(cs[i].mapping, cs[n].mapping);
      assert InCommand(cs[..n], a, i);
      AppliedInside(m, cs[..n], a, i);
    }
  }

  // The target differs from the memory at the address, or the address is to be given up.
  ghost predicate Needs(m: map<nat, Perms>, target: map<nat, Perms>, mode: Mode, a: nat) {
    if a in target then a !in m || m[a] != target[a]
    else a in m && (mode.UnmapUnused? || m[a] != MAPPED)
  }

  // The command brings the address to the target, and is not without effect there.
  ghost predicate CommandOk(m: map<nat, Perms>, target: map<nat, Perms>, mode: Mode, c: Command, a: nat) {
    && Needs(m, target, mode, a)
    && match c.action
       case Map => a !in m && a in target && target[a] == c.mapping.perms.Plus(MAPPED)
       case Unmap => a in m && a !in target && mode.UnmapUnused?
       case Protect =>
         && a in m
         && c.mapping.perms.Plus(MAPPED) == (if a in target then target[a] else MAPPED)
         && (a !in target ==> mode.ProtectUnused?)
  }

  ghost predicate CommandAllOk(m: map<nat, Perms>, target: map<nat, Perms>, mode: Mode, c: Command, done: set<nat>) {
    c.mapping.size > 0 && forall a: nat :: c.mapping.Has(a) ==> a in done && CommandOk(m, target, mode, c, a)
  }

  // The commands are a minimal way to the target for the addresses in `done`.
  ghost predicate IsDelta(m: map<nat, Perms>, target: map<nat, Perms>, mode: Mode, cs: seq<Command>, done: set<nat>) {
    && AllApart(cs)
    && (forall i :: 0 <= i < |cs| ==> CommandAllOk(m, target, mode, cs[i], done))
    && (forall a: nat {:trigger Commanded(cs, a)} :: a in done && Needs(m, target, mode, a) ==> Commanded(cs, a))
  }

  // The map that the commands make.
  ghost function Reached(m: map<nat, Perms>, target: map<nat, Perms>, mode: Mode): map<nat, Perms> {
    if mode.UnmapUnused? then target
    else map a: nat | a in m.Keys + target.Keys :: if a in target then target[a] else MAPPED
  }

  lemma ReachedAt(m: map<nat, Perms>, target: map<nat, Perms>, mode: Mode, cs: seq<Command>, a: nat)
    requires IsDelta(m, target, mode, cs, m.Keys + target.Keys)
    ensures a in AppliedAll(m, cs) <==> a in Reached(m, target, mode)
    ensures a in AppliedAll(m, cs) ==> AppliedAll(m, cs)[a] == Reached(m, target, mode)[a]
  {
    if Commanded(cs, a) {
      var i: nat :| InCommand(cs, a, i);
      assert CommandAllOk(m, target, mode, cs[i], m.Keys + target.Keys);
      assert CommandOk(m, target, mode, cs[i], a);
      AppliedInside(m, cs, a, i);
    } else {
      AppliedOutside(m, cs, a);
      assert !(a in m.Keys + target.Keys && Needs(m, target, mode, a));
    }
  }

  // Applying the commands gives exactly the target; or, when unused memory is kept, the target
  // and memory without permissions.
  lemma DeltaReaches(m: map<nat, Perms>, target: map<nat, Perms>, mode: Mode, cs: seq<Command>)
    requires IsDelta(m, target, mode, cs, m.Keys + target.Keys)
    ensures AppliedAll(m, cs) == Reached(m, target, mode)
  {
    forall a: nat
      ensures a in AppliedAll(m, cs) <==> a in Reached(m, target, mode)
      ensures a in AppliedAll(m, cs) ==> AppliedAll(m, cs)[a] == Reached(m, target, mode)[a]
    {
      ReachedAt(m, target, mode, cs, a);
    }
  }

  lemma AppendCommand(m: map<nat, Perms>, target: map<nat, Perms>, mode: Mode, cs: seq<Command>, c: Command,
                      done: set<nat>, all: set<nat>)
    requires IsDelta(m, target, mode, cs, done) && all == done + Range(c.mapping.start, c.mapping.Limit())
    requires CommandAllOk(m, target, mode, c, all)
    requires forall a: nat :: c.mapping.Has(a) ==> a !in done
    ensures IsDelta(m, target, mode, cs + [c], all)
  {
    var now := cs + [c];
    forall i | 0 <= i < |now| ensures CommandAllOk(m, target, mode, now[i], all) {
      if i < |cs| {
        assert CommandAllOk(m, target, mode, cs[i], done);
      }
    }
    forall i: nat, j: nat | i < j < |now| ensures Clear(now[i].mapping, now[j].mapping) {
      if j < |cs| {
        assert Clear(cs[i].mapping, cs[j].mapping);
      } else {
        assert CommandAllOk(m, target, mode, cs[i], done);
        ApartFrom(cs[i].mapping, c.mapping);
      }
    }
    forall a: nat | a in all && Needs(m, target, mode, a) ensures Commanded(now, a) {
      if a in done {
        assert Commanded(cs, a);
        var i: nat :| InCommand(cs, a, i);
        assert InCommand(now, a, i);
      } else {
        assert InCommand(now, a, |cs|);
      }
    }
  }

  lemma ApartFrom(x: MemoryMapping, y: MemoryMapping)
    requires x.size > 0 && y.size > 0 && forall a: nat :: y.Has(a) ==> !x.Has(a)
    ensures Clear(x, y)
  {
    if !Clear(x, y) {
      var a := if x.start < y.start then y.start else x.start;
      assert y.Has(a);
    }
  }

  // Addresses without needs are done without a command.
  lemma SkipAddresses(m: map<nat, Perms>, target: map<nat, Perms>, mode: Mode, cs: seq<Command>, done: set<nat>,
                      all: set<nat>)
    requires IsDelta(m, target, mode, cs, done) && done <= all
    requires forall a: nat :: a in all && a !in done ==> !Needs(m, target, mode, a)
    ensures IsDelta(m, target, mode, cs, all)
  {
    forall i | 0 <= i < |cs| ensures CommandAllOk(m, target, mode, cs[i], all) {
      assert CommandAllOk(m, target, mode, cs[i], done);
    }
  }

  // Some addresses, and those of the first `i` runs.
  function Upto(base: set<nat>, runs: seq<Run<Perms>>, i: nat): set<nat>
    requires i <= |runs|
  {
    base + RunKeys(runs[..i])
  }

  lemma UptoStep(base: set<nat>, runs: seq<Run<Perms>>, i: nat)
    requires i < |runs|
    ensures Upto(base, runs, i + 1) == Upto(base, runs, i) + Range(runs[i].start, runs[i].limit)
  {
    assert runs[..i + 1][..i] == runs[..i];
  }

  lemma UptoAll(base: set<nat>, m: map<nat, Perms>)
    requires InSpace(m)
    ensures Upto(base, Runs(m), 0) == base && Upto(base, Runs(m), |Runs(m)|) == base + m.Keys
  {
    RunKeysAll(m);
    assert Runs(m)[..|Runs(m)|] == Runs(m);
  }

  ghost predicate IsFor(c: Command, run: Run<Perms>) {
    run.start < run.limit && c.mapping.start == run.start && c.mapping.Limit() == run.limit
  }

  // One more run of addresses is done by a command for it.
  lemma StepByRun(m: map<nat, Perms>, target: map<nat, Perms>, mode: Mode, cs: seq<Command>, base: set<nat>,
                  runs: seq<Run<Perms>>, i: nat, c: Command)
    requires i < |runs| && IsFor(c, runs[i]) && IsDelta(m, target, mode, cs, Upto(base, runs, i))
    requires forall a: nat :: runs[i].Has(a) ==> a !in Upto(base, runs, i) && CommandOk(m, target, mode, c, a)
    ensures IsDelta(m, target, mode, cs + [c], Upto(base, runs, i + 1))
  {
    UptoStep(base, runs, i);
    AppendCommand(m, target, mode, cs, c, Upto(base, runs, i), Upto(base, runs, i + 1));
  }

  ghost predicate AllFlagged(m: map<nat, Perms>) {
    forall a: nat :: a in m ==> m[a].mapped
  }

  lemma DifferenceCommand(m: map<nat, Perms>, target: map<nat, Perms>, mode: Mode, y: MemoryMapping, i: nat)
    requires AllFlagged(m) && y.Valid()
    requires forall a: nat :: y.Has(a) ==> a in target && target[a] == y.perms.Plus(MAPPED)
    requires i < |Runs(DifferenceOf(Flagged(y), m))|
    ensures var runs := Runs(DifferenceOf(Flagged(y), m));
            && IsFor(CommandOf(runs[i], y.perms), runs[i])
            && forall a: nat :: runs[i].Has(a) ==>
                 a !in Upto({}, runs, i) && CommandOk(m, target, mode, CommandOf(runs[i], y.perms), a)
  {
    var delta := DifferenceOf(Flagged(y), m);
    var run := Runs(delta)[i];
    RunsAreRuns(delta, 0, MAX_ADDRESS);
    assert Within(run, delta, 0, MAX_ADDRESS);
    forall a: nat | run.Has(a)
      ensures CommandOk(m, target, mode, CommandOf(run, y.perms), a) && a !in Upto({}, Runs(delta), i)
    {
      RunKeysFresh(delta, i, a);
    }
  }

  // Memory that lacks the whole of the permissions is not mapped yet.
  function CommandOf(run: Run<Perms>, perms: Perms): Command {
    Command(MemoryMapping(run.start, if run.start <= run.limit then run.limit - run.start else 0, perms),
            if run.value == perms.Plus(MAPPED) then Map else Protect)
  }

  lemma MapAll(target: map<nat, Perms>, mode: Mode, y: MemoryMapping)
    requires y.Valid() && forall a: nat :: y.Has(a) ==> a in target && target[a] == y.perms.Plus(MAPPED)
    ensures IsDelta(map[], target, mode, [Command(y, Map)], Range(y.start, y.Limit()))
  {
    AppendCommand(map[], target, mode, [], Command(y, Map), {}, Range(y.start, y.Limit()));
    assert [] + [Command(y, Map)] == [Command(y, Map)];
  }

  // The commands for one mapping.
  method DeltaMemoryMapping(m: map<nat, Perms>, x: MemoryMapping, added: Perms, ghost target: map<nat, Perms>,
                            ghost mode: Mode)
    returns (cs: seq<Command>)
    requires AllFlagged(m) && x.Valid() && !added.mapped && !x.perms.Plus(added).IsEmpty()
    requires forall a: nat :: x.Has(a) ==> a in target && target[a] == x.perms.Plus(added).Plus(MAPPED)
    ensures IsDelta(m, target, mode, cs, Range(x.start, x.Limit()))
  {
    var y := x.(perms := x.perms.Plus(added));
    cs := [];
    if m == map[] {
      MapAll(target, mode, y);
      return [Command(y, Map)];
    }
    var delta := DifferenceOf(Flagged(y), m);
    var runs := Runs(delta);
    UptoAll({}, delta);
    for i := 0 to |runs|
      invariant IsDelta(m, target, mode, cs, Upto({}, runs, i))
    {
      DifferenceCommand(m, target, mode, y, i);
      StepByRun(m, target, mode, cs, {}, runs, i, CommandOf(runs[i], y.perms));
      cs := cs + [CommandOf(runs[i], y.perms)];
    }
    SkipAddresses(m, target, mode, cs, {} + delta.Keys, Range(x.start, x.Limit()));
  }

  lemma ConcatDelta(m: map<nat, Perms>, target: map<nat, Perms>, mode: Mode, cs: seq<Command>, done: set<nat>,
                    more: seq<Command>, next: set<nat>)
    requires IsDelta(m, target, mode, cs, done) && IsDelta(m, target, mode, more, next) && done !! next
    ensures IsDelta(m, target, mode, cs + more, done + next)
  {
    var now := cs + more;
    forall i | 0 <= i < |now| ensures CommandAllOk(m, target, mode, now[i], done + next) {
      if i < |cs| {
        assert CommandAllOk(m, target, mode, cs[i], done);
      } else {
        assert CommandAllOk(m, target, mode, more[i - |cs|], next);
      }
    }
    forall i: nat, j: nat | i < j < |now| ensures Clear(now[i].mapping, now[j].mapping) {
      if j < |cs| {
        assert Clear(cs[i].mapping, cs[j].mapping);
      } else if i < |cs| {
        assert CommandAllOk(m, target, mode, cs[i], done) && CommandAllOk(m, target, mode, more[j - |cs|], next);
        ApartFrom(now[i].mapping, now[j].mapping);
      } else {
        assert Clear(more[i - |cs|].mapping, more[j - |cs|].mapping);
      }
    }
    forall a: nat | a in done + next && Needs(m, target, mode, a) ensures Commanded(now, a) {
      if a in done {
        assert Commanded(cs, a);
        var i: nat :| InCommand(cs, a, i);
        assert InCommand(now, a, i);
      } else {
        assert Commanded(more, a);
        var i: nat :| InCommand(more, a, i);
        assert InCommand(now, a, |cs| + i);
      }
    }
  }

  // The memory of the snapshot, with the added permissions.
  function Target(s: State, added: Perms): (target: map<nat, Perms>)
    ensures target.Keys == s.mapped.Keys
  {
    map a | a in s.mapped :: s.mapped[a].Plus(added).Plus(MAPPED)
  }

  lemma MappingAt(s: State, k: nat, a: nat)
    requires AllClear(s.mappings) && s.mapped == MapOf(s.mappings) && k < |s.mappings| && s.mappings[k].Has(a)
    ensures a in s.mapped && s.mapped[a] == s.mappings[k].perms && a !in MapOf(s.mappings[..k])
  {
    var list := s.mappings;
    assert InMapping(list, a, k);
    MapOfInside(list, a, k);
    forall i: nat ensures !InMapping(list[..k], a, i) {
      if i < k {
        assert Clear(list[i], list[k]);
      }
    }
    MapOfOutside(list[..k], a);
  }

  lemma MappingTarget(s: State, added: Perms, k: nat)
    requires Consistent(s) && k < |s.mappings|
    ensures MappingOk(s.mappings[k])
    ensures forall a: nat :: s.mappings[k].Has(a) ==>
              a in s.mapped && Target(s, added)[a] == s.mappings[k].perms.Plus(added).Plus(MAPPED)
    ensures MapOf(s.mappings[..k + 1]).Keys ==
            MapOf(s.mappings[..k]).Keys + Range(s.mappings[k].start, s.mappings[k].Limit())
    ensures MapOf(s.mappings[..k]).Keys !! Range(s.mappings[k].start, s.mappings[k].Limit())
  {
    forall a: nat | s.mappings[k].Has(a)
      ensures a in s.mapped && s.mapped[a] == s.mappings[k].perms && a !in MapOf(s.mappings[..k])
    {
      MappingAt(s, k, a);
    }
    PrefixKeys(s.mappings, k);
  }

  lemma PrefixKeys(list: seq<MemoryMapping>, k: nat)
    requires k < |list|
    ensures MapOf(list[..k + 1]).Keys == MapOf(list[..k]).Keys + Range(list[k].start, list[k].Limit())
  {
    assert list[..k + 1][..k] == list[..k];
  }

  // The commands for the mappings of a snapshot.
  method DeltaOfMappings(m: map<nat, Perms>, s: State, added: Perms, ghost mode: Mode) returns (cs: seq<Command>)
    requires AllFlagged(m) && Consistent(s) && !added.mapped
    ensures IsDelta(m, Target(s, added), mode, cs, s.mapped.Keys)
  {
    ghost var target := Target(s, added);
    cs := [];
    for k := 0 to |s.mappings|
      invariant IsDelta(m, target, mode, cs, MapOf(s.mappings[..k]).Keys)
    {
      MappingTarget(s, added, k);
      var more := DeltaMemoryMapping(m, s.mappings[k], added, target, mode);
      ConcatDelta(m, target, mode, cs, MapOf(s.mappings[..k]).Keys, more,
                  Range(s.mappings[k].start, s.mappings[k].Limit()));
      cs := cs + more;
    }
    assert s.mappings[..|s.mappings|] == s.mappings;
  }

  const READABLE := Perms(true, false, false, false)

  // The command for a range that the snapshot does not have, if any is needed.
  function UnusedCommand(run: Run<Perms>, mode: Mode): Option<Command> {
    var size := if run.start <= run.limit then run.limit - run.start else 0;
    match mode
    case UnmapUnused => Some(Command(MemoryMapping(run.start, size, READABLE), Unmap))
    case ProtectUnused =>
      if run.value.HasSomeOf(ALL) then Some(Command(MemoryMapping(run.start, size, NONE), Protect)) else None
  }

  lemma UnusedRun(m: map<nat, Perms>, target: map<nat, Perms>, i: nat)
    requires i < |Runs(m - target.Keys)|
    ensures var runs := Runs(m - target.Keys);
            && runs[i].start < runs[i].limit
            && forall a: nat :: runs[i].Has(a) ==>
                 a !in Upto(target.Keys, runs, i) && a in m && a !in target && m[a] == runs[i].value
  {
    var unused := m - target.Keys;
    RunsAreRuns(unused, 0, MAX_ADDRESS);
    assert Within(Runs(unused)[i], unused, 0, MAX_ADDRESS);
    forall a: nat | Runs(unused)[i].Has(a)
      ensures a !in Upto(target.Keys, Runs(unused), i) && a in m && a !in target && m[a] == Runs(unused)[i].value
    {
      RunKeysFresh(unused, i, a);
    }
  }

  lemma UnusedStep(m: map<nat, Perms>, target: map<nat, Perms>, mode: Mode, cs: seq<Command>, i: nat)
    requires AllFlagged(m) && i < |Runs(m - target.Keys)|
    requires IsDelta(m, target, mode, cs, Upto(target.Keys, Runs(m - target.Keys), i))
    ensures var runs := Runs(m - target.Keys);
            var c := UnusedCommand(runs[i], mode);
            IsDelta(m, target, mode, if c.Some? then cs + [c.value] else cs, Upto(target.Keys, runs, i + 1))
  {
    var runs := Runs(m - target.Keys);
    var run, done := runs[i], Upto(target.Keys, runs, i);
    UnusedRun(m, target, i);
    UptoStep(target.Keys, runs, i);
    var c := UnusedCommand(run, mode);
    if c.Some? {
      StepByRun(m, target, mode, cs, target.Keys, runs, i, c.value);
    } else {
      SkipAddresses(m, target, mode, cs, done, Upto(target.Keys, runs, i + 1));
    }
  }

  // The address has the permissions of the snapshot and the added ones.
  ghost predicate AtTarget(now: map<nat, Perms>, s: State, added: Perms, a: nat)
    requires a in s.mapped
  {
    a in now && AsSet(now[a]) == AsSet(s.mapped[a]) + AsSet(added) + {IsMapped}
  }

  // An address that the snapshot does not have was unmapped, or lost its permissions.
  ghost predicate GivenUp(was: map<nat, Perms>, now: map<nat, Perms>, mode: Mode, a: nat) {
    if a in was && mode.ProtectUnused? then a in now && AsSet(now[a]) == {IsMapped} else a !in now
  }

  lemma TargetIs(s: State, added: Perms, now: map<nat, Perms>, a: nat)
    requires a in s.mapped && a in now && now[a] == s.mapped[a].Plus(added).Plus(MAPPED)
    ensures AtTarget(now, s, added, a)
  {
    SetLaws(s.mapped[a], added);
    SetLaws(s.mapped[a].Plus(added), MAPPED);
    SameSets(AsSet(MAPPED), {IsMapped});
  }

  lemma GivenUpIs(m: map<nat, Perms>, target: map<nat, Perms>, mode: Mode, a: nat)
    requires a !in target
    ensures GivenUp(m, Reached(m, target, mode), mode, a)
  {
    SameSets(AsSet(MAPPED), {IsMapped});
  }

  // The commands that make the memory exactly that of the snapshot.
  method DeltaMemoryMappingsExact(m: map<nat, Perms>, s: State, added: Perms, mode: Mode) returns (cs: seq<Command>)
    requires AllFlagged(m) && InSpace(m) && Consistent(s) && !added.mapped
    ensures IsDelta(m, Target(s, added), mode, cs, m.Keys + s.mapped.Keys)
    ensures AppliedAll(m, cs) == Reached(m, Target(s, added), mode)
    ensures forall a: nat :: a in s.mapped ==> AtTarget(AppliedAll(m, cs), s, added, a)
    ensures forall a: nat :: a !in s.mapped ==> GivenUp(m, AppliedAll(m, cs), mode, a)
  {
    ghost var target := Target(s, added);
    cs := DeltaOfMappings(m, s, added, mode);
    var unused := m - s.mapped.Keys;
    if m != map[] {
      var runs := Runs(unused);
      UptoAll(target.Keys, unused);
      for i := 0 to |runs|
        invariant IsDelta(m, target, mode, cs, Upto(target.Keys, runs, i))
      {
        UnusedStep(m, target, mode, cs, i);
        var c := UnusedCommand(runs[i], mode);
        if c.Some? {
          cs := cs + [c.value];
        }
      }
    }
    UsedAndUnused(m, target);
    DeltaReaches(m, target, mode, cs);
    forall a: nat | a in s.mapped ensures AtTarget(AppliedAll(m, cs), s, added, a) {
      TargetIs(s, added, AppliedAll(m, cs), a);
    }
    forall a: nat | a !in s.mapped ensures GivenUp(m, AppliedAll(m, cs), mode, a) {
      GivenUpIs(m, target, mode, a);
    }
  }

  lemma UsedAndUnused(m: map<nat, Perms>, target: map<nat, Perms>)
    ensures target.Keys + (m - target.Keys).Keys == m.Keys + target.Keys
  {
  }

  predicate Below(p: Perms, q: Perms) {
    p.Minus(q).IsEmpty()
  }

  lemma {:induction false} CommonBelow(m: map<nat, Perms>, start: nat, limit: nat, a: nat)
    requires start <= a < limit && a in m
    ensures Below(CommonPerms(m, start, limit), m[a])
    decreases limit - start
  {
    if start < a {
      CommonBelow(m, start + 1, limit, a);
    }
  }

  // Where the memory has permissions that the snapshot must not have, outside of its mappings.
  function Forbidden(m: map<nat, Perms>, s: State): map<nat, Perms> {
    IntersectionOf(m, s.negativeMapped - s.mapped.Keys)
  }

  function SoftPerms(m: map<nat, Perms>, run: Run<Perms>): Perms {
    CommonPerms(m, run.start, run.limit).Minus(run.value).Minus(MAPPED)
  }

  // The run that has an address.
  function RunAt(m: map<nat, Perms>, a: nat): (run: Run<Perms>)
    requires a in m && a < MAX_ADDRESS
    ensures run.Has(a) && run in Runs(m)
  {
    RunsAreRuns(m, 0, MAX_ADDRESS);
    var i := LowerBound(Runs(m), a);
    RunFound(m, a);
    Runs(m)[i]
  }

  lemma RunFound(m: map<nat, Perms>, a: nat)
    requires a in m && a < MAX_ADDRESS
    ensures LowerBound(Runs(m), a) < |Runs(m)| && Runs(m)[LowerBound(Runs(m), a)].Has(a)
  {
    var runs := Runs(m);
    RunsAreRuns(m, 0, MAX_ADDRESS);
    assert Covered(runs, a);
    var j: nat :| InRun(runs, a, j);
    OnlyRun(runs, m, MAX_ADDRESS, a, LowerBound(runs, a));
  }

  // The memory that the commands for a snapshot with negative mappings lead to.
  function SoftTarget(m: map<nat, Perms>, s: State, added: Perms): (target: map<nat, Perms>)
    requires InSpace(m)
    ensures target.Keys == m.Keys + s.mapped.Keys
  {
    map a | a in m.Keys + s.mapped.Keys ::
      if a in s.mapped then s.mapped[a].Plus(added).Plus(MAPPED)
      else if a in Forbidden(m, s) then SoftPerms(m, RunAt(Forbidden(m, s), a)).Plus(MAPPED)
      else m[a]
  }

  // Afterwards no forbidden permission remains outside of the mappings, and none was added.
  lemma SoftTargetSafe(m: map<nat, Perms>, s: State, added: Perms, a: nat)
    requires InSpace(m) && AllFlagged(m) && AllUnflagged(s.negativeMapped) && a in m && a !in s.mapped
    ensures Below(SoftTarget(m, s, added)[a], m[a])
    ensures a in s.negativeMapped ==> !SoftTarget(m, s, added)[a].HasSomeOf(s.negativeMapped[a])
    ensures a !in s.negativeMapped ==> SoftTarget(m, s, added)[a] == m[a]
  {
    var forbidden := Forbidden(m, s);
    if a in forbidden {
      var run := RunAt(forbidden, a);
      RunsAreRuns(forbidden, 0, MAX_ADDRESS);
      var i: nat :| i < |Runs(forbidden)| && Runs(forbidden)[i] == run;
      assert Within(run, forbidden, 0, MAX_ADDRESS);
      CommonBelow(m, run.start, run.limit, a);
    }
  }

  // The largest range around an address where the map has the same value.
  ghost predicate SpanOf(m: map<nat, Perms>, a: nat, lo: nat, hi: nat) {
    && lo <= a < hi && a in m && (forall b: nat :: lo <= b < hi ==> b in m && m[b] == m[a])
    && (lo > 0 && lo - 1 in m ==> m[lo - 1] != m[a]) && (hi in m ==> m[hi] != m[a])
  }

  lemma RunIsSpan(m: map<nat, Perms>, a: nat)
    requires a in m && InSpace(m)
    ensures SpanOf(m, a, RunAt(m, a).start, RunAt(m, a).limit)
  {
    var runs, run := Runs(m), RunAt(m, a);
    RunsAreRuns(m, 0, MAX_ADDRESS);
    var i: nat :| i < |runs| && runs[i] == run;
    assert Within(run, m, 0, MAX_ADDRESS);
    if run.start > 0 && run.start - 1 in m {
      NextRunDiffers(m, run.start - 1, i);
    }
    if run.limit in m {
      PreviousRunDiffers(m, run.limit, i);
    }
  }

  lemma NextRunDiffers(m: map<nat, Perms>, b: nat, i: nat)
    requires InSpace(m) && b in m && i < |Runs(m)| && b + 1 == Runs(m)[i].start
    ensures m[b] != Runs(m)[i].value
  {
    var runs := Runs(m);
    RunsAreRuns(m, 0, MAX_ADDRESS);
    assert Covered(runs, b);
    var j: nat :| InRun(runs, b, j);
    assert Within(runs[j], m, 0, MAX_ADDRESS) && Within(runs[i], m, 0, MAX_ADDRESS);
    if i < j {
      RunsOrdered(runs, m, 0, MAX_ADDRESS, i, j);
    } else if j + 1 < i {
      RunsOrdered(runs, m, 0, MAX_ADDRESS, j, j + 1);
      RunsOrdered(runs, m, 0, MAX_ADDRESS, j + 1, i);
    } else {
      assert SplitAt(runs, j);
    }
  }

  lemma PreviousRunDiffers(m: map<nat, Perms>, b: nat, i: nat)
    requires InSpace(m) && b in m && i < |Runs(m)| && b == Runs(m)[i].limit
    ensures m[b] != Runs(m)[i].value
  {
    var runs := Runs(m);
    RunsAreRuns(m, 0, MAX_ADDRESS);
    assert Covered(runs, b);
    var j: nat :| InRun(runs, b, j);
    assert Within(runs[j], m, 0, MAX_ADDRESS) && Within(runs[i], m, 0, MAX_ADDRESS);
    if j < i {
      RunsOrdered(runs, m, 0, MAX_ADDRESS, j, i);
    } else if i + 1 < j {
      RunsOrdered(runs, m, 0, MAX_ADDRESS, i, i + 1);
      RunsOrdered(runs, m, 0, MAX_ADDRESS, i + 1, j);
    } else {
      assert SplitAt(runs, i);
    }
  }

  // Which permissions are forbidden where.
  lemma ForbiddenIs(m: map<nat, Perms>, s: State, a: nat)
    ensures At(Forbidden(m, s), a) == if a in s.mapped then {} else At(m, a) * At(s.negativeMapped, a)
    ensures a in Forbidden(m, s) <==> a !in s.mapped && At(m, a) * At(s.negativeMapped, a) != {}
  {
    Intersection(m, s.negativeMapped - s.mapped.Keys, a);
  }

  // Where permissions are forbidden, those are left that all addresses with the same forbidden ones around it
  // have, without the forbidden ones.
  lemma SoftTargetIs(m: map<nat, Perms>, s: State, added: Perms, a: nat, lo: nat, hi: nat, k: Perm)
    requires InSpace(m) && AllFlagged(m) && AllUnflagged(s.negativeMapped)
    requires a in Forbidden(m, s) && SpanOf(Forbidden(m, s), a, lo, hi)
    ensures k in At(SoftTarget(m, s, added), a) <==>
            k !in At(s.negativeMapped, a) && AllHave(m, lo, hi, k)
  {
    ForbiddenIs(m, s, a);
    SpanIsRun(Forbidden(m, s), a, lo, hi);
    var run := Run(lo, hi, Forbidden(m, s)[a]);
    SoftTargetAt(m, s, added, a, run);
    if k == IsMapped {
      AllMapped(m, s, lo, hi);
    }
    LeftOver(m, run, At(s.negativeMapped, a), a, k);
  }

  lemma SoftTargetAt(m: map<nat, Perms>, s: State, added: Perms, a: nat, run: Run<Perms>)
    requires InSpace(m) && a in Forbidden(m, s) && run == RunAt(Forbidden(m, s), a)
    ensures At(SoftTarget(m, s, added), a) == AsSet(SoftPerms(m, run).Plus(MAPPED))
  {
  }

  lemma SpanIsRun(m: map<nat, Perms>, a: nat, lo: nat, hi: nat)
    requires InSpace(m) && SpanOf(m, a, lo, hi)
    ensures RunAt(m, a) == Run(lo, hi, m[a])
  {
    var run := RunAt(m, a);
    RunIsSpan(m, a);
    assert run.start == lo && run.limit == hi;
    RunsAreRuns(m, 0, MAX_ADDRESS);
    var i: nat :| i < |Runs(m)| && Runs(m)[i] == run;
    assert Within(run, m, 0, MAX_ADDRESS);
  }

  lemma LeftOver(m: map<nat, Perms>, run: Run<Perms>, negative: set<Perm>, a: nat, k: Perm)
    requires run.Has(a) && AsSet(run.value) == At(m, a) * negative
    ensures k in AsSet(SoftPerms(m, run).Plus(MAPPED)) <==>
            k == IsMapped || (k !in negative && AllHave(m, run.start, run.limit, k))
  {
    SoftPermsAre(m, run, k);
  }

  lemma SoftPermsAre(m: map<nat, Perms>, run: Run<Perms>, k: Perm)
    ensures k in AsSet(SoftPerms(m, run).Plus(MAPPED)) <==>
            k == IsMapped || (k !in AsSet(run.value) && AllHave(m, run.start, run.limit, k))
  {
    var common := CommonPerms(m, run.start, run.limit);
    Common(m, run.start, run.limit, k);
    SetLaws(common, run.value);
    SetLaws(common.Minus(run.value), MAPPED);
    SetLaws(SoftPerms(m, run), MAPPED);
    SameSets(AsSet(MAPPED), {IsMapped});
  }

  lemma AllMapped(m: map<nat, Perms>, s: State, lo: nat, hi: nat)
    requires AllFlagged(m) && AllUnflagged(s.negativeMapped) && forall b: nat :: lo <= b < hi ==> b in Forbidden(m, s)
    ensures AllHave(m, lo, hi, IsMapped)
    ensures forall b: nat :: lo <= b < hi ==> IsMapped !in At(s.negativeMapped, b)
  {
    forall b: nat | lo <= b < hi ensures IsMapped in At(m, b) && IsMapped !in At(s.negativeMapped, b) {
      assert b in Forbidden(m, s);
      AsSetHas(m[b]);
      AsSetHas(s.negativeMapped[b]);
    }
  }

  ghost predicate AllUnflagged(m: map<nat, Perms>) {
    forall a: nat :: a in m ==> !m[a].mapped
  }

  // Commands depend on the target at their own addresses only.
  lemma Retarget(m: map<nat, Perms>, target: map<nat, Perms>, other: map<nat, Perms>, mode: Mode, cs: seq<Command>,
                 done: set<nat>)
    requires IsDelta(m, target, mode, cs, done)
    requires forall a: nat :: a in done ==> a in target && a in other && target[a] == other[a]
    ensures IsDelta(m, other, mode, cs, done)
  {
    forall i | 0 <= i < |cs| ensures CommandAllOk(m, other, mode, cs[i], done) {
      assert CommandAllOk(m, target, mode, cs[i], done);
      forall a: nat | cs[i].mapping.Has(a) ensures a in done && CommandOk(m, other, mode, cs[i], a) {
        assert CommandOk(m, target, mode, cs[i], a);
      }
    }
  }

  lemma RunAtIs(m: map<nat, Perms>, a: nat, i: nat)
    requires a in m && a < MAX_ADDRESS && i < |Runs(m)| && Runs(m)[i].Has(a)
    ensures RunAt(m, a) == Runs(m)[i]
  {
    var runs := Runs(m);
    RunsAreRuns(m, 0, MAX_ADDRESS);
    var j := LowerBound(runs, a);
    RunFound(m, a);
    if j < i {
      RunsOrdered(runs, m, 0, MAX_ADDRESS, j, i);
    }
  }

  function SoftCommand(m: map<nat, Perms>, run: Run<Perms>): Command {
    var size := if run.start <= run.limit then run.limit - run.start else 0;
    Command(MemoryMapping(run.start, size, SoftPerms(m, run)), Protect)
  }

  lemma SoftCommandOk(m: map<nat, Perms>, s: State, added: Perms, i: nat, a: nat)
    requires AllFlagged(m) && InSpace(m) && AllUnflagged(s.negativeMapped)
    requires i < |Runs(Forbidden(m, s))| && Runs(Forbidden(m, s))[i].Has(a)
    ensures a in m && a !in s.mapped && a !in RunKeys(Runs(Forbidden(m, s))[..i])
    ensures CommandOk(m, SoftTarget(m, s, added), UnmapUnused, SoftCommand(m, Runs(Forbidden(m, s))[i]), a)
  {
    var forbidden := Forbidden(m, s);
    RunKeysFresh(forbidden, i, a);
    RunAtIs(forbidden, a, i);
    SoftTargetSafe(m, s, added, a);
  }

  lemma SoftStep(m: map<nat, Perms>, s: State, added: Perms, cs: seq<Command>, i: nat)
    requires AllFlagged(m) && InSpace(m) && AllUnflagged(s.negativeMapped) && i < |Runs(Forbidden(m, s))|
    requires IsDelta(m, SoftTarget(m, s, added), UnmapUnused, cs, Upto(s.mapped.Keys, Runs(Forbidden(m, s)), i))
    ensures var runs := Runs(Forbidden(m, s));
            IsDelta(m, SoftTarget(m, s, added), UnmapUnused, cs + [SoftCommand(m, runs[i])],
                    Upto(s.mapped.Keys, runs, i + 1))
  {
    var forbidden, target := Forbidden(m, s), SoftTarget(m, s, added);
    var runs := Runs(forbidden);
    var c := SoftCommand(m, runs[i]);
    RunsAreRuns(forbidden, 0, MAX_ADDRESS);
    assert Within(runs[i], forbidden, 0, MAX_ADDRESS);
    forall a: nat | runs[i].Has(a)
      ensures a !in Upto(s.mapped.Keys, runs, i) && CommandOk(m, target, UnmapUnused, c, a)
    {
      SoftCommandOk(m, s, added, i, a);
    }
    StepByRun(m, target, UnmapUnused, cs, s.mapped.Keys, runs, i, c);
  }

  // The commands for the forbidden permissions.
  method DeltaOfForbidden(m: map<nat, Perms>, s: State, ghost added: Perms, start: seq<Command>)
    returns (cs: seq<Command>)
    requires AllFlagged(m) && InSpace(m) && AllUnflagged(s.negativeMapped)
    requires IsDelta(m, SoftTarget(m, s, added), UnmapUnused, start, s.mapped.Keys)
    ensures IsDelta(m, SoftTarget(m, s, added), UnmapUnused, cs, s.mapped.Keys + Forbidden(m, s).Keys)
  {
    cs := start;
    var runs := Runs(Forbidden(m, s));
    UptoAll(s.mapped.Keys, Forbidden(m, s));
    for i := 0 to |runs|
      invariant IsDelta(m, SoftTarget(m, s, added), UnmapUnused, cs, Upto(s.mapped.Keys, runs, i))
    {
      SoftStep(m, s, added, cs, i);
      cs := cs + [SoftCommand(m, runs[i])];
    }
  }

  lemma SoftRest(m: map<nat, Perms>, s: State, added: Perms, cs: seq<Command>)
    requires InSpace(m)
    requires IsDelta(m, SoftTarget(m, s, added), UnmapUnused, cs, s.mapped.Keys + Forbidden(m, s).Keys)
    ensures IsDelta(m, SoftTarget(m, s, added), UnmapUnused, cs, m.Keys + s.mapped.Keys)
    ensures AppliedAll(m, cs) == SoftTarget(m, s, added)
  {
    var target := SoftTarget(m, s, added);
    SkipAddresses(m, target, UnmapUnused, cs, s.mapped.Keys + Forbidden(m, s).Keys, m.Keys + target.Keys);
    assert m.Keys + target.Keys == m.Keys + s.mapped.Keys;
    DeltaReaches(m, target, UnmapUnused, cs);
  }

  lemma NothingForbidden(m: map<nat, Perms>, s: State)
    requires s.negativeMapped == map[] || m == map[]
    ensures s.mapped.Keys + Forbidden(m, s).Keys == s.mapped.Keys
  {
  }

  // The commands for the mappings and the negative mappings of a snapshot.
  method DeltaMemoryMappings(m: map<nat, Perms>, s: State, added: Perms) returns (cs: seq<Command>)
    requires AllFlagged(m) && InSpace(m) && Consistent(s) && !added.mapped
    ensures IsDelta(m, SoftTarget(m, s, added), UnmapUnused, cs, m.Keys + s.mapped.Keys)
    ensures AppliedAll(m, cs) == SoftTarget(m, s, added)
    ensures forall a: nat :: a in s.mapped ==> AtTarget(AppliedAll(m, cs), s, added, a)
  {
    cs := DeltaOfMappings(m, s, added, UnmapUnused);
    Retarget(m, Target(s, added), SoftTarget(m, s, added), UnmapUnused, cs, s.mapped.Keys);
    MapOfGrantable(s.negative);
    if s.negative != [] && m != map[] {
      cs := DeltaOfForbidden(m, s, added, cs);
    } else {
      NothingForbidden(m, s);
    }
    SoftRest(m, s, added, cs);
    forall a: nat | a in s.mapped ensures AtTarget(AppliedAll(m, cs), s, added, a) {
      TargetIs(s, added, AppliedAll(m, cs), a);
    }
  }
}
