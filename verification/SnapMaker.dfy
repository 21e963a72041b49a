/** Adding the memory that a snapshot turns out to need (runner/snap_maker.cc). */
module SnapMaker {
  import opened Basics
  import opened Memory
  import opened MappedMemory
  import opened Normalize
  import opened SnapshotState
  import opened SnapshotGuards
  import opened Snapshots
  import opened SnapshotMeaning
  import opened MemoryStates
  import DeltaMappings

  const RW := Perms(true, true, false, false)

  // The addresses of an end state that the snapshot does not map.
  function NewData(s: State, e: EndState): (m: map<nat, Perms>)
    ensures m.Keys == Addresses(e.bytes) - s.mapped.Keys
  {
    map a | a in Addresses(e.bytes) - s.mapped.Keys :: RW
  }

  // The addresses of a list of bytes.
  method AddressSet(list: seq<MemoryBytes>) returns (data: set<nat>)
    ensures data == Addresses(list)
  {
    data := {};
    for k := 0 to |list|
      invariant data == Addresses(list[..k])
    {
      assert list[..k + 1][..k] == list[..k];
      data := data + Range(list[k].start, list[k].Limit());
    }
    assert list[..|list|] == list;
  }

  // The mappings that are missing for an end state.
  method DataMappingDelta(s: State, e: EndState) returns (list: seq<MemoryMapping>)
    requires Consistent(s) && AllValid(e.bytes) && Disjoint(e.bytes)
    ensures list == SortedMappings(NewData(s, e))
  {
    var all := AddressSet(e.bytes);
    var data := all;
    for k := 0 to |s.mappings|
      invariant data == all - MapOf(s.mappings[..k]).Keys
    {
      DeltaMappings.PrefixKeys(s.mappings, k);
      data := data - Range(s.mappings[k].start, s.mappings[k].Limit());
    }
    assert s.mappings[..|s.mappings|] == s.mappings;
    list := ListOf(map a | a in data :: RW);
    assert (map a | a in data :: RW) == NewData(s, e);
  }

  // All ranges that the delta finds can be made into mappings.
  lemma DeltaMappingsValid(s: State, e: EndState, i: nat)
    requires AllValid(e.bytes) && Disjoint(e.bytes) && i < |SortedMappings(NewData(s, e))|
    ensures SortedMappings(NewData(s, e))[i].Valid() && SortedMappings(NewData(s, e))[i].perms == RW
  {
    var m := NewData(s, e);
    RunsAreRuns(m, 0, MAX_ADDRESS);
    assert Within(Runs(m)[i], m, 0, MAX_ADDRESS);
    assert Runs(m)[i].start in m;
  }

  function AddZeroed(s: State, x: MemoryMapping): State {
    s.AddMapping(x).AddBytes(ZeroBytes(x.start, x.size))
  }

  predicate CanAddZeroed(s: State, x: MemoryMapping, reserved: map<nat, Perms>) {
    && Aligned(x.start) && Aligned(x.Limit()) && !Overlaps(reserved, x) && s.CanAddMapping(x)
    && s.AddMapping(x).CanAddBytes(ZeroBytes(x.start, x.size))
  }

  // A list of mappings with zeros, or None if one of them cannot be added.
  function AddAllZeroed(s: State, list: seq<MemoryMapping>, reserved: map<nat, Perms>): Option<State>
    decreases |list|
  {
    if list == [] then Some(s)
    else if CanAddZeroed(s, list[0], reserved) then AddAllZeroed(AddZeroed(s, list[0]), list[1..], reserved)
    else None
  }

  // Adds mappings filled with zeros.  A failure leaves those before it added.
  method AddMemoryMappings(snap: Snapshot, list: seq<MemoryMapping>, reserved: map<nat, Perms>) returns (ok: bool)
    requires snap.Valid() && forall i :: 0 <= i < |list| ==> list[i].Valid()
    modifies snap
    ensures snap.Valid() && ok == AddAllZeroed(old(snap.View()), list, reserved).Some?
    ensures ok ==> snap.View() == AddAllZeroed(old(snap.View()), list, reserved).value
  {
    for k := 0 to |list|
      invariant snap.Valid()
      invariant AddAllZeroed(old(snap.View()), list, reserved) == AddAllZeroed(snap.View(), list[k..], reserved)
    {
      assert list[k..][0] == list[k] && list[k..][1..] == list[k + 1..];
      var x := list[k];
      if !Aligned(x.start) || !Aligned(x.Limit()) || Overlaps(reserved, x) || !snap.View().CanAddMapping(x) {
        return false;
      }
      snap.AddMemoryMapping(x);
      var zeros := ZeroBytes(x.start, x.size);
      if !snap.View().CanAddBytes(zeros) {
        return false;
      }
      snap.AddMemoryBytes(zeros);
    }
    return true;
  }

  // What adding mappings with zeros changes: exactly their addresses become mapped, readable and
  // writable, and zero.
  ghost predicate ZeroFilled(s: State, t: State, list: seq<MemoryMapping>) {
    && (forall a: nat :: a in t.mapped <==> a in s.mapped || AmongMappings(list, a))
    && (forall a: nat :: a in s.mapped ==> a in t.mapped && t.mapped[a] == s.mapped[a])
    && (forall a: nat :: a in t.mapped && a !in s.mapped ==> t.mapped[a] == Perms(true, true, false, false))
    && (forall a: nat :: a in Content(t.bytes) <==> a in Content(s.bytes) || AmongMappings(list, a))
    && (forall a: nat :: a in Content(s.bytes) ==> a in Content(t.bytes) && Content(t.bytes)[a] == Content(s.bytes)[a])
    && (forall a: nat :: a in Content(t.bytes) && a !in Content(s.bytes) ==> Content(t.bytes)[a] == 0)
    && t.negativeMapped == s.negativeMapped && t.registers == s.registers && t.endStates == s.endStates
  }

  lemma AmongFirst(list: seq<MemoryMapping>, a: nat)
    requires list != []
    ensures AmongMappings(list, a) <==> list[0].Has(a) || AmongMappings(list[1..], a)
  {
    if AmongMappings(list, a) {
      var i: nat :| InMapping(list, a, i);
      assert i > 0 ==> InMapping(list[1..], a, i - 1);
    }
    if list[0].Has(a) {
      assert InMapping(list, a, 0);
    }
    if AmongMappings(list[1..], a) {
      var i: nat :| InMapping(list[1..], a, i);
      assert InMapping(list, a, i + 1);
    }
  }

  // Nothing is written yet where nothing is mapped.
  lemma ZerosFit(s: State, x: MemoryMapping)
    requires Consistent(s) && !Overlaps(s.mapped, x)
    ensures s.AddMapping(x).CanAddBytes(ZeroBytes(x.start, x.size))
  {
  }

  lemma AddZeroedContent(list: seq<MemoryBytes>, x: MemoryMapping)
    ensures Content(list + [ZeroBytes(x.start, x.size)]) == Content(list) + Zeros(Range(x.start, x.Limit()))
  {
    assert (list + [ZeroBytes(x.start, x.size)])[..|list|] == list;
    WriteZeros(Content(list), x.start, x.size);
  }

  lemma AddZeroedKeeps(codec: Codec, s: State, x: MemoryMapping)
    requires Guarded(codec, s) && x.Valid() && s.CanAddMapping(x)
    ensures Guarded(codec, AddZeroed(s, x))
  {
    AddMappingKeeps(codec, s, x);
    ZerosFit(s, x);
    AddBytesKeeps(codec, s.AddMapping(x), ZeroBytes(x.start, x.size));
  }

  // One mapping after the others.
  lemma ZeroFilledStep(s: State, t: State, u: State, list: seq<MemoryMapping>)
    requires list != [] && list[0].perms == RW && !Overlaps(s.mapped, list[0]) && Addresses(s.bytes) <= s.mapped.Keys
    requires t == AddZeroed(s, list[0]) && ZeroFilled(t, u, list[1..])
    ensures ZeroFilled(s, u, list)
  {
    var x := list[0];
    AddZeroedContent(s.bytes, x);
    forall a: nat
      ensures a in u.mapped <==> a in s.mapped || AmongMappings(list, a)
      ensures a in Content(u.bytes) <==> a in Content(s.bytes) || AmongMappings(list, a)
    {
      AmongFirst(list, a);
    }
  }

  lemma {:induction false} AddAllZeroedFacts(codec: Codec, s: State, list: seq<MemoryMapping>,
                                             reserved: map<nat, Perms>)
    requires Guarded(codec, s) && forall i :: 0 <= i < |list| ==> list[i].Valid() && list[i].perms == RW
    requires AddAllZeroed(s, list, reserved).Some?
    ensures Guarded(codec, AddAllZeroed(s, list, reserved).value) &&
            ZeroFilled(s, AddAllZeroed(s, list, reserved).value, list)
    decreases |list|
  {
    if list != [] {
      var t := AddZeroed(s, list[0]);
      AddZeroedKeeps(codec, s, list[0]);
      AddAllZeroedFacts(codec, t, list[1..], reserved);
      ZeroFilledStep(s, t, AddAllZeroed(s, list, reserved).value, list);
    }
  }

  // Reserved memory is never added.
  lemma {:induction false} NotReserved(s: State, list: seq<MemoryMapping>, reserved: map<nat, Perms>, a: nat)
    requires AddAllZeroed(s, list, reserved).Some? && AmongMappings(list, a)
    ensures a !in reserved
    decreases |list|
  {
    AmongFirst(list, a);
    if !list[0].Has(a) {
      NotReserved(AddZeroed(s, list[0]), list[1..], reserved, a);
    }
  }

  // Exactly the addresses of the end state became mapped, besides those that were; old mappings stay
  // as they are, new ones are zero, and if all mapped memory had bytes it still has.
  ghost predicate DataAdded(s: State, t: State, e: EndState) {
    && t.mapped.Keys == s.mapped.Keys + Addresses(e.bytes)
    && (forall a: nat :: a in s.mapped ==> a in t.mapped && t.mapped[a] == s.mapped[a])
    && (forall a: nat :: a in t.mapped && a !in s.mapped ==>
          t.mapped[a] == Perms(true, true, false, false) && a in Content(t.bytes) && Content(t.bytes)[a] == 0)
    && (s.mapped.Keys <= s.written ==> t.mapped.Keys <= t.written)
  }

  lemma DataDeltaExact(codec: Codec, s: State, e: EndState, reserved: map<nat, Perms>)
    requires Guarded(codec, s) && AllValid(e.bytes) && Disjoint(e.bytes)
    requires AddAllZeroed(s, SortedMappings(NewData(s, e)), reserved).Some?
    ensures var t := AddAllZeroed(s, SortedMappings(NewData(s, e)), reserved).value;
            Guarded(codec, t) && DataAdded(s, t, e)
  {
    var list := SortedMappings(NewData(s, e));
    forall i | 0 <= i < |list| ensures list[i].Valid() && list[i].perms == RW {
      DeltaMappingsValid(s, e, i);
    }
    AddAllZeroedFacts(codec, s, list, reserved);
    DataFilled(s, AddAllZeroed(s, list, reserved).value, e, list);
  }

  lemma DataFilled(s: State, t: State, e: EndState, list: seq<MemoryMapping>)
    requires AllValid(e.bytes) && Disjoint(e.bytes) && list == SortedMappings(NewData(s, e))
    requires Consistent(s) && Consistent(t) && ZeroFilled(s, t, list)
    ensures DataAdded(s, t, e)
  {
    ContentInSpace(e.bytes);
    forall a: nat ensures AmongMappings(list, a) <==> a in Addresses(e.bytes) && a !in s.mapped {
      AmongSorted(NewData(s, e), a);
    }
  }

  lemma DataNotReserved(s: State, e: EndState, reserved: map<nat, Perms>, a: nat)
    requires AllValid(e.bytes) && Disjoint(e.bytes) && a in Addresses(e.bytes) && a !in s.mapped
    requires AddAllZeroed(s, SortedMappings(NewData(s, e)), reserved).Some?
    ensures a !in reserved
  {
    ContentInSpace(e.bytes);
    AmongSorted(NewData(s, e), a);
    NotReserved(s, SortedMappings(NewData(s, e)), reserved, a);
  }

  lemma AmongSorted(m: map<nat, Perms>, a: nat)
    requires InSpace(m)
    ensures AmongMappings(SortedMappings(m), a) <==> a in m
  {
    var runs, list := Runs(m), SortedMappings(m);
    RunsAreRuns(m, 0, MAX_ADDRESS);
    if a in m {
      assert Covered(runs, a);
      var i: nat :| InRun(runs, a, i);
      assert InMapping(list, a, i);
    }
    if AmongMappings(list, a) {
      var i: nat :| InMapping(list, a, i);
      assert Within(runs[i], m, 0, MAX_ADDRESS);
    }
  }

  // An address of the page can get writable memory: it is in the address space, and not mapped, reserved or
  // negative for reading or writing.
  predicate IsFree(s: State, reserved: map<nat, Perms>, b: nat) {
    && b < 0xFFFF_FFFF_FFFF_FFFF && b !in s.mapped && b !in reserved
    && (b in s.negativeMapped ==> !s.negativeMapped[b].r && !s.negativeMapped[b].w)
  }

  ghost predicate PageIsFree(s: State, reserved: map<nat, Perms>, a: nat) {
    forall b: nat :: b / 4096 == a / 4096 ==> IsFree(s, reserved, b)
  }

  lemma OnPage(a: Address, b: nat)
    ensures PageOf(a).Has(b) <==> b / 4096 == a / 4096
  {
  }

  lemma PageFree(s: State, reserved: map<nat, Perms>, a: Address)
    requires Consistent(s)
    ensures PageIsFree(s, reserved, a) <==> PageOf(a).Valid() && AddAllZeroed(s, [PageOf(a)], reserved).Some?
  {
    var page := PageOf(a);
    assert [page][1..] == [];
    if PageIsFree(s, reserved, a) {
      OnPage(a, page.start + 4095);
      assert IsFree(s, reserved, page.start + 4095);
    }
    if page.Valid() {
      PageAccepted(s, reserved, a);
      if !Overlaps(s.mapped, page) {
        ZerosFit(s, page);
      }
    }
  }

  lemma PageAccepted(s: State, reserved: map<nat, Perms>, a: Address)
    requires PageOf(a).Valid()
    ensures PageIsFree(s, reserved, a) <==> !Overlaps(reserved, PageOf(a)) && s.CanAddMapping(PageOf(a))
  {
    var page := PageOf(a);
    MappingAccepted(s, page);
    if PageIsFree(s, reserved, a) {
      forall b: nat ensures page.start <= b < page.Limit() ==> IsFree(s, reserved, b) {
        OnPage(a, b);
      }
      assert forall b: nat :: b in reserved && page.start <= b < page.Limit() ==> !IsFree(s, reserved, b);
      assert forall b: nat :: b in s.mapped && page.start <= b < page.Limit() ==> !IsFree(s, reserved, b);
      assert IsFresh(s.mapped, page);
      forall b: nat | b in s.negativeMapped && page.start <= b < page.start + page.size
        ensures !s.negativeMapped[b].r && !s.negativeMapped[b].w
      {
        assert IsFree(s, reserved, b);
      }
    }
    if !Overlaps(reserved, page) && s.CanAddMapping(page) {
      forall b: nat | b / 4096 == a / 4096 ensures IsFree(s, reserved, b) {
        OnPage(a, b);
      }
    }
  }

  // Adds the page of an address.
  method AddWritableMemoryForAddress(snap: Snapshot, a: Address, reserved: map<nat, Perms>) returns (ok: bool)
    requires snap.Valid()
    modifies snap
    ensures snap.Valid()
    ensures ok == PageIsFree(old(snap.View()), reserved, a)
    ensures ok ==> a !in old(snap.mapped) && a in snap.mapped && snap.mapped[a] == RW
    ensures ok ==> forall b: nat :: b in snap.mapped <==> b in old(snap.mapped) || b / 4096 == a / 4096
    ensures ok ==> ZeroFilled(old(snap.View()), snap.View(), [PageOf(a)])
  {
    var page := PageOf(a);
    PageFree(snap.View(), reserved, a);
    if !page.Valid() {
      return false;
    }
    ok := AddMemoryMappings(snap, [page], reserved);
    if ok {
      AddAllZeroedFacts(snap.codec, old(snap.View()), [page], reserved);
      assert InMapping([page], a, 0);
      forall b: nat ensures AmongMappings([page], b) <==> b / 4096 == a / 4096 {
        OnPage(a, b);
        AmongFirst([page], b);
      }
    }
  }

  function PageOf(a: Address): (page: MemoryMapping)
    ensures page.Has(a)
  {
    MemoryMapping(a / PAGE_SIZE * PAGE_SIZE, PAGE_SIZE, RW)
  }

  datatype Outcome =
    | AsExpected | PlatformMismatch | MemoryMismatch | RegisterMismatch | EndpointMismatch | Runaway | Misbehave

  // A run of the runner: it succeeded, it failed, or the snapshot did not play as expected.
  datatype MakeResult = Success | Failure | Played(outcome: Outcome, endState: EndState) {
    // What the runner promises: a misbehaviour ends in a signal.
    ghost predicate Valid() {
      Played? ==> endState.Valid() && (outcome.Misbehave? ==> endState.endpoint.AtSignal?)
    }
  }

  datatype StopReason =
    | ReachedEndpoint | CannotAddMemory | TimeBudget | HardSigSegv | GeneralProtectionSigSegv | SigTrap | OtherSignal

  datatype Stopped = Stopped(endpoint: Endpoint, reason: StopReason)

  datatype Verdict = Error | Stop(stopped: Stopped) | AddPage(address: Address)

  // What a played snapshot means for the loop.
  function Judge(outcome: Outcome, e: Endpoint, compatible: bool, pagesAdded: nat, maxPages: nat): Verdict
    requires outcome.Misbehave? ==> e.AtSignal?
  {
    match outcome
    case MemoryMismatch => Stop(Stopped(e, ReachedEndpoint))
    case RegisterMismatch => Stop(Stopped(e, ReachedEndpoint))
    case Runaway => Stop(Stopped(e, TimeBudget))
    case Misbehave =>
      (match e.num
       case Trap => Stop(Stopped(e, SigTrap))
       case Segv =>
         (match e.cause
          case GeneralProtection => Stop(Stopped(e, GeneralProtectionSigSegv))
          case CantExec => Stop(Stopped(e, HardSigSegv))
          case Overflow => Stop(Stopped(e, HardSigSegv))
          case Generic => Stop(Stopped(e, HardSigSegv))
          case _ =>
            if !compatible || pagesAdded >= maxPages then Stop(Stopped(e, CannotAddMemory)) else AddPage(e.sigAddress))
       case _ => Stop(Stopped(e, OtherSignal)))
    case _ => Error
  }

  // The access failed because memory is missing that could be added.
  predicate LacksMemory(outcome: Outcome, e: Endpoint) {
    outcome.Misbehave? && e.AtSignal? && e.num.Segv? && (e.cause.CantRead? || e.cause.CantWrite?)
  }

  // Each reason to stop, and what it says about the run.
  ghost predicate ReasonFits(reason: StopReason, outcome: Outcome, e: Endpoint, compatible: bool, pagesAdded: nat,
                             maxPages: nat)
  {
    && (reason.ReachedEndpoint? <==> outcome.MemoryMismatch? || outcome.RegisterMismatch?)
    && (reason.TimeBudget? <==> outcome.Runaway?)
    && (reason.SigTrap? <==> outcome.Misbehave? && e.AtSignal? && e.num.Trap?)
    && (reason.GeneralProtectionSigSegv? <==>
          outcome.Misbehave? && e.AtSignal? && e.num.Segv? && e.cause.GeneralProtection?)
    && (reason.HardSigSegv? <==>
          && outcome.Misbehave? && e.AtSignal? && e.num.Segv?
          && (e.cause.CantExec? || e.cause.Overflow? || e.cause.Generic?))
    && (reason.CannotAddMemory? <==> LacksMemory(outcome, e) && (!compatible || pagesAdded >= maxPages))
    && (reason.OtherSignal? <==> outcome.Misbehave? && e.AtSignal? && !e.num.Trap? && !e.num.Segv?)
  }

  // When the loop fails, adds a page, and stops for which reason.
  lemma JudgeReasons(outcome: Outcome, e: Endpoint, compatible: bool, pagesAdded: nat, maxPages: nat)
    requires outcome.Misbehave? ==> e.AtSignal?
    ensures var v := Judge(outcome, e, compatible, pagesAdded, maxPages);
            && (v.Error? <==> outcome.AsExpected? || outcome.EndpointMismatch? || outcome.PlatformMismatch?)
            && (v.AddPage? <==> LacksMemory(outcome, e) && compatible && pagesAdded < maxPages)
            && (v.AddPage? ==> v.address == e.sigAddress)
            && (v.Stop? ==> v.stopped.endpoint == e)
            && (v.Stop? ==> ReasonFits(v.stopped.reason, outcome, e, compatible, pagesAdded, maxPages))
  {
  }

  // The preparation of a snapshot for the runner keeps it guarded.
  ghost predicate KeepsGuarded(codec: Codec, snapify: State -> Option<State>) {
    forall s: State :: Guarded(codec, s) && snapify(s).Some? ==>
      Guarded(codec, snapify(s).value) && snapify(s).value.arch == s.arch
  }

  method Prepare(snap: Snapshot, snapify: State -> Option<State>) returns (ok: bool)
    requires snap.Valid() && KeepsGuarded(snap.codec, snapify)
    modifies snap
    ensures snap.Valid() && ok == snapify(old(snap.View())).Some?
    ensures ok ==> snap.View() == snapify(old(snap.View())).value
  {
    var prepared := snapify(snap.View());
    if prepared.Some? {
      snap.Assign(prepared.value);
    }
    return prepared.Some?;
  }

  // What a run leaves behind: when the runner may add memory itself, the snapshot gets the mappings
  // that it added.
  ghost predicate Observed(shown: State, now: State, compatible: bool, result: MakeResult) {
    result.Played? && if compatible then now == shown else DataAdded(shown, now, result.endState)
  }

  // Looks at the result of a run.
  method Observe(snap: Snapshot, compatible: bool, result: MakeResult, reserved: map<nat, Perms>) returns (ok: bool)
    requires snap.Valid() && result.Valid()
    modifies snap
    ensures snap.Valid() && (ok ==> Observed(old(snap.View()), snap.View(), compatible, result))
  {
    if !result.Played? {
      return false;
    }
    if compatible {
      return true;
    }
    var missing := DataMappingDelta(snap.View(), result.endState);
    ok := AddDelta(snap, result.endState, missing, reserved);
  }

  method AddDelta(snap: Snapshot, e: EndState, missing: seq<MemoryMapping>, reserved: map<nat, Perms>)
    returns (ok: bool)
    requires snap.Valid() && AllValid(e.bytes) && Disjoint(e.bytes)
    requires missing == SortedMappings(NewData(snap.View(), e))
    modifies snap
    ensures snap.Valid() && (ok ==> DataAdded(old(snap.View()), snap.View(), e))
  {
    ghost var was := snap.View();
    forall i | 0 <= i < |missing| ensures missing[i].Valid() {
      DeltaMappingsValid(was, e, i);
    }
    ok := AddMemoryMappings(snap, missing, reserved);
    if ok {
      DataDeltaExact(snap.codec, was, e, reserved);
    }
  }

  // The loop stops, or goes on, because of the result.
  ghost predicate Judged(result: MakeResult, compatible: bool, pagesAdded: nat, maxPages: nat, verdict: Verdict) {
    && result.Played? && result.Valid()
    && verdict == Judge(result.outcome, result.endState.endpoint, compatible, pagesAdded, maxPages)
  }

  // Prepares the snapshot and runs it once.
  method MakeOnce(snap: Snapshot, compatible: bool, pagesAdded: nat, maxPages: nat, reserved: map<nat, Perms>,
                  snapify: State -> Option<State>, runner: (State, nat) -> MakeResult)
    returns (ran: bool, verdict: Verdict, ghost shown: State)
    requires snap.Valid() && KeepsGuarded(snap.codec, snapify)
    requires forall s: State, n: nat :: runner(s, n).Valid()
    modifies snap
    ensures snap.Valid()
    ensures if ran then snapify(old(snap.View())) == Some(shown) else verdict.Error?
    ensures !verdict.Error? ==>
              && Observed(shown, snap.View(), compatible, runner(shown, pagesAdded))
              && Judged(runner(shown, pagesAdded), compatible, pagesAdded, maxPages, verdict)
  {
    verdict := Error;
    ran := Prepare(snap, snapify);
    shown := snap.View();
    if ran {
      var result := runner(snap.View(), pagesAdded);
      assert result.Valid();
      var ok := Observe(snap, compatible, result, reserved);
      if ok {
        verdict := Judge(result.outcome, result.endState.endpoint, compatible, pagesAdded, maxPages);
      }
    }
  }

  // A run could not access an address, and the page of the address was added.
  ghost predicate PageFollows(shown: State, now: State, result: MakeResult) {
    && result.Played? && result.outcome.Misbehave? && result.endState.endpoint.IsAccessFault()
    && !result.endState.endpoint.cause.CantExec?
    && ZeroFilled(shown, now, [PageOf(result.endState.endpoint.sigAddress)])
  }

  lemma StopFacts(result: MakeResult, compatible: bool, pagesAdded: nat, maxPages: nat, stopped: Stopped)
    requires Judged(result, compatible, pagesAdded, maxPages, Stop(stopped))
    ensures EndedBy(result, compatible, pagesAdded, maxPages, stopped)
  {
    JudgeReasons(result.outcome, result.endState.endpoint, compatible, pagesAdded, maxPages);
  }

  // Pages are only added in compatibility mode and below the limit, for failed reads and writes.
  lemma PageFacts(result: MakeResult, compatible: bool, pagesAdded: nat, maxPages: nat, a: Address)
    requires Judged(result, compatible, pagesAdded, maxPages, AddPage(a))
    ensures compatible && pagesAdded < maxPages && result.outcome.Misbehave?
    ensures result.endState.endpoint.IsAccessFault() && !result.endState.endpoint.cause.CantExec?
    ensures a == result.endState.endpoint.sigAddress
  {
  }

  // Runs the snapshot, and adds the page that it needs.
  method MakeRound(snap: Snapshot, compatible: bool, pagesAdded: nat, maxPages: nat, reserved: map<nat, Perms>,
                   snapify: State -> Option<State>, runner: (State, nat) -> MakeResult)
    returns (ran: bool, verdict: Verdict, ghost shown: State)
    requires snap.Valid() && KeepsGuarded(snap.codec, snapify)
    requires forall s: State, n: nat :: runner(s, n).Valid()
    modifies snap
    ensures snap.Valid()
    ensures if ran then snapify(old(snap.View())) == Some(shown) else verdict.Error?
    ensures verdict.Stop? ==>
              && Observed(shown, snap.View(), compatible, runner(shown, pagesAdded))
              && Judged(runner(shown, pagesAdded), compatible, pagesAdded, maxPages, verdict)
              && EndedBy(runner(shown, pagesAdded), compatible, pagesAdded, maxPages, verdict.stopped)
    ensures verdict.AddPage? ==>
              compatible && pagesAdded < maxPages && PageFollows(shown, snap.View(), runner(shown, pagesAdded))
  {
    ran, verdict, shown := MakeOnce(snap, compatible, pagesAdded, maxPages, reserved, snapify, runner);
    match verdict
    case Error =>
    case Stop(stopped) =>
      StopFacts(runner(shown, pagesAdded), compatible, pagesAdded, maxPages, stopped);
    case AddPage(a) =>
      PageFacts(runner(shown, pagesAdded), compatible, pagesAdded, maxPages, a);
      var added := AddWritableMemoryForAddress(snap, a, reserved);
      if !added {
        verdict := Error;
      }
  }

  // A round of the loop: the snapshot at its start, and prepared as the runner gets it.
  datatype Round = Round(start: State, shown: State)

  // After round `k` of the loop `now` is the start of the next one.
  ghost predicate Leads(rounds: seq<Round>, k: nat, now: State, runner: (State, nat) -> MakeResult)
    requires k < |rounds|
  {
    PageFollows(rounds[k].shown, now, runner(rounds[k].shown, k))
  }

  ghost predicate LeadsOn(rounds: seq<Round>, k: nat, runner: (State, nat) -> MakeResult)
    requires k + 1 < |rounds|
  {
    Leads(rounds, k, rounds[k + 1].start, runner)
  }

  // The rounds of a loop that began with `s`.
  ghost predicate AreRounds(rounds: seq<Round>, s: State, snapify: State -> Option<State>,
                            runner: (State, nat) -> MakeResult)
  {
    && (rounds != [] ==> rounds[0].start == s)
    && (forall k :: 0 <= k < |rounds| ==> snapify(rounds[k].start) == Some(rounds[k].shown))
    && (forall k: nat :: k + 1 < |rounds| ==> LeadsOn(rounds, k, runner))
  }

  // The next round starts with `now`.
  ghost predicate Continues(rounds: seq<Round>, now: State, s: State, runner: (State, nat) -> MakeResult) {
    if rounds == [] then now == s else Leads(rounds, |rounds| - 1, now, runner)
  }

  lemma OneMoreRound(rounds: seq<Round>, s: State, start: State, shown: State, snapify: State -> Option<State>,
                     runner: (State, nat) -> MakeResult)
    requires AreRounds(rounds, s, snapify, runner) && Continues(rounds, start, s, runner)
    requires snapify(start) == Some(shown)
    ensures AreRounds(rounds + [Round(start, shown)], s, snapify, runner)
  {
    var more := rounds + [Round(start, shown)];
    forall k: nat | k + 1 < |more| ensures LeadsOn(more, k, runner) {
      assert more[k] == rounds[k];
      if k + 1 < |rounds| {
        assert LeadsOn(rounds, k, runner);
      }
    }
  }

  // What the last round of a loop that stopped leaves behind.
  ghost predicate Ended(rounds: seq<Round>, now: State, compatible: bool, maxPages: nat, stopped: Stopped,
                        runner: (State, nat) -> MakeResult)
  {
    rounds != [] &&
    var n := |rounds| - 1;
    && Observed(rounds[n].shown, now, compatible, runner(rounds[n].shown, n))
    && Judged(runner(rounds[n].shown, n), compatible, n, maxPages, Stop(stopped))
    && EndedBy(runner(rounds[n].shown, n), compatible, n, maxPages, stopped)
  }

  // The endpoint is that of the run, and the reason fits it.
  ghost predicate EndedBy(result: MakeResult, compatible: bool, n: nat, maxPages: nat, stopped: Stopped) {
    && result.Played? && stopped.endpoint == result.endState.endpoint
    && ReasonFits(stopped.reason, result.outcome, stopped.endpoint, compatible, n, maxPages)
  }

  lemma EndsWith(rounds: seq<Round>, last: Round, now: State, compatible: bool, maxPages: nat, stopped: Stopped,
                 runner: (State, nat) -> MakeResult)
    requires var result := runner(last.shown, |rounds|);
             && Observed(last.shown, now, compatible, result)
             && Judged(result, compatible, |rounds|, maxPages, Stop(stopped))
             && EndedBy(result, compatible, |rounds|, maxPages, stopped)
    ensures Ended(rounds + [last], now, compatible, maxPages, stopped, runner)
    ensures compatible && stopped.reason.CannotAddMemory? && |rounds| <= maxPages ==> |rounds| == maxPages
  {
    assert (rounds + [last])[|rounds|] == last;
  }

  lemma ContinuesWith(rounds: seq<Round>, last: Round, now: State, s: State, runner: (State, nat) -> MakeResult)
    requires PageFollows(last.shown, now, runner(last.shown, |rounds|))
    ensures Continues(rounds + [last], now, s, runner)
  {
    assert (rounds + [last])[|rounds|] == last;
  }

  // Runs the snapshot until it needs no more memory.  `runner` gives the result of each run.
  // In compatibility mode it is run at most once more than pages may be added, and otherwise once.
  method MakeLoop(snap: Snapshot, compatible: bool, maxPages: nat, reserved: map<nat, Perms>,
                  snapify: State -> Option<State>, runner: (State, nat) -> MakeResult)
    returns (r: Option<Stopped>, runs: nat, ghost rounds: seq<Round>)
    requires snap.Valid() && KeepsGuarded(snap.codec, snapify)
    requires forall s: State, n: nat :: runner(s, n).Valid()
    modifies snap
    ensures snap.Valid()
    ensures runs <= if compatible then maxPages + 1 else 1
    ensures AreRounds(rounds, old(snap.View()), snapify, runner) && |rounds| == runs
    // A success ends with the memory of the last run, and for the reason that it gave.
    ensures r.Some? ==> Ended(rounds, snap.View(), compatible, maxPages, r.value, runner)
    // The page limit is the only reason to give up on a missing page.
    ensures compatible && r.Some? && r.value.reason.CannotAddMemory? ==> runs == maxPages + 1
  {
    runs, rounds := 0, [];
    ghost var s := snap.View();
    while true
      invariant snap.Valid() && (if compatible then runs <= maxPages else runs == 0)
      invariant AreRounds(rounds, s, snapify, runner) && |rounds| == runs
      invariant Continues(rounds, snap.View(), s, runner)
      decreases maxPages - runs
    {
      // A page was added for every run so far.
      ghost var start := snap.View();
      var ran, verdict, shown := MakeRound(snap, compatible, runs, maxPages, reserved, snapify, runner);
      if !ran {
        return None, runs, rounds;
      }
      OneMoreRound(rounds, s, start, shown, snapify, runner);
      ghost var before := rounds;
      runs, rounds := runs + 1, rounds + [Round(start, shown)];
      match verdict
      case Error =>
        return None, runs, rounds;
      case Stop(stopped) =>
        EndsWith(before, Round(start, shown), snap.View(), compatible, maxPages, stopped, runner);
        return Some(stopped), runs, rounds;
      case AddPage(_) =>
        ContinuesWith(before, Round(start, shown), snap.View(), s, runner);
    }
  }
}
