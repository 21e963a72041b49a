/** What the guards of registers and end states mean for the memory of a snapshot (can_set_registers and
    can_add_expected_end_state of common/snapshot.cc). */
module SnapshotMeaning {
  import opened Basics
  import opened Memory
  import opened MappedMemory
  import opened Normalize
  import opened SnapshotState
  import opened SnapshotGuards
  import opened Snapshots

  // Nothing of the mapping is mapped yet.
  ghost predicate IsFresh(m: map<nat, Perms>, x: MemoryMapping) {
    forall a: nat :: a in m ==> a < x.start || x.start + x.size <= a
  }

  // No permission of the mapping is among those of the map at one of its addresses.
  ghost predicate NothingCommon(m: map<nat, Perms>, x: MemoryMapping) {
    forall a: nat :: a in m && x.start <= a < x.start + x.size ==>
      !(x.perms.r && m[a].r) && !(x.perms.w && m[a].w) && !(x.perms.x && m[a].x)
  }

  // A mapping can be added exactly if it is made of whole pages with some permission, none of them is
  // mapped, and none of its permissions is negative there.
  lemma MappingAccepted(s: State, x: MemoryMapping)
    requires x.Valid()
    ensures s.CanAddMapping(x) <==>
            && (x.perms.r || x.perms.w || x.perms.x) && x.start % 4096 == 0 && x.size % 4096 == 0
            && IsFresh(s.mapped, x) && NothingCommon(s.negativeMapped, x)
  {
  }

  // A negative mapping may end with the address space instead, and may have to be the first one there.
  lemma NegativeAccepted(s: State, x: MemoryMapping, overlapOk: bool)
    requires x.Valid()
    ensures s.CanAddNegative(x, overlapOk) <==>
            && (x.perms.r || x.perms.w || x.perms.x) && x.start % 4096 == 0
            && (x.size % 4096 == 0 || x.start + x.size == 0xFFFF_FFFF_FFFF_FFFF)
            && (overlapOk || IsFresh(s.negativeMapped, x)) && NothingCommon(s.mapped, x)
  {
  }

  // Bytes can be added exactly if they are mapped and there are none yet.
  lemma BytesAddable(s: State, b: MemoryBytes)
    requires b.Valid()
    ensures s.CanAddBytes(b) <==>
            forall a: nat :: b.start <= a < b.start + |b.data| ==> a in s.mapped && a !in s.written
  {
  }

  // Two end states have the same data exactly if they differ in their platforms and the order of
  // their bytes only.
  lemma SameDataIff(e: EndState, f: EndState)
    requires e.Valid() && f.Valid()
    ensures e.DataEquals(f) <==>
            && e.endpoint == f.endpoint && e.registers == f.registers && e.checksum == f.checksum
            && multiset(e.bytes) == multiset(f.bytes)
  {
    SortedAscending(e.bytes);
    SortedAscending(f.bytes);
    if multiset(e.bytes) == multiset(f.bytes) {
      SortedFacts(e.bytes);
      SortedFacts(f.bytes);
      AscendingUnique(Sorted(e.bytes), Sorted(f.bytes));
      assert |e.bytes| == |multiset(e.bytes)| && |f.bytes| == |multiset(f.bytes)|;
    }
  }

  lemma SameFirst(x: seq<MemoryBytes>, y: seq<MemoryBytes>)
    requires Ascending(x) && Ascending(y) && AllValid(x) && AllValid(y) && x != [] && y != []
    requires x[0] in y && y[0] in x
    ensures x[0] == y[0]
  {
    var i: nat :| i < |x| && x[i] == y[0];
    var j: nat :| j < |y| && y[j] == x[0];
    assert x[0].Valid() && y[0].Valid();
  }

  lemma WithoutFirst(x: seq<MemoryBytes>)
    requires Ascending(x) && AllValid(x) && x != []
    ensures Ascending(x[1..]) && AllValid(x[1..]) && multiset(x[1..]) == multiset(x) - multiset{x[0]}
    ensures x[0] in multiset(x) && x == [x[0]] + x[1..]
  {
    assert x == [x[0]] + x[1..];
  }

  lemma {:induction false} AscendingUnique(x: seq<MemoryBytes>, y: seq<MemoryBytes>)
    requires Ascending(x) && Ascending(y) && multiset(x) == multiset(y) && AllValid(x) && AllValid(y)
    ensures x == y
  {
    assert |x| == |multiset(x)| && |y| == |multiset(y)|;
    if x != [] {
      WithoutFirst(x);
      WithoutFirst(y);
      SameFirst(x, y);
      AscendingUnique(x[1..], y[1..]);
    }
  }

  ghost predicate SomeAccessFault(list: seq<EndState>) {
    exists i :: 0 <= i < |list| && list[i].endpoint.AtSignal? && list[i].endpoint.num.Segv? &&
                list[i].endpoint.cause in {CantExec, CantWrite, CantRead}
  }

  // A guarded snapshot is complete exactly if it has memory, bytes and registers, negative memory to explain
  // access faults and only then, and its end states are defined, or are not, as asked for.
  lemma CompleteIff(codec: Codec, s: State, completion: Completion)
    requires Guarded(codec, s)
    ensures s.IsComplete(codec, completion) <==>
            && s.mapped != map[] && s.written != {} && s.registers.Some?
            && (SomeAccessFault(s.endStates) <==> s.negativeMapped != map[])
            && (completion == Normal ==> s.endStates != [])
            && forall i :: 0 <= i < |s.endStates| ==> EndStateComplete(codec, s, s.endStates[i], completion)
  {
    NonEmpty(s.mappings);
    NonEmpty(s.negative);
    SomeWritten(s.bytes);
    forall i | 0 <= i < |s.endStates|
      ensures EndStateComplete(codec, s, s.endStates[i], completion) <==>
              && s.endStates[i].IsComplete(completion)
              && (completion != Making ==> s.CanAddEndState(codec, s.endStates[i], false, true))
    {
      EndStateCompleteIff(codec, s, s.endStates[i], completion);
    }
  }

  lemma SomeWritten(list: seq<MemoryBytes>)
    requires AllValid(list) && Disjoint(list)
    ensures Addresses(list) != {} <==> list != []
  {
    if list != [] {
      assert list[0].Valid();
      AddressOf(list, list[0].start, 0);
    }
  }

  lemma EndStateCompleteIff(codec: Codec, s: State, e: EndState, completion: Completion)
    requires e.Valid()
    ensures EndStateComplete(codec, s, e, completion) <==>
            && e.IsComplete(completion)
            && (completion != Making ==> s.CanAddEndState(codec, e, false, true))
  {
    EndStateAccepted(codec, s, e, false);
  }

  // Complete registers and some platform; or nothing of these.
  ghost predicate EndStateComplete(codec: Codec, s: State, e: EndState, completion: Completion) {
    && (completion == Normal ==>
          && |e.registers.gregs| > 0 && |e.registers.fpregs| > 0
          && exists i :: 0 <= i < |e.platforms| && e.platforms[i])
    && (completion != Normal ==>
          && e.registers == RegisterState([], []) && e.bytes == []
          && forall i :: 0 <= i < |e.platforms| ==> !e.platforms[i])
    && (completion != Making ==> FitsMemory(codec, s, e, false))
  }

  lemma NonEmpty(list: seq<MemoryMapping>)
    requires forall i :: 0 <= i < |list| ==> list[i].Valid()
    ensures MapOf(list) != map[] <==> list != []
  {
    if list != [] {
      var last := list[|list| - 1];
      assert last.Valid() && last.start in MapOf(list);
    }
  }

  // A snapshot can be started at these pointers: the next instruction is executable, and there is
  // writable memory of 16 bytes (x86) or 32 bytes (AArch64) below the stack pointer.
  ghost predicate CanStart(s: State, p: Pointers) {
    var required := if s.arch.X86_64? then 16 else 32;
    && p.instruction in s.mapped && s.mapped[p.instruction].x && p.stack >= required
    && forall a: nat :: p.stack - required <= a < p.stack ==> a in s.mapped && s.mapped[a].w
  }

  // Registers can be set exactly if they decode and the snapshot can be started at their pointers.
  lemma RegistersAccepted(codec: Codec, s: State, x: RegisterState)
    requires InSpace(s.mapped)
    ensures s.CanSetRegisters(codec, x, false) <==>
            codec.decode(s.arch, x).Some? && CanStart(s, codec.decode(s.arch, x).value)
    ensures s.CanSetRegisters(codec, x, true) <==> codec.decode(s.arch, x).Some?
  {
  }

  // The address is mapped, or explains a segmentation fault.
  predicate Explains(s: State, isSegv: bool, a: nat) {
    a in s.mapped || (isSegv && (if a == MAX_ADDRESS then a - 1 in s.negativeMapped || a in s.negativeMapped
                                 else a in s.negativeMapped))
  }

  // What an end state says about the memory: where it ends, and what it writes.
  ghost predicate FitsMemory(codec: Codec, s: State, x: EndState, unmappedOk: bool) {
    && (match x.endpoint
        case AtInstruction(a) => a < MAX_ADDRESS && (unmappedOk || (a in s.mapped && s.mapped[a].x))
        case AtSignal(num, _, sigAddress, instruction) =>
          && (sigAddress == 0 || Explains(s, num.Segv?, sigAddress))
          && (unmappedOk || Explains(s, num.Segv?, instruction)))
    && (if x.registers == RegisterState([], []) then x.bytes == [] else codec.decode(s.arch, x.registers).Some?)
    && (forall a: nat :: a in Content(x.bytes) ==> a in s.mapped && s.mapped[a].w)
    && (x.checksum == [] || codec.checksumOk(s.arch, x.checksum))
  }

  // An end state can be added exactly if it fits the memory and no other one has its data.
  lemma EndStateAccepted(codec: Codec, s: State, x: EndState, unmappedOk: bool)
    requires x.Valid()
    ensures s.CanAddEndState(codec, x, unmappedOk, true) <==> FitsMemory(codec, s, x, unmappedOk)
    ensures s.CanAddEndState(codec, x, unmappedOk, false) <==>
            FitsMemory(codec, s, x, unmappedOk) && forall i :: 0 <= i < |s.endStates| ==> !x.DataEquals(s.endStates[i])
  {
    BytesAccepted(s.mapped, x.bytes);
  }

  lemma BytesAccepted(m: map<nat, Perms>, list: seq<MemoryBytes>)
    requires AllValid(list) && Disjoint(list)
    ensures (forall i :: 0 <= i < |list| ==> AllWritable(m, list[i].start, list[i].Limit())) <==>
            forall a: nat :: a in Content(list) ==> a in m && m[a].w
  {
    if forall i :: 0 <= i < |list| ==> AllWritable(m, list[i].start, list[i].Limit()) {
      WritableContent(m, list);
    }
    if forall a: nat :: a in Content(list) ==> a in m && m[a].w {
      forall i | 0 <= i < |list| ensures AllWritable(m, list[i].start, list[i].Limit()) {
        assert list[i].Valid();
        forall a: nat | list[i].start <= a < list[i].Limit() ensures a in m && m[a].w {
          AddressOf(list, a, i);
        }
      }
    }
  }

  // After every run of guarded operations the snapshot can be started at its registers, and all its end
  // states fit its memory.
  lemma RunMeans(codec: Codec, arch: Architecture, id: string, ops: seq<Op>)
    requires forall i :: 0 <= i < |ops| ==> Constructible(ops[i])
    ensures var t := After(codec, Empty(arch, id), ops);
            && (t.registers.Some? ==>
                  codec.decode(t.arch, t.registers.value).Some? &&
                  CanStart(t, codec.decode(t.arch, t.registers.value).value))
            && forall i :: 0 <= i < |t.endStates| ==> FitsMemory(codec, t, t.endStates[i], true)
  {
    var t := After(codec, Empty(arch, id), ops);
    EmptyGuarded(codec, arch, id);
    RunKeeps(codec, Empty(arch, id), ops);
    GuardedMeans(codec, t);
  }

  lemma GuardedMeans(codec: Codec, t: State)
    requires Guarded(codec, t)
    ensures t.registers.Some? ==>
              codec.decode(t.arch, t.registers.value).Some? &&
              CanStart(t, codec.decode(t.arch, t.registers.value).value)
    ensures forall i :: 0 <= i < |t.endStates| ==> FitsMemory(codec, t, t.endStates[i], true)
  {
    MappingsInSpace(t.mappings);
    if t.registers.Some? {
      RegistersAccepted(codec, t, t.registers.value);
    }
    forall i | 0 <= i < |t.endStates| ensures FitsMemory(codec, t, t.endStates[i], true) {
      assert t.CanAddEndState(codec, t.endStates[i], true, true) && t.endStates[i].Valid();
      EndStateAccepted(codec, t, t.endStates[i], true);
    }
  }

  lemma MappingsInSpace(list: seq<MemoryMapping>)
    requires forall i :: 0 <= i < |list| ==> MappingOk(list[i])
    ensures InSpace(MapOf(list))
  {
    forall a: nat | a in MapOf(list) ensures a < MAX_ADDRESS {
      if a >= MAX_ADDRESS {
        forall i: nat ensures !InMapping(list, a, i) {
          if i < |list| {
            assert MappingOk(list[i]);
          }
        }
        MapOfOutside(list, a);
      }
    }
  }
}
