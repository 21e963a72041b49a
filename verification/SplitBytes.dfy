/** Sorting bytes into mappings (SplitBytesByMapping of common/snapshot_util.cc). */
module SplitBytes {
  import opened Basics
  import opened Memory
  import opened Normalize
  import opened SnapshotState
  import opened SnapshotGuards
  import opened Snapshots

  // The bytes are completely inside the mapping.
  predicate IsInside(b: MemoryBytes, x: MemoryMapping) {
    x.start <= b.start && b.start - x.start + |b.data| <= x.size
  }

  // The first mapping, from `i` on, that the bytes are inside of.
  function MappingFor(mappings: seq<MemoryMapping>, b: MemoryBytes, i: nat := 0): (r: Option<nat>)
    requires i <= |mappings|
    ensures r.Some? ==> i <= r.value < |mappings| && IsInside(b, mappings[r.value])
    ensures r.None? ==> forall j :: i <= j < |mappings| ==> !IsInside(b, mappings[j])
    decreases |mappings| - i
  {
    if i == |mappings| then None
    else if IsInside(b, mappings[i]) then Some(i)
    else MappingFor(mappings, b, i + 1)
  }

  predicate GoesTo(mappings: seq<MemoryMapping>, b: MemoryBytes, i: nat) {
    MappingFor(mappings, b).Some? && MappingFor(mappings, b).value == i
  }

  // The bytes of the list that go to mapping `i`, in the order of the list.
  function Assigned(mappings: seq<MemoryMapping>, list: seq<MemoryBytes>, i: nat): seq<MemoryBytes> {
    if list == [] then []
    else
      var last := list[|list| - 1];
      Assigned(mappings, list[..|list| - 1], i) + if GoesTo(mappings, last, i) then [last] else []
  }

  // One list for each mapping; None if some bytes are inside no mapping.
  method SplitBytesByMapping(mappings: seq<MemoryMapping>, list: seq<MemoryBytes>)
    returns (r: Option<seq<seq<MemoryBytes>>>)
    ensures r.None? <==> exists k :: 0 <= k < |list| && MappingFor(mappings, list[k]).None?
    ensures r.Some? ==>
              |r.value| == |mappings| && forall i :: 0 <= i < |mappings| ==> r.value[i] == Assigned(mappings, list, i)
  {
    var output: seq<seq<MemoryBytes>> := seq(|mappings|, _ => []);
    for k := 0 to |list|
      invariant |output| == |mappings|
      invariant forall i :: 0 <= i < |mappings| ==> output[i] == Assigned(mappings, list[..k], i)
      invariant forall j :: 0 <= j < k ==> MappingFor(mappings, list[j]).Some?
    {
      var found := false;
      var i := 0;
      while i < |mappings| && !found
        invariant 0 <= i <= |mappings| && !found
        invariant MappingFor(mappings, list[k]) == MappingFor(mappings, list[k], i)
      {
        if IsInside(list[k], mappings[i]) {
          found := true;
          break;
        }
        i := i + 1;
      }
      if !found {
        return None;
      }
      assert list[..k + 1][..k] == list[..k];
      output := output[i := output[i] + [list[k]]];
    }
    assert list[..|list|] == list;
    return Some(output);
  }

  // Bytes that are not empty are inside at most one of several disjoint mappings.
  lemma InsideOne(mappings: seq<MemoryMapping>, b: MemoryBytes, i: nat, j: nat)
    requires AllClear(mappings) && b.data != [] && i < |mappings| && j < |mappings|
    requires IsInside(b, mappings[i]) && IsInside(b, mappings[j])
    ensures i == j
  {
  }

  // How often `x` is in the lists of the first `n` mappings.
  ghost function Occurrences(mappings: seq<MemoryMapping>, list: seq<MemoryBytes>, n: nat, x: MemoryBytes): nat {
    if n == 0 then 0
    else Occurrences(mappings, list, n - 1, x) + multiset(Assigned(mappings, list, n - 1))[x]
  }

  lemma AssignedStep(mappings: seq<MemoryMapping>, list: seq<MemoryBytes>, b: MemoryBytes, i: nat, x: MemoryBytes)
    ensures multiset(Assigned(mappings, list + [b], i))[x] ==
            multiset(Assigned(mappings, list, i))[x] + if GoesTo(mappings, b, i) && x == b then 1 else 0
  {
    assert (list + [b])[..|list|] == list;
  }

  lemma {:induction false} OccurrencesStep(mappings: seq<MemoryMapping>, list: seq<MemoryBytes>, b: MemoryBytes, n: nat,
                                           x: MemoryBytes)
    requires MappingFor(mappings, b).Some?
    ensures Occurrences(mappings, list + [b], n, x) ==
            Occurrences(mappings, list, n, x) + if MappingFor(mappings, b).value < n && x == b then 1 else 0
  {
    if n > 0 {
      OccurrencesStep(mappings, list, b, n - 1, x);
      AssignedStep(mappings, list, b, n - 1, x);
    }
  }

  // No bytes are lost or copied: they are in the lists of all mappings as often as in the list.
  lemma {:induction false} SplitPartitions(mappings: seq<MemoryMapping>, list: seq<MemoryBytes>, x: MemoryBytes)
    requires forall k :: 0 <= k < |list| ==> MappingFor(mappings, list[k]).Some?
    ensures Occurrences(mappings, list, |mappings|, x) == multiset(list)[x]
  {
    if list == [] {
      NoOccurrences(mappings, |mappings|, x);
    } else {
      var init, last := list[..|list| - 1], list[|list| - 1];
      SplitPartitions(mappings, init, x);
      OccurrencesStep(mappings, init, last, |mappings|, x);
      assert list == init + [last];
    }
  }

  lemma {:induction false} NoOccurrences(mappings: seq<MemoryMapping>, n: nat, x: MemoryBytes)
    ensures Occurrences(mappings, [], n, x) == 0
  {
    if n > 0 {
      NoOccurrences(mappings, n - 1, x);
    }
  }

  // Bytes with uniform permissions are inside one range of the map.
  lemma InsideRun(m: map<nat, Perms>, b: MemoryBytes)
    requires b.Valid() && AllGrantable(m) && b.start in m
    requires forall a: nat :: b.Has(a) ==> a in m && m[a] == m[b.start]
    ensures MappingFor(SortedMappings(m), b).Some?
  {
    var runs := Runs(m);
    RunsAreRuns(m, 0, MAX_ADDRESS);
    assert b.Has(b.start);
    assert Covered(runs, b.start);
    var i: nat :| InRun(runs, b.start, i);
    assert Within(runs[i], m, 0, MAX_ADDRESS);
    if runs[i].limit < b.Limit() {
      RunEndsFresh(runs, m, MAX_ADDRESS, i);
    }
    assert IsInside(b, SortedMappings(m)[i]);
  }

  // After normalization the split never fails, and no bytes could go elsewhere.
  lemma NormalizedSplits(codec: Codec, s: State, t: State, k: nat)
    requires Guarded(codec, s) && EndStatesWritable(s.mapped, s.endStates)
    requires BytesNormalized(NormalizeMappings(s), t) && k < |t.bytes|
    ensures MappingFor(t.mappings, t.bytes[k]).Some?
    ensures forall i: nat :: i < |t.mappings| && IsInside(t.bytes[k], t.mappings[i]) ==>
              i == MappingFor(t.mappings, t.bytes[k]).value
  {
    var n := NormalizeMappings(s);
    NormalizeMappingsKeeps(codec, s);
    NormalizedGuarded(codec, n, t);
    NormalizedPiece(s.mapped, s.mappings, Content(s.bytes), t.bytes, k);
    assert t.bytes[k].Valid();
    InsideRun(s.mapped, t.bytes[k]);
    forall i: nat | i < |t.mappings| && IsInside(t.bytes[k], t.mappings[i])
      ensures i == MappingFor(t.mappings, t.bytes[k]).value
    {
      InsideOne(t.mappings, t.bytes[k], i, MappingFor(t.mappings, t.bytes[k]).value);
    }
  }

  lemma NormalizedPiece(mapped: map<nat, Perms>, mappings: seq<MemoryMapping>, content: map<nat, Byte>,
                        list: seq<MemoryBytes>, k: nat)
    requires mapped == MapOf(mappings) && forall i :: 0 <= i < |mappings| ==> MappingOk(mappings[i])
    requires content.Keys <= mapped.Keys && k < |list|
    requires IsCanonical(list, content, PermsOf(content, mapped), MAX_ADDRESS)
    ensures AllGrantable(mapped) && list[k].start in mapped
    ensures forall a: nat :: list[k].Has(a) ==> a in mapped && mapped[a] == mapped[list[k].start]
  {
    MapOfGrantable(mappings);
    var p := PermsOf(content, mapped);
    CanonicalPerms(list, content, p, k);
    assert Within(RunsOf(list, p)[k], p, 0, MAX_ADDRESS);
    assert list[k].Has(list[k].start);
    forall a: nat | list[k].Has(a) ensures a in mapped && mapped[a] == mapped[list[k].start] {
      assert p[a] == p[list[k].start];
      assert p[a] == mapped[a].Minus(MAPPED) && !mapped[a].mapped;
    }
  }
}
