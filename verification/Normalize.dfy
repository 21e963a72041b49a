/** The canonical form of memory bytes (NormalizeMemoryBytes of common/snapshot.cc). */
module Normalize {
  import opened Basics
  import opened Memory

  // The order of the source: by start, then by limit.
  predicate Before(b: MemoryBytes, c: MemoryBytes) {
    b.start < c.start || (b.start == c.start && b.Limit() < c.Limit())
  }

  function Insert(b: MemoryBytes, list: seq<MemoryBytes>): seq<MemoryBytes> {
    if list == [] || !Before(list[0], b) then [b] + list else [list[0]] + Insert(b, list[1..])
  }

  function Sorted(list: seq<MemoryBytes>): seq<MemoryBytes> {
    if list == [] then [] else Insert(list[0], Sorted(list[1..]))
  }

  // Each element ends at or before the start of every later one.
  ghost predicate Ascending(list: seq<MemoryBytes>) {
    forall i: nat, j: nat :: i < j < |list| ==> list[i].Limit() <= list[j].start
  }

  ghost predicate AllValid(list: seq<MemoryBytes>) {
    forall i :: 0 <= i < |list| ==> list[i].Valid()
  }

  lemma PrependAscending(b: MemoryBytes, list: seq<MemoryBytes>)
    requires Ascending(list) && forall j :: 0 <= j < |list| ==> b.Limit() <= list[j].start
    ensures Ascending([b] + list)
  {
  }

  lemma {:induction false} InsertPermutes(b: MemoryBytes, list: seq<MemoryBytes>)
    ensures multiset(Insert(b, list)) == multiset([b] + list)
  {
    if list != [] && Before(list[0], b) {
      InsertPermutes(b, list[1..]);
      assert list == [list[0]] + list[1..];
    }
  }

  lemma {:induction false} InsertAscending(b: MemoryBytes, list: seq<MemoryBytes>)
    requires b.Valid() && AllValid(list) && Ascending(list)
    requires forall i :: 0 <= i < |list| ==> Separate(b, list[i])
    ensures Ascending(Insert(b, list))
  {
    if list != [] {
      assert Separate(b, list[0]) && list[0].Valid();
      if Before(list[0], b) {
        var rest := Insert(b, list[1..]);
        InsertAscending(b, list[1..]);
        InsertPermutes(b, list[1..]);
        forall j | 0 <= j < |rest| ensures list[0].Limit() <= rest[j].start {
          assert rest[j] in multiset(rest);
          assert rest[j] == b || rest[j] in list[1..];
        }
        PrependAscending(list[0], rest);
      } else {
        PrependAscending(b, list);
      }
    }
  }

  lemma {:induction false} SortedAscending(list: seq<MemoryBytes>)
    requires AllValid(list) && Disjoint(list)
    ensures Ascending(Sorted(list)) && multiset(Sorted(list)) == multiset(list)
  {
    if list != [] {
      var rest := Sorted(list[1..]);
      SortedAscending(list[1..]);
      assert list == [list[0]] + list[1..];
      forall i | 0 <= i < |rest| ensures rest[i].Valid() && Separate(list[0], rest[i]) {
        assert rest[i] in multiset(rest);
        assert rest[i] in list[1..];
        var j: nat :| j < |list[1..]| && list[1..][j] == rest[i];
        assert Separate(list[0], list[j + 1]);
      }
      InsertAscending(list[0], rest);
      InsertPermutes(list[0], rest);
    }
  }

  // The bytes that a list defines.
  function Content(list: seq<MemoryBytes>): map<nat, Byte> {
    WrittenAll(map[], list)
  }

  lemma ContentAt(list: seq<MemoryBytes>, a: nat)
    requires Disjoint(list)
    ensures a in Content(list) <==> Among(list, a)
    ensures forall i: nat :: InBytes(list, a, i) ==> a in Content(list) && Content(list)[a] == list[i].At(a)
  {
    forall i: nat | InBytes(list, a, i) ensures a in Content(list) && Content(list)[a] == list[i].At(a) {
      WrittenInside(map[], list, a, i);
    }
    if !Among(list, a) {
      WrittenOutside(map[], list, a);
    }
  }

  lemma AmongPermuted(list: seq<MemoryBytes>, other: seq<MemoryBytes>, a: nat, i: nat) returns (j: nat)
    requires multiset(list) == multiset(other) && InBytes(list, a, i)
    ensures InBytes(other, a, j) && other[j] == list[i]
  {
    assert list[i] in multiset(list);
    assert list[i] in other;
    j :| j < |other| && other[j] == list[i];
  }

  // The content does not depend on the order of a disjoint list.
  lemma ContentPermuted(list: seq<MemoryBytes>, other: seq<MemoryBytes>)
    requires Disjoint(list) && Disjoint(other) && multiset(list) == multiset(other)
    ensures Content(list) == Content(other)
  {
    forall a: nat
      ensures a in Content(list) <==> a in Content(other)
      ensures a in Content(list) ==> Content(list)[a] == Content(other)[a]
    {
      ContentAt(list, a);
      ContentAt(other, a);
      if Among(list, a) {
        var i: nat :| InBytes(list, a, i);
        var j := AmongPermuted(list, other, a, i);
      } else if Among(other, a) {
        var i: nat :| InBytes(other, a, i);
        var j := AmongPermuted(other, list, a, i);
      }
    }
  }

  lemma AscendingDisjoint(list: seq<MemoryBytes>)
    requires Ascending(list)
    ensures Disjoint(list)
  {
    forall i: nat, j: nat | i < j < |list| ensures Separate(list[i], list[j]) {
      assert list[i].Limit() <= list[j].start;
    }
  }

  // The permissions of the defined bytes.
  function PermsOf(content: map<nat, Byte>, perms: map<nat, Perms>): (p: map<nat, Perms>)
    requires content.Keys <= perms.Keys
    ensures p.Keys == content.Keys
  {
    map a | a in content :: perms[a].Minus(MAPPED)
  }

  // The content has the bytes.
  ghost predicate Holds(content: map<nat, Byte>, b: MemoryBytes) {
    forall a: nat :: b.Has(a) ==> a in content && content[a] == b.At(a)
  }

  // The canonical list: one element for each range of defined bytes with equal permissions.
  ghost predicate IsCanonical(list: seq<MemoryBytes>, content: map<nat, Byte>, p: map<nat, Perms>, hi: nat) {
    && AreRuns(RunsOf(list, p), p, 0, hi)
    && forall i :: 0 <= i < |list| ==> Holds(content, list[i])
  }

  ghost function RunOf(b: MemoryBytes, p: map<nat, Perms>): Run<Perms> {
    Run(b.start, b.Limit(), if b.start in p then p[b.start] else NONE)
  }

  ghost function RunsOf(list: seq<MemoryBytes>, p: map<nat, Perms>): (runs: seq<Run<Perms>>)
    ensures |runs| == |list|
    ensures forall i {:trigger runs[i]} :: 0 <= i < |runs| ==> runs[i] == RunOf(list[i], p)
  {
    seq(|list|, i requires 0 <= i < |list| => RunOf(list[i], p))
  }

  lemma SameBytes(content: map<nat, Byte>, b: MemoryBytes, c: MemoryBytes)
    requires Holds(content, b) && Holds(content, c) && b.start == c.start && b.Limit() == c.Limit()
    ensures b == c
  {
    forall k: nat | k < |b.data| ensures b.data[k] == c.data[k] {
      assert b.At(b.start + k) == c.At(b.start + k);
    }
    assert b.data == c.data;
  }

  // Two canonical lists for the same content and permissions are equal.
  lemma CanonicalUnique(list: seq<MemoryBytes>, other: seq<MemoryBytes>, content: map<nat, Byte>, p: map<nat, Perms>)
    requires IsCanonical(list, content, p, MAX_ADDRESS) && IsCanonical(other, content, p, MAX_ADDRESS)
    ensures list == other
  {
    RunsUnique(RunsOf(list, p), p, 0, MAX_ADDRESS);
    RunsUnique(RunsOf(other, p), p, 0, MAX_ADDRESS);
    forall i | 0 <= i < |list| ensures list[i] == other[i] {
      assert RunsOf(list, p)[i] == RunsOf(other, p)[i];
      SameBytes(content, list[i], other[i]);
    }
  }

  lemma RunsOfAppend(list: seq<MemoryBytes>, b: MemoryBytes, p: map<nat, Perms>)
    ensures RunsOf(list + [b], p) == RunsOf(list, p) + [RunOf(b, p)]
  {
  }

  // A chunk of the content with uniform permissions.
  ghost predicate Uniform(chunk: MemoryBytes, content: map<nat, Byte>, p: map<nat, Perms>) {
    && chunk.data != [] && Holds(content, chunk)
    && forall a: nat :: chunk.Has(a) ==> a in p && p[a] == RunOf(chunk, p).value
  }

  lemma AddChunk(list: seq<MemoryBytes>, chunk: MemoryBytes, content: map<nat, Byte>, p: map<nat, Perms>)
    requires IsCanonical(list, content, p, chunk.start) && Uniform(chunk, content, p)
    requires list != [] ==> Split(RunOf(list[|list| - 1], p), RunOf(chunk, p))
    ensures IsCanonical(list + [chunk], content, p, chunk.Limit())
  {
    RunsOfAppend(list, chunk, p);
    AppendRun(RunsOf(list, p), p, RunOf(chunk, p));
  }

  lemma MergedHolds(content: map<nat, Byte>, last: MemoryBytes, chunk: MemoryBytes)
    requires Holds(content, last) && Holds(content, chunk) && last.Limit() == chunk.start
    ensures Holds(content, MemoryBytes(last.start, last.data + chunk.data))
  {
    var merged := MemoryBytes(last.start, last.data + chunk.data);
    forall a: nat | merged.Has(a) ensures a in content && content[a] == merged.At(a) {
      if a < chunk.start {
        assert last.Has(a);
      } else {
        assert chunk.Has(a);
      }
    }
  }

  lemma MergeChunk(list: seq<MemoryBytes>, last: MemoryBytes, chunk: MemoryBytes, content: map<nat, Byte>,
                   p: map<nat, Perms>)
    requires IsCanonical(list + [last], content, p, chunk.start) && Uniform(chunk, content, p)
    requires last.Limit() == chunk.start && RunOf(last, p).value == RunOf(chunk, p).value
    ensures IsCanonical(list + [MemoryBytes(last.start, last.data + chunk.data)], content, p, chunk.Limit())
  {
    var merged := MemoryBytes(last.start, last.data + chunk.data);
    RunsOfAppend(list, last, p);
    RunsOfAppend(list, merged, p);
    ExtendRun(RunsOf(list, p), RunOf(last, p), p, chunk.Limit());
    var was, now := list + [last], list + [merged];
    assert Holds(content, was[|list|]);
    MergedHolds(content, last, chunk);
    forall i | 0 <= i < |now| ensures Holds(content, now[i]) {
      assert i < |list| ==> now[i] == was[i];
    }
  }

  lemma SortedFacts(list: seq<MemoryBytes>)
    requires AllValid(list) && Disjoint(list)
    ensures Ascending(Sorted(list)) && AllValid(Sorted(list)) && Content(Sorted(list)) == Content(list)
    ensures forall i :: 0 <= i < |Sorted(list)| ==> Holds(Content(list), Sorted(list)[i])
  {
    var sorted := Sorted(list);
    SortedAscending(list);
    AscendingDisjoint(sorted);
    ContentPermuted(list, sorted);
    forall i | 0 <= i < |sorted| ensures sorted[i].Valid() && Holds(Content(list), sorted[i]) {
      assert sorted[i] in multiset(sorted);
      assert sorted[i] in list;
      forall a: nat | sorted[i].Has(a) ensures a in Content(list) && Content(list)[a] == sorted[i].At(a) {
        assert InBytes(sorted, a, i);
        ContentAt(sorted, a);
      }
    }
  }

  // Nothing is defined before an element of an ascending list and after the previous one.
  lemma Gap(list: seq<MemoryBytes>, k: nat, a: nat)
    requires Ascending(list) && AllValid(list) && k <= |list|
    requires (k == 0 || list[k - 1].Limit() <= a) && (k == |list| || a < list[k].start)
    ensures a !in Content(list)
  {
    AscendingDisjoint(list);
    forall i: nat ensures !InBytes(list, a, i) {
      assert 0 < k ==> list[k - 1].Valid();
      assert k < |list| ==> list[k].Valid();
    }
    ContentAt(list, a);
  }

  lemma Gaps(list: seq<MemoryBytes>, k: nat, from: nat, to: nat)
    requires Ascending(list) && AllValid(list) && k <= |list|
    requires (k == 0 || list[k - 1].Limit() <= from) && (k == |list| || to <= list[k].start)
    ensures forall a: nat :: from <= a < to ==> a !in Content(list)
  {
    forall a: nat | from <= a < to ensures a !in Content(list) {
      Gap(list, k, a);
    }
  }

  // The part of the bytes up to the next permission boundary.
  lemma ChunkUniform(perms: map<nat, Perms>, b: MemoryBytes, content: map<nat, Byte>, start: nat, limit: nat)
    requires content.Keys <= perms.Keys && Holds(content, b) && b.start <= start < limit <= b.Limit()
    requires forall a: nat :: start <= a < limit ==> a in perms && perms[a] == perms[start]
    ensures Uniform(b.Range(start, limit), content, PermsOf(content, perms))
  {
    var chunk := b.Range(start, limit);
    forall a: nat | chunk.Has(a) ensures a in content && content[a] == chunk.At(a) {
      assert b.At(a) == chunk.At(a);
    }
  }

  lemma EndsBefore(list: seq<MemoryBytes>, content: map<nat, Byte>, p: map<nat, Perms>, hi: nat)
    requires IsCanonical(list, content, p, hi)
    ensures list != [] ==> list[|list| - 1].Limit() <= hi
  {
    if list != [] {
      assert Within(RunsOf(list, p)[|list| - 1], p, 0, hi);
    }
  }

  // Appends a chunk to the last element, or as an element of its own.
  method AppendChunk(list: seq<MemoryBytes>, was: Perms, chunk: MemoryBytes, here: Perms,
                     ghost content: map<nat, Byte>, ghost p: map<nat, Perms>)
    returns (out: seq<MemoryBytes>, lastPerms: Perms)
    requires IsCanonical(list, content, p, chunk.start) && Uniform(chunk, content, p)
    requires here == RunOf(chunk, p).value && (list != [] ==> was == RunOf(list[|list| - 1], p).value)
    ensures IsCanonical(out, content, p, chunk.Limit())
    ensures out != [] && lastPerms == RunOf(out[|out| - 1], p).value
  {
    var n := |list| - 1;
    if list != [] && chunk.start == list[n].Limit() && here == was {
      assert list == list[..n] + [list[n]];
      MergeChunk(list[..n], list[n], chunk, content, p);
      return list[..n] + [MemoryBytes(list[n].start, list[n].data + chunk.data)], was;
    }
    EndsBefore(list, content, p, chunk.start);
    AddChunk(list, chunk, content, p);
    return list + [chunk], here;
  }

  // Appends the bytes of one element, split at permission boundaries.
  method NormalizeOne(perms: map<nat, Perms>, b: MemoryBytes, list: seq<MemoryBytes>, was: Perms,
                      ghost content: map<nat, Byte>)
    returns (out: seq<MemoryBytes>, lastPerms: Perms)
    requires b.Valid() && content.Keys <= perms.Keys && Holds(content, b)
    requires IsCanonical(list, content, PermsOf(content, perms), b.start)
    requires list != [] ==> was == RunOf(list[|list| - 1], PermsOf(content, perms)).value
    ensures IsCanonical(out, content, PermsOf(content, perms), b.Limit())
    ensures out != [] ==> lastPerms == RunOf(out[|out| - 1], PermsOf(content, perms)).value
  {
    ghost var p := PermsOf(content, perms);
    out, lastPerms := list, was;
    var start: nat := b.start;
    while start < b.Limit()
      invariant b.start <= start <= b.Limit()
      invariant IsCanonical(out, content, p, start)
      invariant out != [] ==> lastPerms == RunOf(out[|out| - 1], p).value
    {
      assert b.Has(start);
      var boundary := RunLimit(perms, start, MAX_ADDRESS);
      var limit := if b.Limit() < boundary then b.Limit() else boundary;
      ChunkUniform(perms, b, content, start, limit);
      var chunk := b.Range(start, limit);
      out, lastPerms := AppendChunk(out, lastPerms, chunk, perms[start].Minus(MAPPED), content, p);
      start := chunk.Limit();
    }
  }

  // Splits the bytes at permission boundaries, and merges neighbours with equal permissions.
  method NormalizeMemoryBytes(perms: map<nat, Perms>, list: seq<MemoryBytes>) returns (out: seq<MemoryBytes>)
    requires AllValid(list) && Disjoint(list) && Content(list).Keys <= perms.Keys
    ensures IsCanonical(out, Content(list), PermsOf(Content(list), perms), MAX_ADDRESS)
  {
    var sorted := Sorted(list);
    ghost var content := Content(list);
    ghost var p := PermsOf(content, perms);
    SortedFacts(list);
    out := [];
    var lastPerms := NONE;
    ghost var done: nat := 0;
    for k := 0 to |sorted|
      invariant done == if k == 0 then 0 else sorted[k - 1].Limit()
      invariant IsCanonical(out, content, p, done)
      invariant out != [] ==> lastPerms == RunOf(out[|out| - 1], p).value
    {
      var b := sorted[k];
      Gaps(sorted, k, done, b.start);
      SkipRuns(RunsOf(out, p), p, done, b.start);
      out, lastPerms := NormalizeOne(perms, b, out, lastPerms, content);
      done := b.Limit();
    }
    Gaps(sorted, |sorted|, done, MAX_ADDRESS);
    SkipRuns(RunsOf(out, p), p, done, MAX_ADDRESS);
  }

  // A canonical list is in order, and defines the content.
  lemma CanonicalFacts(list: seq<MemoryBytes>, content: map<nat, Byte>, p: map<nat, Perms>)
    requires IsCanonical(list, content, p, MAX_ADDRESS) && p.Keys == content.Keys && InSpace(content)
    ensures AllValid(list) && Ascending(list) && Disjoint(list) && Content(list) == content
  {
    var runs := RunsOf(list, p);
    forall i | 0 <= i < |list| ensures list[i].Valid() {
      assert Within(runs[i], p, 0, MAX_ADDRESS);
    }
    forall i: nat, j: nat | i < j < |list| ensures list[i].Limit() <= list[j].start {
      RunsOrdered(runs, p, 0, MAX_ADDRESS, i, j);
    }
    AscendingDisjoint(list);
    forall a: nat ensures (a in Content(list) <==> a in content) && (a in content ==> Content(list)[a] == content[a]) {
      CanonicalAt(list, content, p, a);
    }
  }

  lemma CanonicalAt(list: seq<MemoryBytes>, content: map<nat, Byte>, p: map<nat, Perms>, a: nat)
    requires IsCanonical(list, content, p, MAX_ADDRESS) && p.Keys == content.Keys && InSpace(content) && Disjoint(list)
    ensures a in Content(list) <==> a in content
    ensures a in content ==> Content(list)[a] == content[a]
  {
    ContentAt(list, a);
    if a in content {
      assert Covered(RunsOf(list, p), a);
      var i: nat :| InRun(RunsOf(list, p), a, i);
      assert InBytes(list, a, i) && Holds(content, list[i]);
    }
  }

  // All bytes of an element of a canonical list have the same permissions, and touching
  // elements have different ones.
  lemma CanonicalPerms(list: seq<MemoryBytes>, content: map<nat, Byte>, p: map<nat, Perms>, i: nat)
    requires IsCanonical(list, content, p, MAX_ADDRESS) && i < |list|
    ensures forall a: nat :: list[i].Has(a) ==> a in p && p[a] == RunOf(list[i], p).value
    ensures i + 1 < |list| && list[i].Limit() == list[i + 1].start ==>
              RunOf(list[i], p).value != RunOf(list[i + 1], p).value
  {
    assert Within(RunsOf(list, p)[i], p, 0, MAX_ADDRESS);
    if i + 1 < |list| {
      assert SplitAt(RunsOf(list, p), i);
    }
  }

  // Normalizing a canonical list gives the same list.
  lemma NormalizeIdempotent(list: seq<MemoryBytes>, again: seq<MemoryBytes>, content: map<nat, Byte>,
                            perms: map<nat, Perms>)
    requires content.Keys <= perms.Keys && InSpace(content)
    requires IsCanonical(list, content, PermsOf(content, perms), MAX_ADDRESS)
    requires Content(list).Keys <= perms.Keys
    requires IsCanonical(again, Content(list), PermsOf(Content(list), perms), MAX_ADDRESS)
    ensures again == list
  {
    CanonicalFacts(list, content, PermsOf(content, perms));
    CanonicalUnique(list, again, content, PermsOf(content, perms));
  }

  // Lists with equal content have equal canonical forms.
  lemma NormalizeCanonical(list: seq<MemoryBytes>, other: seq<MemoryBytes>, perms: map<nat, Perms>,
                           out: seq<MemoryBytes>, otherOut: seq<MemoryBytes>)
    requires Content(list) == Content(other) && Content(list).Keys <= perms.Keys
    requires IsCanonical(out, Content(list), PermsOf(Content(list), perms), MAX_ADDRESS)
    requires IsCanonical(otherOut, Content(other), PermsOf(Content(other), perms), MAX_ADDRESS)
    ensures out == otherOut
  {
    CanonicalUnique(out, otherOut, Content(list), PermsOf(Content(list), perms));
  }

  lemma ContentInSpace(list: seq<MemoryBytes>)
    requires AllValid(list) && Disjoint(list)
    ensures InSpace(Content(list))
  {
    forall a: nat | a in Content(list) ensures a < MAX_ADDRESS {
      ContentAt(list, a);
      var i: nat :| InBytes(list, a, i);
      assert list[i].Valid();
    }
  }
}
