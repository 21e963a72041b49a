/** What is mapped with which permissions (common/mapped_memory_map.cc), as a range map.

    The functions say what each operation does to every address; the class does it on ranges. */
module MappedMemory {
  import opened Basics
  import opened Memory
  import opened RangeMaps

  // Permissions after adding those of a mapping.
  function Painted(m: map<nat, Perms>, x: MemoryMapping): map<nat, Perms> {
    map a: nat | a in m.Keys + Range(x.start, x.Limit()) ::
      if x.Has(a) then (if a in m then m[a].Plus(x.perms) else x.perms) else m[a]
  }

  // Sets the permissions of a range.
  function Repainted(m: map<nat, Perms>, x: MemoryMapping): map<nat, Perms> {
    map a: nat | a in m.Keys + Range(x.start, x.Limit()) :: if x.Has(a) then x.perms else m[a]
  }

  // Memory after removing permissions in a range; what has none left is dropped.
  function Weakened(m: map<nat, Perms>, start: nat, limit: nat, perms: Perms): map<nat, Perms> {
    map a | a in m && !(start <= a < limit && m[a].Minus(perms).IsEmpty()) ::
      if start <= a < limit then m[a].Minus(perms) else m[a]
  }

  // Where the permissions of a range differ from the map, and in which permissions.
  function DifferenceOf(x: MemoryMapping, m: map<nat, Perms>): map<nat, Perms> {
    map a: nat | a in Range(x.start, x.Limit()) && !(a in m && m[a] == x.perms) ::
      if a in m then x.perms.Minus(m[a]) else x.perms
  }

  // Where two maps have common permissions, and which.
  function IntersectionOf(x: map<nat, Perms>, y: map<nat, Perms>): map<nat, Perms> {
    map a | a in x && a in y && x[a].HasSomeOf(y[a]) :: x[a].Meet(y[a])
  }

  // All permissions of two maps.
  function Joined(m: map<nat, Perms>, d: map<nat, Perms>): map<nat, Perms> {
    map a | a in m.Keys + d.Keys :: if a !in m then d[a] else if a in d then m[a].Plus(d[a]) else m[a]
  }

  // Memory after removing permissions at some addresses; what has none left is dropped.
  function WeakenedIn(m: map<nat, Perms>, keys: set<nat>, perms: Perms): map<nat, Perms> {
    map a | a in m && !(a in keys && m[a].Minus(perms).IsEmpty()) :: if a in keys then m[a].Minus(perms) else m[a]
  }

  // The permissions that all addresses of a range have.
  function CommonPerms(m: map<nat, Perms>, start: nat, limit: nat): Perms
    decreases limit - start
  {
    if start >= limit then ALL_PLUS_MAPPED
    else (if start in m then m[start] else NONE).Meet(CommonPerms(m, start + 1, limit))
  }

  predicate Overlaps(m: map<nat, Perms>, x: MemoryMapping) {
    exists a: nat :: x.start <= a < x.Limit() && a in m
  }

  predicate Contains(m: map<nat, Perms>, start: nat, limit: nat) {
    forall a: nat :: start <= a < limit ==> a in m
  }

  function AddPerms(p: Perms): Update<Perms> {
    (was: Option<Perms>) => if was.Some? then Some(was.value.Plus(p)) else Some(p)
  }

  function RemovePerms(p: Perms): Update<Perms> {
    (was: Option<Perms>) => if was.Some? && !was.value.Minus(p).IsEmpty() then Some(was.value.Minus(p)) else None
  }

  lemma PaintedIsChange(m: map<nat, Perms>, x: MemoryMapping)
    ensures Changed(m, x.start, x.Limit(), AddPerms(x.perms)) == Painted(m, x)
  {
    var one, two := Changed(m, x.start, x.Limit(), AddPerms(x.perms)), Painted(m, x);
    forall a: nat ensures Get(one, a) == Get(two, a) {
      ChangedAt(m, x.start, x.Limit(), AddPerms(x.perms), a);
    }
    SameMaps(one, two);
  }

  lemma WeakenedIsChange(m: map<nat, Perms>, start: nat, limit: nat, perms: Perms)
    ensures Changed(m, start, limit, RemovePerms(perms)) == Weakened(m, start, limit, perms)
  {
    var one, two := Changed(m, start, limit, RemovePerms(perms)), Weakened(m, start, limit, perms);
    forall a: nat ensures Get(one, a) == Get(two, a) {
      ChangedAt(m, start, limit, RemovePerms(perms), a);
    }
    SameMaps(one, two);
  }

  lemma SameMaps(one: map<nat, Perms>, two: map<nat, Perms>)
    requires forall a: nat :: Get(one, a) == Get(two, a)
    ensures one == two
  {
    forall a: nat ensures (a in one <==> a in two) && (a in one ==> one[a] == two[a]) {
      assert Get(one, a) == Get(two, a);
    }
  }

  // Removing all permissions removes the range, so that setting is removing and adding.
  lemma SetIsRemoveAndAdd(m: map<nat, Perms>, x: MemoryMapping)
    ensures Painted(Weakened(m, x.start, x.Limit(), ALL_PLUS_MAPPED), x) == Repainted(m, x)
    ensures Weakened(m, x.start, x.Limit(), ALL_PLUS_MAPPED) == m - Range(x.start, x.Limit())
  {
  }

  lemma JoinedPainted(m: map<nat, Perms>, d: map<nat, Perms>, x: MemoryMapping)
    ensures Painted(Joined(m, d), x) == Joined(m, Painted(d, x))
  {
  }

  lemma JoinedUnless(m: map<nat, Perms>, d: map<nat, Perms>, skip: bool, start: nat, limit: nat, perms: Perms)
    requires !skip ==> start < limit
    ensures PaintedUnless(Joined(m, d), skip, start, limit, perms) ==
            Joined(m, PaintedUnless(d, skip, start, limit, perms))
  {
    if !skip {
      JoinedPainted(m, d, MemoryMapping(start, limit - start, perms));
    }
  }

  lemma JoinedNone(m: map<nat, Perms>)
    ensures Joined(m, map[]) == m && Joined(map[], m) == m
  {
  }

  // Removing all permissions removes the addresses.
  lemma WeakenedInAll(m: map<nat, Perms>, keys: set<nat>)
    ensures WeakenedIn(m, keys, ALL_PLUS_MAPPED) == m - keys
  {
  }

  class MappedMemoryMap {
    var ranges: seq<Run<Perms>>
    ghost var contents: map<nat, Perms>

    // The ranges are the runs of the contents.
    ghost predicate Valid()
      reads this
    {
      InSpace(contents) && AreRuns(ranges, contents, 0, MAX_ADDRESS)
    }

    constructor ()
      ensures Valid() && contents == map[]
    {
      ranges, contents := [], map[];
    }

    method Add(x: MemoryMapping)
      requires Valid() && x.size > 0 && x.Limit() <= MAX_ADDRESS
      modifies this
      ensures Valid() && contents == Painted(old(contents), x)
    {
      PaintedIsChange(contents, x);
      ranges := Change(ranges, x.start, x.Limit(), AddPerms(x.perms), contents);
      contents := Painted(contents, x);
    }

    method Remove(start: nat, limit: nat, perms: Perms)
      requires Valid() && start < limit <= MAX_ADDRESS
      modifies this
      ensures Valid() && contents == Weakened(old(contents), start, limit, perms)
    {
      WeakenedIsChange(contents, start, limit, perms);
      ranges := Change(ranges, start, limit, RemovePerms(perms), contents);
      contents := Weakened(contents, start, limit, perms);
    }

    method Set(x: MemoryMapping)
      requires Valid() && x.size > 0 && x.Limit() <= MAX_ADDRESS
      modifies this
      ensures Valid() && contents == Repainted(old(contents), x)
    {
      SetIsRemoveAndAdd(contents, x);
      Remove(x.start, x.Limit(), ALL_PLUS_MAPPED);
      Add(x);
    }

    // Whether the map has all addresses of a range.
    method ContainsRange(start: nat, limit: nat) returns (covers: bool)
      requires Valid() && start <= limit <= MAX_ADDRESS
      ensures covers == Contains(contents, start, limit)
    {
      var i: nat, last: nat := LowerBound(ranges, start), UpperBound(ranges, limit);
      if start == limit {
        return true;
      }
      covers := true;
      var prev: nat := start;
      while i < last
        invariant i <= |ranges| && start <= prev && (prev > limit ==> i >= last)
        invariant forall j :: 0 <= j < i ==> ranges[j].limit <= prev
        invariant i < |ranges| ==> prev < ranges[i].limit
        invariant covers == Contains(contents, start, if prev < limit then prev else limit)
      {
        NextAfter(ranges, contents, i, limit);
        assert Within(ranges[i], contents, 0, MAX_ADDRESS);
        if prev < ranges[i].start {
          NoRun(ranges, contents, MAX_ADDRESS, prev, i);
          covers := false;
        }
        prev, i := ranges[i].limit, i + 1;
      }
      if prev < limit {
        NoRun(ranges, contents, MAX_ADDRESS, prev, i);
        covers := false;
      }
    }

    method OverlapsRange(x: MemoryMapping) returns (overlaps: bool)
      requires Valid() && x.size > 0 && x.Limit() <= MAX_ADDRESS
      ensures overlaps == Overlaps(contents, x)
    {
      var first: nat, last: nat := LowerBound(ranges, x.start), UpperBound(ranges, x.Limit());
      overlaps := first < last;
      if overlaps {
        assert Within(ranges[first], contents, 0, MAX_ADDRESS);
        var a := if x.start < ranges[first].start then ranges[first].start else x.start;
        assert a in contents;
      } else {
        assert last < |ranges| ==> Within(ranges[last], contents, 0, MAX_ADDRESS);
        forall a: nat | x.start <= a < x.Limit() ensures a !in contents {
          NoRun(ranges, contents, MAX_ADDRESS, a, first);
        }
      }
    }

    // Removes permissions in the ranges of another map.  Removing may reach beyond the range at hand
    // and merge ranges, so that the next one is found again by its address.
    method RemoveRangesOf(y: MappedMemoryMap, perms: Perms)
      requires Valid() && y.Valid() && y != this
      modifies this
      ensures Valid() && contents == WeakenedIn(old(contents), y.contents.Keys, perms)
    {
      ghost var was, theirs := contents, y.contents;
      ghost var done: nat := 0;
      var r: nat := 0;
      while r < |ranges|
        invariant Valid() && r <= |ranges| && y.ranges == old(y.ranges)
        invariant done <= MAX_ADDRESS && RemovedBelow(was, theirs, perms, contents, done)
        invariant forall j :: 0 <= j < r ==> ranges[j].limit <= done
        invariant r < |ranges| ==> done < ranges[r].limit
        decreases MAX_ADDRESS - done
      {
        var range := ranges[r];
        assert Within(range, contents, 0, MAX_ADDRESS);
        ghost var before := contents;
        FirstHas(ranges, contents, done, r);
        RemoveOverlapping(y, range, perms);
        ghost var keys := RunKeys(Found(y.ranges, range.start, range.limit));
        forall a: nat
          ensures range.Has(a) && a in theirs ==> a in keys
          ensures a in keys ==> a in theirs
        {
          FoundKeys(y.ranges, theirs, range.start, range.limit, a);
        }
        RemovedMore(was, theirs, perms, before, keys, done, range);
        done := range.limit;
        r := LowerBound(ranges, range.limit);
      }
      RemovedAll(was, theirs, perms, contents, ranges, done);
    }

    // Removes permissions in the ranges of another map that overlap a range.
    method RemoveOverlapping(y: MappedMemoryMap, range: Run<Perms>, perms: Perms)
      requires Valid() && y.Valid() && y != this && range.start < range.limit <= MAX_ADDRESS
      modifies this
      ensures Valid()
      ensures contents == WeakenedIn(old(contents), RunKeys(Found(y.ranges, range.start, range.limit)), perms)
    {
      var found := Found(y.ranges, range.start, range.limit);
      for i := 0 to |found|
        invariant Valid() && contents == WeakenedIn(old(contents), RunKeys(found[..i]), perms)
      {
        FoundWithin(y.ranges, y.contents, range.start, range.limit, i);
        RemoveFound(old(contents), found, i, perms);
        Remove(found[i].start, found[i].limit, perms);
      }
      assert found[..|found|] == found;
    }

    method AddUnless(skip: bool, start: nat, limit: nat, perms: Perms)
      requires Valid() && limit <= MAX_ADDRESS && (!skip ==> start < limit)
      modifies this
      ensures Valid() && contents == PaintedUnless(old(contents), skip, start, limit, perms)
    {
      if !skip {
        Add(MemoryMapping(start, limit - start, perms));
      }
    }

    // Adds the difference from one range of another map, and the gap before it.
    method AddPiece(x: MemoryMapping, theirs: Run<Perms>, prev: nat, ghost base: map<nat, Perms>,
                    ghost part: map<nat, Perms>)
      requires Valid() && contents == Joined(base, part) && x.Limit() <= MAX_ADDRESS
      requires x.start <= prev < x.Limit() && theirs.start < theirs.limit && theirs.start < x.Limit()
      requires prev < theirs.limit
      modifies this
      ensures Valid() && contents == Joined(base, WithPiece(part, x, theirs, prev))
    {
      var start := if x.start < theirs.start then theirs.start else x.start;
      var limit := if theirs.limit < x.Limit() then theirs.limit else x.Limit();
      var skip, perms := theirs.value == x.perms, x.perms.Minus(theirs.value);
      JoinedUnless(base, part, skip, start, limit, perms);
      AddUnless(skip, start, limit, perms);
      ghost var more := PaintedUnless(part, skip, start, limit, perms);
      JoinedUnless(base, more, prev >= theirs.start, prev, theirs.start, x.perms);
      AddUnless(prev >= theirs.start, prev, theirs.start, x.perms);
    }

    // Adds the difference of another map from a range with permissions.
    method AddDifferenceOf(x: MemoryMapping, y: MappedMemoryMap)
      requires Valid() && y.Valid() && y != this && x.size > 0 && x.Limit() <= MAX_ADDRESS
      modifies this
      ensures Valid() && contents == Joined(old(contents), DifferenceOf(x, y.contents))
    {
      ghost var base, part := contents, map[];
      JoinedNone(base);
      var i: nat, last: nat := LowerBound(y.ranges, x.start), UpperBound(y.ranges, x.Limit());
      var prev: nat := x.start;
      DifferenceNone(x, y.contents);
      while i < last
        invariant Valid() && Reaches(y.ranges, i, prev) && x.start <= prev && (i < last ==> prev < x.Limit())
        invariant i < last ==> prev == x.start || prev <= y.ranges[i].start
        invariant part == DifferenceOf(Upto(x, prev), y.contents) && contents == Joined(base, part)
      {
        var theirs := y.ranges[i];
        NextAfter(y.ranges, y.contents, i, x.Limit());
        DifferenceStep(x, y.ranges, y.contents, i, prev);
        AddPiece(x, theirs, prev, base, part);
        part := WithPiece(part, x, theirs, prev);
        prev, i := theirs.limit, i + 1;
      }
      DifferenceEnd(x, y.ranges, y.contents, i, prev);
      if prev < x.Limit() {
        JoinedPainted(base, part, MemoryMapping(prev, x.Limit() - prev, x.perms));
        Add(MemoryMapping(prev, x.Limit() - prev, x.perms));
      }
    }

    // Adds the intersection with one range of another map.
    method AddIntersectionWith(x: MappedMemoryMap, theirs: Run<Perms>, ghost y: map<nat, Perms>,
                               ghost base: map<nat, Perms>, ghost was: map<nat, Perms>)
      returns (ghost part: map<nat, Perms>)
      requires Valid() && x.Valid() && x != this && Within(theirs, y, 0, MAX_ADDRESS)
      requires IsBelow(was, IntersectionOf(x.contents, y), theirs.start) && contents == Joined(base, was)
      modifies this
      ensures Valid() && IsBelow(part, IntersectionOf(x.contents, y), theirs.limit) && contents == Joined(base, part)
    {
      part := was;
      var i: nat, last: nat := LowerBound(x.ranges, theirs.start), UpperBound(x.ranges, theirs.limit);
      ghost var prev: nat := theirs.start;
      while i < last
        invariant Valid() && Reaches(x.ranges, i, prev) && theirs.start <= prev && (i < last ==> prev < theirs.limit)
        invariant i < last ==> prev == theirs.start || prev <= x.ranges[i].start
        invariant IsBelow(part, IntersectionOf(x.contents, y), if prev < theirs.limit then prev else theirs.limit)
        invariant contents == Joined(base, part)
      {
        var ours := x.ranges[i];
        NextAfter(x.ranges, x.contents, i, theirs.limit);
        IntersectionStep(part, x.ranges, x.contents, theirs, y, i, prev);
        var common := ours.value.Meet(theirs.value);
        var start := if theirs.start < ours.start then ours.start else theirs.start;
        var limit := if ours.limit < theirs.limit then ours.limit else theirs.limit;
        JoinedUnless(base, part, common.IsEmpty(), start, limit, common);
        AddUnless(common.IsEmpty(), start, limit, common);
        part := PaintedUnless(part, common.IsEmpty(), start, limit, common);
        prev, i := ours.limit, i + 1;
      }
      IntersectionEnd(part, x.ranges, x.contents, theirs, y, i, prev);
    }

    // Adds the intersection of two maps.
    method AddIntersectionOf(x: MappedMemoryMap, y: MappedMemoryMap)
      requires Valid() && x.Valid() && y.Valid() && x != this && y != this
      modifies this
      ensures Valid() && contents == Joined(old(contents), IntersectionOf(x.contents, y.contents))
    {
      ghost var base, part := contents, map[];
      JoinedNone(base);
      ghost var both := IntersectionOf(x.contents, y.contents);
      ghost var done: nat := 0;
      for k := 0 to |y.ranges|
        invariant Valid() && done == (if k == 0 then 0 else y.ranges[k - 1].limit)
        invariant IsBelow(part, both, done) && contents == Joined(base, part)
      {
        BetweenRuns(y.ranges, y.contents, k);
        SkipBelow(part, both, done, y.ranges[k].start);
        assert Within(y.ranges[k], y.contents, 0, MAX_ADDRESS);
        part := AddIntersectionWith(x, y.ranges[k], y.contents, base, part);
        done := y.ranges[k].limit;
      }
      BetweenRuns(y.ranges, y.contents, |y.ranges|);
      SkipBelow(part, both, done, MAX_ADDRESS);
      WholeBelow(part, both);
    }
  }

  // The part of `all` below an address.
  ghost predicate IsBelow(m: map<nat, Perms>, all: map<nat, Perms>, at: nat) {
    forall a: nat {:trigger Get(m, a)} :: Get(m, a) == if a < at then Get(all, a) else None
  }

  lemma SkipBelow(m: map<nat, Perms>, all: map<nat, Perms>, at: nat, next: nat)
    requires IsBelow(m, all, at) && at <= next && forall a: nat :: at <= a < next ==> a !in all
    ensures IsBelow(m, all, next)
  {
  }

  lemma WholeBelow(m: map<nat, Perms>, all: map<nat, Perms>)
    requires IsBelow(m, all, MAX_ADDRESS) && InSpace(all)
    ensures m == all
  {
    forall a: nat ensures Get(m, a) == Get(all, a) {
    }
    SameMaps(m, all);
  }

  // Between two ranges, before the first and after the last, the map has no addresses.
  lemma BetweenRuns(runs: seq<Run<Perms>>, m: map<nat, Perms>, k: nat)
    requires AreRuns(runs, m, 0, MAX_ADDRESS) && k <= |runs|
    ensures var from, to := if k == 0 then 0 else runs[k - 1].limit, if k == |runs| then MAX_ADDRESS else runs[k].start;
            from <= to && forall a: nat :: from <= a < to ==> a !in m
  {
    var from, to := if k == 0 then 0 else runs[k - 1].limit, if k == |runs| then MAX_ADDRESS else runs[k].start;
    if k > 0 {
      NextAfter(runs, m, k - 1, 0);
      assert Within(runs[k - 1], m, 0, MAX_ADDRESS);
    }
    if k < |runs| {
      assert Within(runs[k], m, 0, MAX_ADDRESS);
    }
    forall a: nat | from <= a < to ensures a !in m {
      NoRun(runs, m, MAX_ADDRESS, a, k);
    }
  }

  lemma IntersectionStep(now: map<nat, Perms>, runs: seq<Run<Perms>>, x: map<nat, Perms>, theirs: Run<Perms>,
                         y: map<nat, Perms>, i: nat, prev: nat)
    requires AreRuns(runs, x, 0, MAX_ADDRESS) && Within(theirs, y, 0, MAX_ADDRESS) && i < |runs| &&
             Reaches(runs, i, prev)
    requires theirs.start <= prev < theirs.limit && runs[i].start < runs[i].limit && runs[i].start < theirs.limit
    requires (prev == theirs.start || prev <= runs[i].start) && IsBelow(now, IntersectionOf(x, y), prev)
    ensures var ours := runs[i];
            var start := if theirs.start < ours.start then ours.start else theirs.start;
            var limit := if ours.limit < theirs.limit then ours.limit else theirs.limit;
            var common := ours.value.Meet(theirs.value);
            start < limit &&
            IsBelow(PaintedUnless(now, common.IsEmpty(), start, limit, common), IntersectionOf(x, y), limit)
  {
    var ours := runs[i];
    assert Within(ours, x, 0, MAX_ADDRESS);
    var start := if theirs.start < ours.start then ours.start else theirs.start;
    var limit := if ours.limit < theirs.limit then ours.limit else theirs.limit;
    var common := ours.value.Meet(theirs.value);
    assert forall b: nat :: b in now ==> Get(now, b).Some?;
    forall a: nat
      ensures Get(PaintedUnless(now, common.IsEmpty(), start, limit, common), a) ==
              if a < limit then Get(IntersectionOf(x, y), a) else None
    {
      PaintedUnlessAt(now, common.IsEmpty(), start, limit, common, a);
      if prev <= a < limit {
        OnlyRun(runs, x, MAX_ADDRESS, a, i);
      }
      assert Get(now, a) == if a < prev then Get(IntersectionOf(x, y), a) else None;
    }
  }

  lemma IntersectionEnd(now: map<nat, Perms>, runs: seq<Run<Perms>>, x: map<nat, Perms>, theirs: Run<Perms>,
                        y: map<nat, Perms>, i: nat, prev: nat)
    requires AreRuns(runs, x, 0, MAX_ADDRESS) && theirs.limit <= MAX_ADDRESS && Reaches(runs, i, prev) &&
             theirs.start <= prev
    requires i < |runs| && prev < theirs.limit ==> theirs.limit <= runs[i].start
    requires IsBelow(now, IntersectionOf(x, y), if prev < theirs.limit then prev else theirs.limit)
    ensures IsBelow(now, IntersectionOf(x, y), theirs.limit)
  {
    if prev < theirs.limit {
      forall a: nat | prev <= a < theirs.limit ensures a !in IntersectionOf(x, y) {
        NoRun(runs, x, MAX_ADDRESS, a, i);
      }
      SkipBelow(now, IntersectionOf(x, y), prev, theirs.limit);
    }
  }

  // The ranges before `i` end at or before `prev`, and range `i` after it.
  ghost predicate Reaches(runs: seq<Run<Perms>>, i: nat, prev: nat) {
    i <= |runs| && (forall j :: 0 <= j < i ==> runs[j].limit <= prev) && (i < |runs| ==> prev < runs[i].limit)
  }

  function PaintedUnless(m: map<nat, Perms>, skip: bool, start: nat, limit: nat, perms: Perms): map<nat, Perms>
    requires !skip ==> start < limit
  {
    if skip then m else Painted(m, MemoryMapping(start, limit - start, perms))
  }

  lemma PaintedUnlessAt(m: map<nat, Perms>, skip: bool, start: nat, limit: nat, perms: Perms, a: nat)
    requires !skip ==> start < limit && forall b: nat :: b in m ==> !(start <= b < limit)
    ensures Get(PaintedUnless(m, skip, start, limit, perms), a) ==
            if !skip && start <= a < limit then Some(perms) else Get(m, a)
  {
  }

  // A map with the difference from one more range, and the gap before it.
  ghost function WithPiece(m: map<nat, Perms>, x: MemoryMapping, theirs: Run<Perms>, prev: nat): map<nat, Perms>
    requires x.start <= prev < x.Limit() && theirs.start < theirs.limit && theirs.start < x.Limit() &&
             prev < theirs.limit
  {
    var start := if x.start < theirs.start then theirs.start else x.start;
    var limit := if theirs.limit < x.Limit() then theirs.limit else x.Limit();
    PaintedUnless(PaintedUnless(m, theirs.value == x.perms, start, limit, x.perms.Minus(theirs.value)),
                  prev >= theirs.start, prev, theirs.start, x.perms)
  }

  // The ranges that overlap the given one.
  function Found(runs: seq<Run<Perms>>, start: nat, limit: nat): seq<Run<Perms>> {
    if LowerBound(runs, start) <= UpperBound(runs, limit) then
      runs[LowerBound(runs, start)..UpperBound(runs, limit)]
    else
      []
  }

  lemma RemoveFound(m: map<nat, Perms>, found: seq<Run<Perms>>, i: nat, perms: Perms)
    requires i < |found| && found[i].start <= found[i].limit
    ensures Weakened(WeakenedIn(m, RunKeys(found[..i]), perms), found[i].start, found[i].limit, perms) ==
            WeakenedIn(m, RunKeys(found[..i + 1]), perms)
  {
    var keys, next := RunKeys(found[..i]), RunKeys(found[..i + 1]);
    assert found[..i + 1][..i] == found[..i];
    assert next == keys + Range(found[i].start, found[i].limit);
    forall a: nat
      ensures Get(Weakened(WeakenedIn(m, keys, perms), found[i].start, found[i].limit, perms), a) ==
              Get(WeakenedIn(m, next, perms), a)
    {
      assert a in Range(found[i].start, found[i].limit) <==> found[i].Has(a);
    }
    SameMaps(Weakened(WeakenedIn(m, keys, perms), found[i].start, found[i].limit, perms), WeakenedIn(m, next, perms));
  }

  lemma FoundWithin(runs: seq<Run<Perms>>, m: map<nat, Perms>, start: nat, limit: nat, i: nat)
    requires AreRuns(runs, m, 0, MAX_ADDRESS) && i < |Found(runs, start, limit)|
    ensures Within(Found(runs, start, limit)[i], m, 0, MAX_ADDRESS)
  {
    assert Within(runs[LowerBound(runs, start) + i], m, 0, MAX_ADDRESS);
  }

  // All addresses of the range that the map has are found, and only addresses of the map.
  lemma FoundKeys(runs: seq<Run<Perms>>, m: map<nat, Perms>, start: nat, limit: nat, a: nat)
    requires AreRuns(runs, m, 0, MAX_ADDRESS) && InSpace(m)
    ensures a in m && start <= a < limit ==> a in RunKeys(Found(runs, start, limit))
    ensures a in RunKeys(Found(runs, start, limit)) ==> a in m
  {
    var found := Found(runs, start, limit);
    RunKeysCovered(found, a);
    if a in m && start <= a < limit {
      assert Covered(runs, a);
      var j: nat :| InRun(runs, a, j);
      OverlapIsFound(runs, m, start, limit, a, j);
      assert InRun(found, a, j - LowerBound(runs, start));
    }
    if Covered(found, a) {
      var j: nat :| InRun(found, a, j);
      FoundWithin(runs, m, start, limit, j);
    }
  }

  // The part of a mapping below an address.
  function Upto(x: MemoryMapping, at: nat): MemoryMapping
    requires x.start <= at
  {
    x.(size := if at < x.Limit() then at - x.start else x.size)
  }

  lemma DifferenceNone(x: MemoryMapping, m: map<nat, Perms>)
    ensures x.size > 0 ==> DifferenceOf(Upto(x, x.start), m) == map[]
  {
  }

  lemma DifferenceStep(x: MemoryMapping, runs: seq<Run<Perms>>, m: map<nat, Perms>, i: nat, prev: nat)
    requires AreRuns(runs, m, 0, MAX_ADDRESS) && i < |runs| && x.start <= prev < x.Limit() <= MAX_ADDRESS
    requires Reaches(runs, i, prev) && runs[i].start < runs[i].limit && runs[i].start < x.Limit()
    requires prev == x.start || prev <= runs[i].start
    ensures WithPiece(DifferenceOf(Upto(x, prev), m), x, runs[i], prev) == DifferenceOf(Upto(x, runs[i].limit), m)
  {
    var r := runs[i];
    assert Within(r, m, 0, MAX_ADDRESS);
    var one, two := WithPiece(DifferenceOf(Upto(x, prev), m), x, r, prev), DifferenceOf(Upto(x, r.limit), m);
    forall a: nat ensures Get(one, a) == Get(two, a) {
      if prev <= a < r.limit {
        OnlyRun(runs, m, MAX_ADDRESS, a, i);
      }
      WithPieceAt(DifferenceOf(Upto(x, prev), m), x, r, prev, a);
    }
    SameMaps(one, two);
  }

  lemma WithPieceAt(m: map<nat, Perms>, x: MemoryMapping, theirs: Run<Perms>, prev: nat, a: nat)
    requires x.start <= prev < x.Limit() && theirs.start < theirs.limit && theirs.start < x.Limit() &&
             prev < theirs.limit
    requires (prev == x.start || prev <= theirs.start) && forall b: nat :: b in m ==> b < prev
    ensures Get(WithPiece(m, x, theirs, prev), a) ==
            if a < prev || a >= theirs.limit || a >= x.Limit() then Get(m, a)
            else if a < theirs.start then Some(x.perms)
            else if theirs.value != x.perms then Some(x.perms.Minus(theirs.value))
            else None
  {
    var start := if x.start < theirs.start then theirs.start else x.start;
    var limit := if theirs.limit < x.Limit() then theirs.limit else x.Limit();
    var n := PaintedUnless(m, theirs.value == x.perms, start, limit, x.perms.Minus(theirs.value));
    PaintedUnlessAt(m, theirs.value == x.perms, start, limit, x.perms.Minus(theirs.value), a);
    PaintedUnlessAt(n, prev >= theirs.start, prev, theirs.start, x.perms, a);
  }

  lemma DifferenceEnd(x: MemoryMapping, runs: seq<Run<Perms>>, m: map<nat, Perms>, i: nat, prev: nat)
    requires AreRuns(runs, m, 0, MAX_ADDRESS) && Reaches(runs, i, prev) && x.start <= prev && x.Limit() <= MAX_ADDRESS
    requires i < |runs| && prev < x.Limit() ==> x.Limit() <= runs[i].start
    ensures var one := DifferenceOf(Upto(x, prev), m);
            DifferenceOf(x, m) ==
              if prev < x.Limit() then Painted(one, MemoryMapping(prev, x.Limit() - prev, x.perms)) else one
  {
    forall a: nat | prev <= a < x.Limit() ensures a !in m {
      NoRun(runs, m, MAX_ADDRESS, a, i);
    }
  }

  // A range with an address of the given one is among those found for it.
  lemma OverlapIsFound(runs: seq<Run<Perms>>, m: map<nat, Perms>, start: nat, limit: nat, a: nat, j: nat)
    requires AreRuns(runs, m, 0, MAX_ADDRESS) && start <= a < limit && InRun(runs, a, j)
    ensures LowerBound(runs, start) <= j < UpperBound(runs, limit)
  {
    var last := UpperBound(runs, limit);
    if last < j {
      assert Within(runs[last], m, 0, MAX_ADDRESS);
      RunsOrdered(runs, m, 0, MAX_ADDRESS, last, j);
    }
  }

  // The permissions are removed at the addresses of `theirs` below `done`, and perhaps at later ones.
  ghost predicate RemovedBelow(was: map<nat, Perms>, theirs: map<nat, Perms>, perms: Perms, now: map<nat, Perms>,
                               done: nat)
  {
    forall a: nat {:trigger Get(now, a)} ::
      || Get(now, a) == Get(WeakenedIn(was, theirs.Keys, perms), a)
      || (done <= a && Get(now, a) == Get(was, a))
  }

  lemma RemovedMore(was: map<nat, Perms>, theirs: map<nat, Perms>, perms: Perms, before: map<nat, Perms>,
                    keys: set<nat>, done: nat, range: Run<Perms>)
    requires RemovedBelow(was, theirs, perms, before, done) && done <= range.limit
    requires forall a: nat :: a in before && done <= a < range.limit ==> range.Has(a)
    requires forall a: nat :: range.Has(a) && a in theirs ==> a in keys
    requires forall a: nat :: a in keys ==> a in theirs
    ensures RemovedBelow(was, theirs, perms, WeakenedIn(before, keys, perms), range.limit)
  {
    var now, all := WeakenedIn(before, keys, perms), WeakenedIn(was, theirs.Keys, perms);
    forall a: nat
      ensures Get(now, a) == Get(all, a) || (range.limit <= a && Get(now, a) == Get(was, a))
    {
      assert Get(before, a) == Get(all, a) || (done <= a && Get(before, a) == Get(was, a));
    }
  }

  lemma FirstHas(runs: seq<Run<Perms>>, m: map<nat, Perms>, done: nat, r: nat)
    requires AreRuns(runs, m, 0, MAX_ADDRESS) && r < |runs| && done < runs[r].limit
    requires forall j :: 0 <= j < r ==> runs[j].limit <= done
    ensures forall a: nat :: a in m && done <= a < runs[r].limit ==> runs[r].Has(a)
  {
    assert Within(runs[r], m, 0, MAX_ADDRESS);
    forall a: nat | a in m && done <= a < runs[r].limit ensures runs[r].Has(a) {
      OnlyRun(runs, m, MAX_ADDRESS, a, r);
    }
  }

  lemma RemovedAll(was: map<nat, Perms>, theirs: map<nat, Perms>, perms: Perms, now: map<nat, Perms>,
                   runs: seq<Run<Perms>>, done: nat)
    requires RemovedBelow(was, theirs, perms, now, done) && InSpace(now) && AreRuns(runs, now, 0, MAX_ADDRESS)
    requires forall j :: 0 <= j < |runs| ==> runs[j].limit <= done
    ensures now == WeakenedIn(was, theirs.Keys, perms)
  {
    forall a: nat | a in now ensures a < done {
      assert Covered(runs, a);
      var j: nat :| InRun(runs, a, j);
    }
    forall a: nat ensures Get(now, a) == Get(WeakenedIn(was, theirs.Keys, perms), a) {
    }
    SameMaps(now, WeakenedIn(was, theirs.Keys, perms));
  }
}
