/** Addresses, permissions, and the runs of equal values that a range map stores
    (common/memory_perms.h, common/memory_mapping.h, common/mapped_memory_map.h and the
    MemoryBytes of common/snapshot.h).

    A range map is a finite map from addresses to values.  What it stores and iterates over are
    the runs of the map, in order: the longest ranges of neighbours with equal values. */
module Memory {
  import opened Basics

  // The largest address.  It is the limit of the last range, and so lies in no range.
  const MAX_ADDRESS: nat := 0xFFFF_FFFF_FFFF_FFFF

  datatype Perms = Perms(r: bool, w: bool, x: bool, mapped: bool) {
    predicate IsEmpty() {
      !r && !w && !x && !mapped
    }

    function Plus(y: Perms): Perms {
      Perms(r || y.r, w || y.w, x || y.x, mapped || y.mapped)
    }

    function Minus(y: Perms): Perms {
      Perms(r && !y.r, w && !y.w, x && !y.x, mapped && !y.mapped)
    }

    function Meet(y: Perms): Perms {
      Perms(r && y.r, w && y.w, x && y.x, mapped && y.mapped)
    }

    predicate HasSomeOf(y: Perms) {
      !Meet(y).IsEmpty()
    }
  }

  const NONE := Perms(false, false, false, false)
  const ALL := Perms(true, true, true, false)
  const ALL_PLUS_MAPPED := Perms(true, true, true, true)
  const MAPPED := Perms(false, false, false, true)

  // A range of addresses with a value.
  datatype Run<V> = Run(start: nat, limit: nat, value: V) {
    predicate Has(a: nat) {
      start <= a < limit
    }
  }

  ghost predicate InSpace<V>(m: map<nat, V>) {
    forall a: nat :: a in m ==> a < MAX_ADDRESS
  }

  // Where the run around `a` ends.
  function RunLimit<V(==)>(m: map<nat, V>, a: nat, hi: nat): (limit: nat)
    requires a < hi && a in m
    ensures a < limit <= hi
    ensures forall b: nat :: a <= b < limit ==> b in m && m[b] == m[a]
    ensures limit < hi ==> limit !in m || m[limit] != m[a]
    decreases hi - a
  {
    if a + 1 < hi && a + 1 in m && m[a + 1] == m[a] then RunLimit(m, a + 1, hi) else a + 1
  }

  // The runs between `a` and `hi`.
  function RunsFrom<V(==)>(m: map<nat, V>, a: nat, hi: nat): seq<Run<V>>
    requires a <= hi
    decreases hi - a
  {
    if a == hi then []
    else if a !in m then RunsFrom(m, a + 1, hi)
    else
      var limit := RunLimit(m, a, hi);
      [Run(a, limit, m[a])] + RunsFrom(m, limit, hi)
  }

  // The ranges of a range map, in order.
  function Runs<V(==)>(m: map<nat, V>): seq<Run<V>> {
    RunsFrom(m, 0, MAX_ADDRESS)
  }

  // Two neighbours in a list of runs: in order, apart, and not to be merged.
  predicate Split<V(==)>(r: Run<V>, s: Run<V>) {
    r.limit < s.start || (r.limit == s.start && r.value != s.value)
  }

  predicate SplitAt<V(==)>(runs: seq<Run<V>>, i: nat)
    requires i < |runs| - 1
  {
    Split(runs[i], runs[i + 1])
  }

  ghost predicate Within<V>(r: Run<V>, m: map<nat, V>, lo: nat, hi: nat) {
    && lo <= r.start < r.limit <= hi
    && forall a: nat :: r.start <= a < r.limit ==> a in m && m[a] == r.value
  }

  // The index of the run of an address.
  ghost predicate InRun<V>(runs: seq<Run<V>>, a: nat, i: nat) {
    i < |runs| && runs[i].Has(a)
  }

  ghost predicate Covered<V>(runs: seq<Run<V>>, a: nat) {
    exists i: nat :: InRun(runs, a, i)
  }

  // The runs are those of the map between `lo` and `hi`.
  ghost predicate AreRuns<V>(runs: seq<Run<V>>, m: map<nat, V>, lo: nat, hi: nat) {
    && (forall i :: 0 <= i < |runs| ==> Within(runs[i], m, lo, hi))
    && (forall i :: 0 <= i < |runs| - 1 ==> SplitAt(runs, i))
    && (forall a: nat {:trigger Covered(runs, a)} :: lo <= a < hi && a in m ==> Covered(runs, a))
  }

  lemma {:induction false} RunsAreRuns<V>(m: map<nat, V>, a: nat, hi: nat)
    requires a <= hi
    ensures AreRuns(RunsFrom(m, a, hi), m, a, hi)
    decreases hi - a
  {
    if a < hi {
      if a !in m {
        RunsAreRuns(m, a + 1, hi);
      } else {
        var first, rest := Run(a, RunLimit(m, a, hi), m[a]), RunsFrom(m, RunLimit(m, a, hi), hi);
        RunsAreRuns(m, first.limit, hi);
        PrependRun(m, first, rest, hi);
      }
    }
  }

  lemma PrependRun<V>(m: map<nat, V>, first: Run<V>, rest: seq<Run<V>>, hi: nat)
    requires Within(first, m, first.start, hi) && AreRuns(rest, m, first.limit, hi)
    requires first.limit < hi ==> first.limit !in m || m[first.limit] != first.value
    ensures AreRuns([first] + rest, m, first.start, hi)
  {
    var runs := [first] + rest;
    forall i | 0 <= i < |runs| ensures Within(runs[i], m, first.start, hi) {
      if i > 0 {
        assert Within(rest[i - 1], m, first.limit, hi);
      }
    }
    forall i | 0 <= i < |runs| - 1 ensures SplitAt(runs, i) {
      if i > 0 {
        assert SplitAt(rest, i - 1);
      } else {
        assert Within(rest[0], m, first.limit, hi);
      }
    }
    forall a: nat | first.start <= a < hi && a in m ensures Covered(runs, a) {
      if a < first.limit {
        assert InRun(runs, a, 0);
      } else {
        assert Covered(rest, a);
        var i: nat :| InRun(rest, a, i);
        assert InRun(runs, a, i + 1);
      }
    }
  }

  lemma {:induction false} RunsOrdered<V>(runs: seq<Run<V>>, m: map<nat, V>, lo: nat, hi: nat, i: nat, j: nat)
    requires AreRuns(runs, m, lo, hi) && i < j < |runs|
    ensures runs[i].limit <= runs[j].start
    decreases j
  {
    assert SplitAt(runs, j - 1) && Within(runs[j - 1], m, lo, hi);
    if i < j - 1 {
      RunsOrdered(runs, m, lo, hi, i, j - 1);
    }
  }

  lemma RunsTail<V>(runs: seq<Run<V>>, m: map<nat, V>, lo: nat, hi: nat)
    requires AreRuns(runs, m, lo, hi) && runs != []
    ensures AreRuns(runs[1..], m, runs[0].limit, hi)
  {
    var tail := runs[1..];
    assert Within(runs[0], m, lo, hi);
    forall i | 0 <= i < |tail| ensures Within(tail[i], m, runs[0].limit, hi) {
      assert Within(runs[i + 1], m, lo, hi);
      RunsOrdered(runs, m, lo, hi, 0, i + 1);
    }
    forall i | 0 <= i < |tail| - 1 ensures SplitAt(tail, i) {
      assert SplitAt(runs, i + 1);
    }
    forall a: nat | runs[0].limit <= a < hi && a in m ensures Covered(tail, a) {
      assert Covered(runs, a);
      var i: nat :| InRun(runs, a, i);
      assert InRun(tail, a, i - 1);
    }
  }

  // The first run starts at the first address of the map and ends where the value ends.
  lemma FirstRun<V>(runs: seq<Run<V>>, m: map<nat, V>, lo: nat, hi: nat)
    requires AreRuns(runs, m, lo, hi) && lo < hi && lo in m
    ensures runs != [] && runs[0] == Run(lo, RunLimit(m, lo, hi), m[lo])
  {
    assert Covered(runs, lo);
    var i: nat :| InRun(runs, lo, i);
    assert Within(runs[0], m, lo, hi) && Within(runs[i], m, lo, hi);
    if i > 0 {
      RunsOrdered(runs, m, lo, hi, 0, i);
    }
    var limit, end := RunLimit(m, lo, hi), runs[0].limit;
    assert m[lo] == runs[0].value;
    if end < limit {
      assert end in m && m[end] == m[lo];
      assert Covered(runs, end) && SplitAt(runs, 0);
      var j: nat :| InRun(runs, end, j);
      assert Within(runs[j], m, lo, hi) && Within(runs[1], m, lo, hi);
      if j > 1 {
        RunsOrdered(runs, m, lo, hi, 1, j);
      }
    }
  }

  lemma RunsNeedSpace<V>(runs: seq<Run<V>>, m: map<nat, V>, lo: nat, hi: nat)
    requires AreRuns(runs, m, lo, hi) && runs != []
    ensures lo < hi
  {
    assert Within(runs[0], m, lo, hi);
  }

  // The runs of a map are unique.
  lemma {:induction false} RunsUnique<V>(runs: seq<Run<V>>, m: map<nat, V>, lo: nat, hi: nat)
    requires lo <= hi && AreRuns(runs, m, lo, hi)
    ensures runs == RunsFrom(m, lo, hi)
    decreases hi - lo
  {
    if lo == hi {
      if runs != [] {
        RunsNeedSpace(runs, m, lo, hi);
      }
    } else if lo in m {
      FirstRun(runs, m, lo, hi);
      RunsTail(runs, m, lo, hi);
      RunsUnique(runs[1..], m, RunLimit(m, lo, hi), hi);
    } else {
      forall i | 0 <= i < |runs| ensures Within(runs[i], m, lo + 1, hi) {
        assert Within(runs[i], m, lo, hi);
        assert runs[i].start in m;
      }
      RunsUnique(runs, m, lo + 1, hi);
    }
  }

  // The ways to grow the runs below `hi`: nothing new, another run, or a longer last run.
  lemma SkipRuns<V>(runs: seq<Run<V>>, m: map<nat, V>, hi: nat, next: nat)
    requires AreRuns(runs, m, 0, hi) && hi <= next
    requires forall a: nat :: hi <= a < next ==> a !in m
    ensures AreRuns(runs, m, 0, next)
  {
    forall i | 0 <= i < |runs| ensures Within(runs[i], m, 0, next) {
      assert Within(runs[i], m, 0, hi);
    }
  }

  lemma AppendRun<V>(runs: seq<Run<V>>, m: map<nat, V>, next: Run<V>)
    requires AreRuns(runs, m, 0, next.start) && Within(next, m, next.start, next.limit)
    requires runs != [] ==> Split(runs[|runs| - 1], next)
    ensures AreRuns(runs + [next], m, 0, next.limit)
  {
    var now := runs + [next];
    forall i | 0 <= i < |now| ensures Within(now[i], m, 0, next.limit) {
      if i < |runs| {
        assert Within(runs[i], m, 0, next.start);
      }
    }
    forall i | 0 <= i < |now| - 1 ensures SplitAt(now, i) {
      if i < |runs| - 1 {
        assert SplitAt(runs, i);
      }
    }
    forall a: nat | a < next.limit && a in m ensures Covered(now, a) {
      if a < next.start {
        assert Covered(runs, a);
        var i: nat :| InRun(runs, a, i);
        assert InRun(now, a, i);
      } else {
        assert InRun(now, a, |runs|);
      }
    }
  }

  lemma ExtendRun<V>(runs: seq<Run<V>>, last: Run<V>, m: map<nat, V>, limit: nat)
    requires AreRuns(runs + [last], m, 0, last.limit) && last.limit <= limit
    requires forall a: nat :: last.limit <= a < limit ==> a in m && m[a] == last.value
    ensures AreRuns(runs + [last.(limit := limit)], m, 0, limit)
  {
    var was, now := runs + [last], runs + [last.(limit := limit)];
    assert Within(was[|runs|], m, 0, last.limit);
    forall i | 0 <= i < |now| ensures Within(now[i], m, 0, limit) {
      if i < |runs| {
        assert Within(was[i], m, 0, last.limit);
      }
    }
    forall i | 0 <= i < |now| - 1 ensures SplitAt(now, i) {
      assert SplitAt(was, i);
    }
    forall a: nat | a < limit && a in m ensures Covered(now, a) {
      if a < last.limit {
        assert Covered(was, a);
        var i: nat :| InRun(was, a, i);
        assert InRun(now, a, i);
      } else {
        assert InRun(now, a, |runs|);
      }
    }
  }

  // The first range that overlaps or starts after `k`.
  function LowerBound<V>(runs: seq<Run<V>>, k: nat, i: nat := 0): (r: nat)
    requires i <= |runs|
    ensures i <= r <= |runs|
    ensures forall j :: i <= j < r ==> runs[j].limit <= k
    ensures r < |runs| ==> k < runs[r].limit
    decreases |runs| - i
  {
    if i < |runs| && runs[i].limit <= k then LowerBound(runs, k, i + 1) else i
  }

  // The range after the last one that overlaps or ends before `k`.
  function UpperBound<V>(runs: seq<Run<V>>, k: nat, i: nat := 0): (r: nat)
    requires i <= |runs|
    ensures i <= r <= |runs|
    ensures forall j :: i <= j < r ==> runs[j].start < k
    ensures r < |runs| ==> k <= runs[r].start
    decreases |runs| - i
  {
    if i < |runs| && runs[i].start < k then UpperBound(runs, k, i + 1) else i
  }

  // If the runs before `i` end at or before `a`, only run `i` can have it.
  lemma OnlyRun<V>(runs: seq<Run<V>>, m: map<nat, V>, hi: nat, a: nat, i: nat)
    requires AreRuns(runs, m, 0, hi) && a < hi && i < |runs| && a < runs[i].limit
    requires forall j :: 0 <= j < i ==> runs[j].limit <= a
    ensures a in m <==> runs[i].Has(a)
  {
    assert Within(runs[i], m, 0, hi);
    if a in m {
      assert Covered(runs, a);
      var j: nat :| InRun(runs, a, j);
      if j > i {
        RunsOrdered(runs, m, 0, hi, i, j);
      }
    }
  }

  // If the runs before `i` end at or before `a`, and the others start after it, none has it.
  lemma NoRun<V>(runs: seq<Run<V>>, m: map<nat, V>, hi: nat, a: nat, i: nat)
    requires AreRuns(runs, m, 0, hi) && a < hi && i <= |runs|
    requires forall j :: 0 <= j < i ==> runs[j].limit <= a
    requires i < |runs| ==> a < runs[i].start
    ensures a !in m
  {
    if a in m {
      assert Covered(runs, a);
      var j: nat :| InRun(runs, a, j);
      if j > i {
        assert Within(runs[i], m, 0, hi);
        RunsOrdered(runs, m, 0, hi, i, j);
      }
    }
  }

  // A run starts and ends where the value does.
  lemma RunStartsFresh<V>(runs: seq<Run<V>>, m: map<nat, V>, hi: nat, i: nat)
    requires AreRuns(runs, m, 0, hi) && i < |runs| && runs[i].start > 0
    ensures runs[i].start - 1 !in m || m[runs[i].start - 1] != runs[i].value
  {
    var b := runs[i].start - 1;
    assert Within(runs[i], m, 0, hi);
    if i > 0 {
      assert SplitAt(runs, i - 1) && Within(runs[i - 1], m, 0, hi);
    }
    if b in m {
      assert Covered(runs, b);
      var j: nat :| InRun(runs, b, j);
      assert Within(runs[j], m, 0, hi);
      if i < j {
        RunsOrdered(runs, m, 0, hi, i, j);
      } else if j < i - 1 {
        RunsOrdered(runs, m, 0, hi, j, i - 1);
      }
    }
  }

  lemma RunEndsFresh<V>(runs: seq<Run<V>>, m: map<nat, V>, hi: nat, i: nat)
    requires AreRuns(runs, m, 0, hi) && i < |runs| && runs[i].limit < hi
    ensures runs[i].limit !in m || m[runs[i].limit] != runs[i].value
  {
    var b := runs[i].limit;
    assert Within(runs[i], m, 0, hi);
    if i + 1 < |runs| {
      assert SplitAt(runs, i) && Within(runs[i + 1], m, 0, hi);
    }
    if b in m {
      assert Covered(runs, b);
      var j: nat :| InRun(runs, b, j);
      assert Within(runs[j], m, 0, hi);
      if j < i {
        RunsOrdered(runs, m, 0, hi, j, i);
      } else if i + 1 < j {
        RunsOrdered(runs, m, 0, hi, i + 1, j);
      }
    }
  }

  // The addresses of a map.
  function Domain<V>(m: map<nat, V>): (d: map<nat, ()>)
    ensures d.Keys == m.Keys
  {
    map a | a in m :: ()
  }

  // A mapping: a range of addresses and its permissions.
  datatype MemoryMapping = MemoryMapping(start: nat, size: nat, perms: Perms) {
    function Limit(): nat {
      start + size
    }

    predicate Has(a: nat) {
      start <= a < Limit()
    }

    // What the factories of the source check.
    predicate Valid() {
      size > 0 && start + size <= MAX_ADDRESS && !perms.mapped
    }
  }

  // The values of the bytes of a range of addresses.
  datatype MemoryBytes = MemoryBytes(start: nat, data: seq<Byte>) {
    function Limit(): nat {
      start + |data|
    }

    predicate Has(a: nat) {
      start <= a < Limit()
    }

    function At(a: nat): Byte
      requires Has(a)
    {
      data[a - start]
    }

    // What the constructor of the source checks.
    predicate Valid() {
      data != [] && start + |data| <= MAX_ADDRESS
    }

    // The bytes of a subrange.
    function Range(from: nat, to: nat): MemoryBytes
      requires start <= from <= to <= Limit()
    {
      MemoryBytes(from, data[from - start..to - start])
    }
  }

  predicate Between(a: nat, start: nat, limit: nat) {
    start <= a < limit
  }

  function Range(start: nat, limit: nat): set<nat> {
    set a: nat | 0 <= a < limit && Between(a, start, limit)
  }

  // The addresses of a list of runs.
  function RunKeys<V>(runs: seq<Run<V>>): set<nat> {
    if runs == [] then {} else RunKeys(runs[..|runs| - 1]) + Range(runs[|runs| - 1].start, runs[|runs| - 1].limit)
  }

  lemma {:induction false} RunKeysCovered<V>(runs: seq<Run<V>>, a: nat)
    ensures a in RunKeys(runs) <==> Covered(runs, a)
  {
    if runs != [] {
      var n := |runs| - 1;
      RunKeysCovered(runs[..n], a);
      assert forall i: nat :: InRun(runs[..n], a, i) ==> InRun(runs, a, i);
      if Covered(runs, a) {
        var i: nat :| InRun(runs, a, i);
        assert i < n ==> InRun(runs[..n], a, i);
      }
      if runs[n].Has(a) {
        assert InRun(runs, a, n);
      }
    }
  }

  lemma RunKeysAll<V>(m: map<nat, V>)
    requires InSpace(m)
    ensures RunKeys(Runs(m)) == m.Keys
  {
    var runs := Runs(m);
    RunsAreRuns(m, 0, MAX_ADDRESS);
    forall a: nat ensures a in RunKeys(runs) <==> a in m {
      RunKeysCovered(runs, a);
      if Covered(runs, a) {
        var i: nat :| InRun(runs, a, i);
        assert Within(runs[i], m, 0, MAX_ADDRESS);
      }
    }
  }

  // A run has none of the addresses of the runs before it.
  lemma RunKeysFresh<V>(m: map<nat, V>, i: nat, a: nat)
    requires i < |Runs(m)| && Runs(m)[i].Has(a)
    ensures a !in RunKeys(Runs(m)[..i]) && a in m && m[a] == Runs(m)[i].value
  {
    var runs := Runs(m);
    RunsAreRuns(m, 0, MAX_ADDRESS);
    assert Within(runs[i], m, 0, MAX_ADDRESS);
    RunKeysCovered(runs[..i], a);
    forall j: nat ensures !InRun(runs[..i], a, j) {
      if j < i {
        RunsOrdered(runs, m, 0, MAX_ADDRESS, j, i);
      }
    }
  }

  // Memory after writing bytes to it.
  function Written(m: map<nat, Byte>, b: MemoryBytes): map<nat, Byte> {
    map a: nat | a in m.Keys + Range(b.start, b.Limit()) :: if b.Has(a) then b.At(a) else m[a]
  }

  // Memory after writing a list of bytes to it.
  function WrittenAll(m: map<nat, Byte>, list: seq<MemoryBytes>): map<nat, Byte> {
    if list == [] then m else Written(WrittenAll(m, list[..|list| - 1]), list[|list| - 1])
  }

  predicate Separate(b: MemoryBytes, c: MemoryBytes) {
    b.Limit() <= c.start || c.Limit() <= b.start
  }

  ghost predicate Disjoint(list: seq<MemoryBytes>) {
    forall i: nat, j: nat :: i < j < |list| ==> Separate(list[i], list[j])
  }

  ghost predicate InBytes(list: seq<MemoryBytes>, a: nat, i: nat) {
    i < |list| && list[i].Has(a)
  }

  ghost predicate Among(list: seq<MemoryBytes>, a: nat) {
    exists i: nat :: InBytes(list, a, i)
  }

  // What a disjoint list leaves at an address that one of its elements has.
  lemma {:induction false} WrittenInside(m: map<nat, Byte>, list: seq<MemoryBytes>, a: nat, i: nat)
    requires Disjoint(list) && InBytes(list, a, i)
    ensures a in WrittenAll(m, list) && WrittenAll(m, list)[a] == list[i].At(a)
  {
    var init := list[..|list| - 1];
    if i < |list| - 1 {
      assert InBytes(init, a, i);
      assert Separate(list[i], list[|list| - 1]);
      WrittenInside(m, init, a, i);
    }
  }

  // What a list leaves at an address that none of its elements has.
  lemma {:induction false} WrittenOutside(m: map<nat, Byte>, list: seq<MemoryBytes>, a: nat)
    requires !Among(list, a)
    ensures a in WrittenAll(m, list) <==> a in m
    ensures a in m ==> WrittenAll(m, list)[a] == m[a]
  {
    if list != [] {
      var init := list[..|list| - 1];
      assert !InBytes(list, a, |list| - 1);
      assert forall i: nat :: InBytes(init, a, i) ==> InBytes(list, a, i);
      WrittenOutside(m, init, a);
    }
  }
}
