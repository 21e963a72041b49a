/** The range map under all memory maps (util/range_map.h): a change of a range splits the stored
    ranges that it overlaps, and then merges neighbours around it only. */
module RangeMaps {
  import opened Basics
  import opened Memory

  // How a value at an address changes; None is no value.
  type Update<!V> = Option<V> -> Option<V>

  function Get<V>(m: map<nat, V>, a: nat): Option<V> {
    if a in m then Some(m[a]) else None
  }

  // The map with the values of a range changed, address by address.
  ghost function Changed<V>(m: map<nat, V>, start: nat, limit: nat, f: Update<V>): (r: map<nat, V>)
    ensures forall a: nat :: a in r <==> if start <= a < limit then f(Get(m, a)).Some? else a in m
    ensures forall a: nat :: a in r ==> Some(r[a]) == if start <= a < limit then f(Get(m, a)) else Some(m[a])
  {
    map a: nat | a in m.Keys + Range(start, limit) && (start <= a < limit ==> f(Get(m, a)).Some?) ::
      if start <= a < limit then f(Get(m, a)).value else m[a]
  }

  function OneRun<V>(start: nat, limit: nat, value: Option<V>): seq<Run<V>> {
    if start < limit && value.Some? then [Run(start, limit, value.value)] else []
  }

  // Ranges in order that make up a map between two addresses, but may still have to be merged.
  ghost predicate AreTiles<V>(tiles: seq<Run<V>>, m: map<nat, V>, lo: nat, hi: nat) {
    && (forall i :: 0 <= i < |tiles| ==> Within(tiles[i], m, lo, hi))
    && (forall i: nat, j: nat :: i < j < |tiles| ==> tiles[i].limit <= tiles[j].start)
    && (forall a: nat {:trigger Covered(tiles, a)} :: lo <= a < hi && a in m ==> Covered(tiles, a))
  }

  lemma AppendTile<V>(tiles: seq<Run<V>>, m: map<nat, V>, lo: nat, hi: nat, next: nat, value: Option<V>)
    requires AreTiles(tiles, m, lo, hi) && lo <= hi <= next
    requires forall a: nat :: hi <= a < next ==> Get(m, a) == value
    ensures AreTiles(tiles + OneRun(hi, next, value), m, lo, next)
  {
    var now := tiles + OneRun(hi, next, value);
    forall i | 0 <= i < |now| ensures Within(now[i], m, lo, next) {
      if i < |tiles| {
        assert Within(tiles[i], m, lo, hi);
      } else {
        forall a: nat | hi <= a < next ensures a in m && m[a] == value.value {
          assert Get(m, a) == value;
        }
      }
    }
    forall i: nat, j: nat | i < j < |now| ensures now[i].limit <= now[j].start {
      assert Within(tiles[i], m, lo, hi);
    }
    forall a: nat | lo <= a < next && a in m ensures Covered(now, a) {
      if a < hi {
        assert Covered(tiles, a);
        var i: nat :| InRun(tiles, a, i);
        assert InRun(now, a, i);
      } else {
        assert Get(m, a) == value;
        assert InRun(now, a, |tiles|);
      }
    }
  }

  // Splits the ranges that overlap the changed one, and fills the gaps between them.
  method SplitRanges<V(==)>(runs: seq<Run<V>>, start: nat, limit: nat, f: Update<V>, ghost m: map<nat, V>)
    returns (tiles: seq<Run<V>>)
    requires AreRuns(runs, m, 0, MAX_ADDRESS) && start < limit <= MAX_ADDRESS
    ensures AreTiles(tiles, Changed(m, start, limit, f), start, limit)
  {
    ghost var now := Changed(m, start, limit, f);
    var i: nat, last: nat := LowerBound(runs, start), UpperBound(runs, limit);
    var prev: nat := start;
    tiles := [];
    while i < last
      invariant i <= |runs| && start <= prev && (prev > limit ==> i >= last)
      invariant forall j :: 0 <= j < i ==> runs[j].limit <= prev
      invariant i < |runs| ==> prev < runs[i].limit
      invariant AreTiles(tiles, now, start, if prev < limit then prev else limit)
    {
      var r := runs[i];
      assert Within(r, m, 0, MAX_ADDRESS);
      if prev < r.start {
        GapIsEmpty(runs, m, start, limit, f, prev, r.start, i);
        AppendTile(tiles, now, start, prev, r.start, f(None));
        tiles := tiles + OneRun(prev, r.start, f(None));
        prev := r.start;
      }
      var to := if limit < r.limit then limit else r.limit;
      RangeIsChanged(r, m, start, limit, f, prev, to);
      AppendTile(tiles, now, start, prev, to, f(Some(r.value)));
      tiles := tiles + OneRun(prev, to, f(Some(r.value)));
      NextAfter(runs, m, i, limit);
      prev, i := r.limit, i + 1;
    }
    if prev < limit {
      GapIsEmpty(runs, m, start, limit, f, prev, limit, i);
      AppendTile(tiles, now, start, prev, limit, f(None));
      tiles := tiles + OneRun(prev, limit, f(None));
    }
  }

  lemma ChangedAt<V>(m: map<nat, V>, start: nat, limit: nat, f: Update<V>, a: nat)
    ensures Get(Changed(m, start, limit, f), a) == if start <= a < limit then f(Get(m, a)) else Get(m, a)
  {
    var now := Changed(m, start, limit, f);
    if a in now {
      assert Some(now[a]) == if start <= a < limit then f(Get(m, a)) else Some(m[a]);
    }
  }

  lemma GapIsEmpty<V>(runs: seq<Run<V>>, m: map<nat, V>, start: nat, limit: nat, f: Update<V>, from: nat, to: nat,
                      i: nat)
    requires AreRuns(runs, m, 0, MAX_ADDRESS) && i <= |runs| && start <= from <= to <= limit <= MAX_ADDRESS
    requires forall j :: 0 <= j < i ==> runs[j].limit <= from
    requires i < |runs| ==> to <= runs[i].start
    ensures forall a: nat :: from <= a < to ==> Get(Changed(m, start, limit, f), a) == f(None)
  {
    forall a: nat | from <= a < to ensures Get(Changed(m, start, limit, f), a) == f(None) {
      NoRun(runs, m, MAX_ADDRESS, a, i);
      ChangedAt(m, start, limit, f, a);
    }
  }

  lemma RangeIsChanged<V>(r: Run<V>, m: map<nat, V>, start: nat, limit: nat, f: Update<V>, from: nat, to: nat)
    requires Within(r, m, 0, MAX_ADDRESS) && r.start <= from && start <= from && to <= limit && to <= r.limit
    ensures forall a: nat :: from <= a < to ==> Get(Changed(m, start, limit, f), a) == f(Some(r.value))
  {
    forall a: nat | from <= a < to ensures Get(Changed(m, start, limit, f), a) == f(Some(r.value)) {
      ChangedAt(m, start, limit, f, a);
    }
  }

  lemma NextAfter<V>(runs: seq<Run<V>>, m: map<nat, V>, i: nat, limit: nat)
    requires AreRuns(runs, m, 0, MAX_ADDRESS) && i < |runs|
    ensures runs[i].start < runs[i].limit && forall j :: 0 <= j < i ==> runs[j].limit <= runs[i].limit
    ensures i + 1 < |runs| ==> runs[i].limit <= runs[i + 1].start < runs[i + 1].limit
  {
    assert Within(runs[i], m, 0, MAX_ADDRESS);
    forall j | 0 <= j < i ensures runs[j].limit <= runs[i].limit {
      RunsOrdered(runs, m, 0, MAX_ADDRESS, j, i);
    }
    if i + 1 < |runs| {
      assert Within(runs[i + 1], m, 0, MAX_ADDRESS);
      RunsOrdered(runs, m, 0, MAX_ADDRESS, i, i + 1);
    }
  }

  // Runs depend on the map between their bounds only.
  lemma RunsAgree<V>(runs: seq<Run<V>>, m: map<nat, V>, n: map<nat, V>, lo: nat, hi: nat)
    requires AreRuns(runs, m, lo, hi) && forall a: nat :: lo <= a < hi ==> Get(m, a) == Get(n, a)
    ensures AreRuns(runs, n, lo, hi)
  {
    forall i | 0 <= i < |runs| ensures Within(runs[i], n, lo, hi) {
      assert Within(runs[i], m, lo, hi);
      forall a: nat | runs[i].start <= a < runs[i].limit ensures a in n && n[a] == runs[i].value {
        assert Get(m, a) == Get(n, a);
      }
    }
    forall a: nat | lo <= a < hi && a in n ensures Covered(runs, a) {
      assert Get(m, a) == Get(n, a);
    }
  }

  lemma PrefixRuns<V>(runs: seq<Run<V>>, m: map<nat, V>, i: nat, at: nat)
    requires AreRuns(runs, m, 0, MAX_ADDRESS) && i <= |runs| && at <= MAX_ADDRESS
    requires forall j :: 0 <= j < i ==> runs[j].limit <= at
    requires i < |runs| ==> at <= runs[i].start
    ensures AreRuns(runs[..i], m, 0, at)
  {
    var front := runs[..i];
    forall j | 0 <= j < i ensures Within(front[j], m, 0, at) {
      assert Within(runs[j], m, 0, MAX_ADDRESS);
    }
    forall j | 0 <= j < i - 1 ensures SplitAt(front, j) {
      assert SplitAt(runs, j);
    }
    forall a: nat | a < at && a in m ensures Covered(front, a) {
      assert Covered(runs, a);
      var j: nat :| InRun(runs, a, j);
      if i < j {
        assert Within(runs[i], m, 0, MAX_ADDRESS);
        RunsOrdered(runs, m, 0, MAX_ADDRESS, i, j);
      }
      assert InRun(front, a, j);
    }
  }

  lemma SuffixRuns<V>(runs: seq<Run<V>>, m: map<nat, V>, i: nat, at: nat)
    requires AreRuns(runs, m, 0, MAX_ADDRESS) && i <= |runs| && at <= MAX_ADDRESS
    requires i > 0 ==> runs[i - 1].limit <= at
    requires i < |runs| ==> at <= runs[i].start
    ensures AreRuns(runs[i..], m, at, MAX_ADDRESS)
  {
    var back := runs[i..];
    forall j | 0 <= j < |back| ensures Within(back[j], m, at, MAX_ADDRESS) {
      assert Within(runs[i + j], m, 0, MAX_ADDRESS) && Within(runs[i], m, 0, MAX_ADDRESS);
      if j > 0 {
        RunsOrdered(runs, m, 0, MAX_ADDRESS, i, i + j);
      }
    }
    forall j | 0 <= j < |back| - 1 ensures SplitAt(back, j) {
      assert SplitAt(runs, i + j);
    }
    forall a: nat | at <= a < MAX_ADDRESS && a in m ensures Covered(back, a) {
      assert Covered(runs, a);
      var j: nat :| InRun(runs, a, j);
      if j < i - 1 {
        assert Within(runs[i - 1], m, 0, MAX_ADDRESS);
        RunsOrdered(runs, m, 0, MAX_ADDRESS, j, i - 1);
      }
      assert InRun(back, a, j - i);
    }
  }

  // The ranges before the change, with the front of one that it cuts.
  function FrontOf<V>(runs: seq<Run<V>>, start: nat): seq<Run<V>> {
    var i := LowerBound(runs, start);
    runs[..i] + if i < |runs| && runs[i].start < start then [Run(runs[i].start, start, runs[i].value)] else []
  }

  // The ranges after the change, with the back of one that it cuts.
  function BackOf<V>(runs: seq<Run<V>>, limit: nat): seq<Run<V>> {
    var i := UpperBound(runs, limit);
    (if i > 0 && limit < runs[i - 1].limit then [Run(limit, runs[i - 1].limit, runs[i - 1].value)] else []) + runs[i..]
  }

  lemma FrontRuns<V>(runs: seq<Run<V>>, m: map<nat, V>, start: nat)
    requires AreRuns(runs, m, 0, MAX_ADDRESS) && start <= MAX_ADDRESS
    ensures AreRuns(FrontOf(runs, start), m, 0, start)
  {
    var i := LowerBound(runs, start);
    if i < |runs| && runs[i].start < start {
      var r := runs[i];
      assert Within(r, m, 0, MAX_ADDRESS);
      forall j | 0 <= j < i ensures runs[j].limit <= r.start {
        RunsOrdered(runs, m, 0, MAX_ADDRESS, j, i);
      }
      PrefixRuns(runs, m, i, r.start);
      assert i > 0 ==> SplitAt(runs, i - 1);
      AppendRun(runs[..i], m, Run(r.start, start, r.value));
    } else {
      PrefixRuns(runs, m, i, start);
      assert FrontOf(runs, start) == runs[..i];
    }
  }

  lemma BackRuns<V>(runs: seq<Run<V>>, m: map<nat, V>, limit: nat)
    requires AreRuns(runs, m, 0, MAX_ADDRESS) && limit <= MAX_ADDRESS
    ensures AreRuns(BackOf(runs, limit), m, limit, MAX_ADDRESS)
  {
    var i := UpperBound(runs, limit);
    if i > 0 && limit < runs[i - 1].limit {
      var r := runs[i - 1];
      assert Within(r, m, 0, MAX_ADDRESS);
      if i < |runs| {
        RunsOrdered(runs, m, 0, MAX_ADDRESS, i - 1, i);
      }
      SuffixRuns(runs, m, i, r.limit);
      if r.limit < MAX_ADDRESS {
        RunEndsFresh(runs, m, MAX_ADDRESS, i - 1);
      }
      PrependRun(m, Run(limit, r.limit, r.value), runs[i..], MAX_ADDRESS);
    } else {
      SuffixRuns(runs, m, i, limit);
      assert BackOf(runs, limit) == runs[i..];
    }
  }

  predicate CanMerge<V(==)>(runs: seq<Run<V>>, next: Run<V>) {
    runs != [] && runs[|runs| - 1].limit == next.start && runs[|runs| - 1].value == next.value
  }

  // Appends a range, merged into the last one if that touches it with an equal value.
  function Merged<V(==)>(runs: seq<Run<V>>, next: Run<V>): seq<Run<V>> {
    if CanMerge(runs, next) then runs[..|runs| - 1] + [runs[|runs| - 1].(limit := next.limit)] else runs + [next]
  }

  lemma MergedRuns<V>(runs: seq<Run<V>>, m: map<nat, V>, next: Run<V>)
    requires AreRuns(runs, m, 0, next.start) && Within(next, m, next.start, next.limit)
    ensures AreRuns(Merged(runs, next), m, 0, next.limit)
  {
    if runs != [] {
      assert Within(runs[|runs| - 1], m, 0, next.start);
    }
    if CanMerge(runs, next) {
      var init, last := runs[..|runs| - 1], runs[|runs| - 1];
      assert runs == init + [last];
      ExtendRun(init, last, m, next.limit);
    } else {
      AppendRun(runs, m, next);
    }
  }

  // Merges the tiles of a map into the runs before them.
  method MergeTiles<V(==)>(front: seq<Run<V>>, tiles: seq<Run<V>>, ghost m: map<nat, V>, ghost lo: nat, ghost hi: nat)
    returns (runs: seq<Run<V>>)
    requires lo <= hi && AreRuns(front, m, 0, lo) && AreTiles(tiles, m, lo, hi)
    ensures AreRuns(runs, m, 0, hi)
  {
    runs := front;
    ghost var done: nat := lo;
    for k := 0 to |tiles|
      invariant done == if k == 0 then lo else tiles[k - 1].limit
      invariant AreRuns(runs, m, 0, done)
    {
      BetweenTiles(tiles, m, lo, hi, k);
      SkipRuns(runs, m, done, tiles[k].start);
      MergedRuns(runs, m, tiles[k]);
      runs, done := Merged(runs, tiles[k]), tiles[k].limit;
    }
    BetweenTiles(tiles, m, lo, hi, |tiles|);
    SkipRuns(runs, m, done, hi);
  }

  lemma BetweenTiles<V>(tiles: seq<Run<V>>, m: map<nat, V>, lo: nat, hi: nat, k: nat)
    requires lo <= hi && AreTiles(tiles, m, lo, hi) && k <= |tiles|
    ensures var from, to := if k == 0 then lo else tiles[k - 1].limit, if k == |tiles| then hi else tiles[k].start;
            from <= to && forall a: nat :: from <= a < to ==> a !in m
    ensures k < |tiles| ==> Within(tiles[k], m, tiles[k].start, tiles[k].limit)
  {
    var from, to := if k == 0 then lo else tiles[k - 1].limit, if k == |tiles| then hi else tiles[k].start;
    assert k > 0 ==> Within(tiles[k - 1], m, lo, hi);
    assert k < |tiles| ==> Within(tiles[k], m, lo, hi);
    forall a: nat | from <= a < to ensures a !in m {
      if a in m {
        assert Covered(tiles, a);
        var j: nat :| InRun(tiles, a, j);
      }
    }
  }

  // Two lists of runs, one after the other.
  lemma JoinRuns<V>(x: seq<Run<V>>, y: seq<Run<V>>, m: map<nat, V>, at: nat, hi: nat)
    requires AreRuns(x, m, 0, at) && AreRuns(y, m, at, hi) && at <= hi
    requires x != [] && y != [] ==> Split(x[|x| - 1], y[0])
    ensures AreRuns(x + y, m, 0, hi)
  {
    var runs := x + y;
    forall i | 0 <= i < |runs| ensures Within(runs[i], m, 0, hi) {
      if i < |x| {
        assert Within(x[i], m, 0, at);
      } else {
        assert Within(y[i - |x|], m, at, hi);
      }
    }
    forall i | 0 <= i < |runs| - 1 ensures SplitAt(runs, i) {
      if i < |x| - 1 {
        assert SplitAt(x, i);
      } else if i >= |x| {
        assert SplitAt(y, i - |x|);
      }
    }
    forall a: nat | a < hi && a in m ensures Covered(runs, a) {
      if a < at {
        assert Covered(x, a);
        var i: nat :| InRun(x, a, i);
        assert InRun(runs, a, i);
      } else {
        assert Covered(y, a);
        var i: nat :| InRun(y, a, i);
        assert InRun(runs, a, |x| + i);
      }
    }
  }

  // Merging only around the seam of two lists is enough.
  lemma MergeSeam<V>(x: seq<Run<V>>, y: seq<Run<V>>, m: map<nat, V>, at: nat, hi: nat)
    requires AreRuns(x, m, 0, at) && AreRuns(y, m, at, hi) && at <= hi && y != []
    ensures AreRuns(Merged(x, y[0]) + y[1..], m, 0, hi)
  {
    assert Within(y[0], m, at, hi);
    forall a: nat | at <= a < y[0].start ensures a !in m {
      if a in m {
        assert Covered(y, a);
        var i: nat :| InRun(y, a, i);
        if i > 0 {
          RunsOrdered(y, m, at, hi, 0, i);
        }
      }
    }
    SkipRuns(x, m, at, y[0].start);
    MergedRuns(x, m, y[0]);
    RunsTail(y, m, at, hi);
    if |y| > 1 {
      assert SplitAt(y, 0);
    }
    JoinRuns(Merged(x, y[0]), y[1..], m, y[0].limit, hi);
  }

  // Changes the values of a range.  The result is again the canonical list of ranges.
  method Change<V(==)>(runs: seq<Run<V>>, start: nat, limit: nat, f: Update<V>, ghost m: map<nat, V>)
    returns (result: seq<Run<V>>)
    requires AreRuns(runs, m, 0, MAX_ADDRESS) && start < limit <= MAX_ADDRESS
    ensures AreRuns(result, Changed(m, start, limit, f), 0, MAX_ADDRESS)
  {
    ghost var now := Changed(m, start, limit, f);
    var tiles := SplitRanges(runs, start, limit, f, m);
    forall a: nat | a < start || limit <= a ensures Get(m, a) == Get(now, a) {
      ChangedAt(m, start, limit, f, a);
    }
    FrontRuns(runs, m, start);
    RunsAgree(FrontOf(runs, start), m, now, 0, start);
    result := MergeTiles(FrontOf(runs, start), tiles, now, start, limit);
    var back := BackOf(runs, limit);
    BackRuns(runs, m, limit);
    RunsAgree(back, m, now, limit, MAX_ADDRESS);
    if back != [] {
      MergeSeam(result, back, now, limit, MAX_ADDRESS);
      result := Merged(result, back[0]) + back[1..];
    } else {
      JoinRuns(result, back, now, limit, MAX_ADDRESS);
      assert result + back == result;
    }
  }
}
