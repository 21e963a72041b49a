/** The bytes that differ (DeltaMemoryBytes of common/memory_state.cc). */
module DeltaBytes {
  import opened Basics
  import opened Memory

  // So many unchanged bytes separate two chunks.
  const MIN_SKIP: nat := 15

  // The byte at `a` is to be written: it is not known to be there already.
  predicate Differs(known: map<nat, Byte>, bytes: MemoryBytes, a: nat)
    requires bytes.Has(a)
  {
    a !in known || known[a] != bytes.At(a)
  }

  // Nothing differs in the 15 bytes from `a` on.
  ghost predicate Quiet(known: map<nat, Byte>, bytes: MemoryBytes, a: nat)
    requires bytes.start <= a && a + 15 <= bytes.Limit()
  {
    forall b: nat :: a <= b < a + 15 ==> !Differs(known, bytes, b)
  }

  // A chunk of the bytes that starts and ends on a byte that differs, and has no quiet part.
  ghost predicate Tight(known: map<nat, Byte>, bytes: MemoryBytes, chunk: MemoryBytes) {
    && bytes.start <= chunk.start < chunk.Limit() <= bytes.Limit()
    && chunk == bytes.Range(chunk.start, chunk.Limit())
    && Differs(known, bytes, chunk.start) && Differs(known, bytes, chunk.Limit() - 1)
    && forall a: nat :: chunk.start <= a && a + 15 <= chunk.Limit() ==> !Quiet(known, bytes, a)
  }

  ghost predicate Apart(c: MemoryBytes, d: MemoryBytes) {
    c.Limit() + 15 <= d.start
  }

  ghost predicate ApartAt(chunks: seq<MemoryBytes>, i: nat)
    requires i < |chunks| - 1
  {
    Apart(chunks[i], chunks[i + 1])
  }

  // The chunks are the minimized form of the bytes below `limit`.
  ghost predicate IsDelta(known: map<nat, Byte>, bytes: MemoryBytes, chunks: seq<MemoryBytes>, limit: nat)
    requires bytes.start <= limit <= bytes.Limit()
  {
    && (forall i :: 0 <= i < |chunks| ==> Tight(known, bytes, chunks[i]) && chunks[i].Limit() <= limit)
    && (forall i :: 0 <= i < |chunks| - 1 ==> ApartAt(chunks, i))
    && (forall a: nat {:trigger Among(chunks, a)} ::
          bytes.start <= a < limit && Differs(known, bytes, a) ==> Among(chunks, a))
  }

  function Pending(chunk: Option<MemoryBytes>): seq<MemoryBytes> {
    if chunk.Some? then [chunk.value] else []
  }

  // Bytes all of which differ are one chunk.
  lemma AllDiffer(known: map<nat, Byte>, bytes: MemoryBytes, start: nat, limit: nat)
    requires bytes.start <= start < limit <= bytes.Limit()
    requires forall a: nat :: start <= a < limit ==> Differs(known, bytes, a)
    ensures Tight(known, bytes, bytes.Range(start, limit))
  {
    forall a: nat | start <= a && a + 15 <= limit ensures !Quiet(known, bytes, a) {
      assert Differs(known, bytes, a);
    }
  }

  // A chunk may be extended over fewer than 15 bytes to bytes that differ.
  lemma Extended(known: map<nat, Byte>, bytes: MemoryBytes, chunk: MemoryBytes, addr: nat, limit: nat)
    requires Tight(known, bytes, chunk) && chunk.Limit() <= addr < limit <= bytes.Limit()
    requires addr - chunk.Limit() < 15
    requires forall a: nat :: addr <= a < limit ==> Differs(known, bytes, a)
    ensures Tight(known, bytes, bytes.Range(chunk.start, limit))
  {
    forall a: nat | chunk.start <= a && a + 15 <= limit ensures !Quiet(known, bytes, a) {
      if a + 15 > chunk.Limit() {
        var b := if a < chunk.Limit() then chunk.Limit() - 1 else if a < addr then addr else a;
        assert a <= b < a + 15 && Differs(known, bytes, b);
      }
    }
  }

  lemma GrowLast(known: map<nat, Byte>, bytes: MemoryBytes, result: seq<MemoryBytes>, last: MemoryBytes,
                 longer: MemoryBytes, addr: nat)
    requires bytes.start <= addr <= bytes.Limit() && IsDelta(known, bytes, result + [last], addr)
    requires Tight(known, bytes, longer) && longer.start == last.start && addr < longer.Limit()
    ensures IsDelta(known, bytes, result + [longer], longer.Limit())
  {
    var was, now := result + [last], result + [longer];
    forall i | 0 <= i < |now| ensures Tight(known, bytes, now[i]) && now[i].Limit() <= longer.Limit() {
      if i < |result| {
        assert Tight(known, bytes, was[i]) && was[i].Limit() <= addr;
      }
    }
    forall i | 0 <= i < |now| - 1 ensures ApartAt(now, i) {
      assert ApartAt(was, i);
    }
    forall a: nat | bytes.start <= a < longer.Limit() && Differs(known, bytes, a) ensures Among(now, a) {
      if a < longer.start {
        assert was[|result|] == last && Tight(known, bytes, last);
        assert Among(was, a);
        var i: nat :| InBytes(was, a, i);
        assert InBytes(now, a, i);
      } else {
        assert InBytes(now, a, |result|);
      }
    }
  }

  lemma StartNext(known: map<nat, Byte>, bytes: MemoryBytes, chunks: seq<MemoryBytes>, next: MemoryBytes, addr: nat,
                  limit: nat)
    requires bytes.start <= addr < limit <= bytes.Limit()
    requires IsDelta(known, bytes, chunks, addr)
    requires Tight(known, bytes, next) && next.start == addr && next.Limit() == limit
    requires chunks != [] ==> Apart(chunks[|chunks| - 1], next)
    ensures IsDelta(known, bytes, chunks + [next], limit)
  {
    var now := chunks + [next];
    forall i | 0 <= i < |now| - 1 ensures ApartAt(now, i) {
      if i < |chunks| - 1 {
        assert ApartAt(chunks, i);
      }
    }
    forall a: nat | bytes.start <= a < limit && Differs(known, bytes, a) ensures Among(now, a) {
      if a < addr {
        assert Among(chunks, a);
        var i: nat :| InBytes(chunks, a, i);
        assert InBytes(now, a, i);
      } else {
        assert InBytes(now, a, |chunks|);
      }
    }
  }

  // Appending the bytes up to `limit` to a chunk.
  lemma AppendRange(bytes: MemoryBytes, chunk: MemoryBytes, limit: nat)
    requires bytes.start <= chunk.start <= chunk.Limit() <= limit <= bytes.Limit()
    requires chunk == bytes.Range(chunk.start, chunk.Limit())
    ensures MemoryBytes(chunk.start, chunk.data + bytes.Range(chunk.Limit(), limit).data) ==
            bytes.Range(chunk.start, limit)
  {
  }

  lemma StartChunk(known: map<nat, Byte>, bytes: MemoryBytes, chunks: seq<MemoryBytes>, addr: nat, limit: nat)
    requires bytes.start <= addr < limit <= bytes.Limit()
    requires IsDelta(known, bytes, chunks, addr)
    requires forall a: nat :: addr <= a < limit ==> Differs(known, bytes, a)
    requires chunks != [] ==> chunks[|chunks| - 1].Limit() + 15 <= addr
    ensures IsDelta(known, bytes, chunks + [bytes.Range(addr, limit)], limit)
  {
    AllDiffer(known, bytes, addr, limit);
    StartNext(known, bytes, chunks, bytes.Range(addr, limit), addr, limit);
  }

  lemma ExtendChunk(known: map<nat, Byte>, bytes: MemoryBytes, result: seq<MemoryBytes>, last: MemoryBytes,
                    addr: nat, limit: nat)
    requires bytes.start <= addr < limit <= bytes.Limit()
    requires IsDelta(known, bytes, result + [last], addr)
    requires forall a: nat :: addr <= a < limit ==> Differs(known, bytes, a)
    requires addr < last.Limit() + 15
    ensures bytes.start <= last.start <= last.Limit() <= addr
    ensures last == bytes.Range(last.start, last.Limit())
    ensures IsDelta(known, bytes, result + [bytes.Range(last.start, limit)], limit)
  {
    assert (result + [last])[|result|] == last && Tight(known, bytes, last);
    Extended(known, bytes, last, addr, limit);
    GrowLast(known, bytes, result, last, bytes.Range(last.start, limit), addr);
  }

  // Adds the `size` bytes at `addr` to the chunk, or finishes the chunk and starts the next one.
  method GrowResultChunk(ghost known: map<nat, Byte>, bytes: MemoryBytes, addr: nat, size: nat,
                         chunk: Option<MemoryBytes>, result: seq<MemoryBytes>)
    returns (newChunk: Option<MemoryBytes>, newResult: seq<MemoryBytes>)
    requires bytes.start <= addr < addr + size <= bytes.Limit()
    requires IsDelta(known, bytes, result + Pending(chunk), addr)
    requires chunk.None? ==> result == []
    requires forall a: nat :: addr <= a < addr + size ==> Differs(known, bytes, a)
    ensures newChunk.Some? && IsDelta(known, bytes, newResult + Pending(newChunk), addr + size)
  {
    var limit := addr + size;
    if chunk.None? {
      assert result + Pending(chunk) == result;
      StartChunk(known, bytes, result, addr, limit);
      newChunk, newResult := Some(bytes.Range(addr, limit)), result;
    } else if addr < chunk.value.Limit() + MIN_SKIP {
      // Too few unchanged bytes since the chunk to skip them.
      var last := chunk.value;
      ExtendChunk(known, bytes, result, last, addr, limit);
      AppendRange(bytes, last, limit);
      newChunk := Some(MemoryBytes(last.start, last.data + bytes.Range(last.Limit(), limit).data));
      newResult := result;
    } else {
      StartChunk(known, bytes, result + [chunk.value], addr, limit);
      newChunk, newResult := Some(bytes.Range(addr, limit)), result + [chunk.value];
    }
  }

  // A byte that is known to be there already is skipped.
  lemma SkipByte(known: map<nat, Byte>, bytes: MemoryBytes, chunks: seq<MemoryBytes>, addr: nat)
    requires bytes.Has(addr) && IsDelta(known, bytes, chunks, addr) && !Differs(known, bytes, addr)
    ensures IsDelta(known, bytes, chunks, addr + 1)
  {
  }

  lemma WholeDiffers(known: map<nat, Byte>, bytes: MemoryBytes)
    requires bytes.data != [] && forall a: nat :: bytes.Has(a) ==> Differs(known, bytes, a)
    ensures IsDelta(known, bytes, [bytes], bytes.Limit())
  {
    StartChunk(known, bytes, [], bytes.start, bytes.Limit());
    assert bytes.data[0..|bytes.data|] == bytes.data;
    assert [] + [bytes.Range(bytes.start, bytes.Limit())] == [bytes];
  }

  ghost predicate Passed(runs: seq<Run<()>>, addr: nat, it: nat) {
    it <= |runs| && forall j :: 0 <= j < it ==> runs[j].limit <= addr
  }

  // `it` is the range that covers `addr`, if any does.
  ghost predicate At(runs: seq<Run<()>>, known: map<nat, Byte>, addr: nat, it: nat) {
    && AreRuns(runs, Domain(known), 0, MAX_ADDRESS)
    && Passed(runs, addr, it) && it < |runs| && addr < runs[it].limit
  }

  lemma AtNext(runs: seq<Run<()>>, known: map<nat, Byte>, addr: nat, it: nat)
    requires At(runs, known, addr, it)
    ensures if addr + 1 < runs[it].limit then At(runs, known, addr + 1, it)
            else addr + 1 == runs[it].limit && Passed(runs, addr + 1, it + 1)
    ensures addr + 1 == runs[it].limit && it + 1 < |runs| ==> At(runs, known, addr + 1, it + 1)
  {
    if it + 1 < |runs| {
      RunsOrdered(runs, Domain(known), 0, MAX_ADDRESS, it, it + 1);
      assert Within(runs[it + 1], Domain(known), 0, MAX_ADDRESS);
    }
  }

  lemma AtEnd(runs: seq<Run<()>>, known: map<nat, Byte>, bytes: MemoryBytes, addr: nat, end: nat)
    requires AreRuns(runs, Domain(known), 0, MAX_ADDRESS) && bytes.Valid()
    requires bytes.start <= addr && Passed(runs, addr, end)
    requires end < |runs| ==> bytes.Limit() <= runs[end].start
    ensures forall a: nat :: addr <= a < bytes.Limit() ==> Differs(known, bytes, a)
  {
    forall a: nat | addr <= a < bytes.Limit() ensures Differs(known, bytes, a) {
      NoRun(runs, Domain(known), MAX_ADDRESS, a, end);
    }
  }

  // Passes a byte through, or skips it.
  method PassByte(known: map<nat, Byte>, bytes: MemoryBytes, addr: nat, isKnown: bool,
                  chunk: Option<MemoryBytes>, result: seq<MemoryBytes>)
    returns (newChunk: Option<MemoryBytes>, newResult: seq<MemoryBytes>)
    requires bytes.Has(addr) && (isKnown <==> addr in known)
    requires IsDelta(known, bytes, result + Pending(chunk), addr)
    requires chunk.None? ==> result == []
    ensures IsDelta(known, bytes, newResult + Pending(newChunk), addr + 1)
    ensures newChunk.None? ==> newResult == []
  {
    var oldByte := if isKnown then Some(known[addr]) else None;
    if oldByte.None? || oldByte.value != bytes.At(addr) {
      newChunk, newResult := GrowResultChunk(known, bytes, addr, 1, chunk, result);
    } else {
      SkipByte(known, bytes, result + Pending(chunk), addr);
      newChunk, newResult := chunk, result;
    }
  }

  // The parts of the bytes that are not known to be there already.
  method DeltaMemoryBytes(known: map<nat, Byte>, bytes: MemoryBytes) returns (result: seq<MemoryBytes>)
    requires bytes.Valid() && InSpace(known)
    ensures IsDelta(known, bytes, result, bytes.Limit())
  {
    if known == map[] {
      WholeDiffers(known, bytes);
      return [bytes];
    }
    var runs := Runs(Domain(known));
    RunsAreRuns(Domain(known), 0, MAX_ADDRESS);
    var it: nat, end: nat := LowerBound(runs, bytes.start), UpperBound(runs, bytes.Limit());
    if it == |runs| {
      AtEnd(runs, known, bytes, bytes.start, it);
      WholeDiffers(known, bytes);
      return [bytes];
    }
    assert end < |runs| ==> Within(runs[end], Domain(known), 0, MAX_ADDRESS);
    var chunk: Option<MemoryBytes> := None;
    result := [];
    var addr: nat := bytes.start;
    while addr < bytes.Limit()
      invariant bytes.start <= addr <= bytes.Limit()
      invariant it <= end && At(runs, known, addr, it)
      invariant IsDelta(known, bytes, result + Pending(chunk), addr)
      invariant chunk.None? ==> result == []
    {
      OnlyRun(runs, Domain(known), MAX_ADDRESS, addr, it);
      chunk, result := PassByte(known, bytes, addr, runs[it].Has(addr), chunk, result);
      AtNext(runs, known, addr, it);
      addr := addr + 1;
      if addr >= runs[it].limit {
        it := it + 1;
        if it == end {
          // Nothing else is known, so the rest is passed through.
          AtEnd(runs, known, bytes, addr, end);
          if addr < bytes.Limit() {
            chunk, result := GrowResultChunk(known, bytes, addr, bytes.Limit() - addr, chunk, result);
          }
          break;
        }
      }
    }
    result := result + Pending(chunk);
  }

  lemma {:induction false} ChunksOrdered(known: map<nat, Byte>, bytes: MemoryBytes, chunks: seq<MemoryBytes>,
                                         limit: nat, i: nat, j: nat)
    requires bytes.start <= limit <= bytes.Limit() && IsDelta(known, bytes, chunks, limit) && i < j < |chunks|
    ensures Apart(chunks[i], chunks[j])
    decreases j
  {
    assert ApartAt(chunks, j - 1) && Tight(known, bytes, chunks[j - 1]);
    if i < j - 1 {
      ChunksOrdered(known, bytes, chunks, limit, i, j - 1);
    }
  }

  lemma ChunksDisjoint(known: map<nat, Byte>, bytes: MemoryBytes, chunks: seq<MemoryBytes>, limit: nat)
    requires bytes.start <= limit <= bytes.Limit() && IsDelta(known, bytes, chunks, limit)
    ensures Disjoint(chunks)
  {
    forall i: nat, j: nat | i < j < |chunks| ensures Separate(chunks[i], chunks[j]) {
      ChunksOrdered(known, bytes, chunks, limit, i, j);
    }
  }

  // Writing the chunks has the same effect as writing all the bytes.
  lemma DeltaApplies(known: map<nat, Byte>, bytes: MemoryBytes, chunks: seq<MemoryBytes>)
    requires IsDelta(known, bytes, chunks, bytes.Limit())
    ensures WrittenAll(known, chunks) == Written(known, bytes)
  {
    var all, full := WrittenAll(known, chunks), Written(known, bytes);
    forall a: nat ensures (a in all <==> a in full) && (a in full ==> all[a] == full[a]) {
      DeltaAppliesAt(known, bytes, chunks, a);
    }
  }

  lemma DeltaAppliesAt(known: map<nat, Byte>, bytes: MemoryBytes, chunks: seq<MemoryBytes>, a: nat)
    requires IsDelta(known, bytes, chunks, bytes.Limit())
    ensures a in WrittenAll(known, chunks) <==> a in Written(known, bytes)
    ensures a in Written(known, bytes) ==> WrittenAll(known, chunks)[a] == Written(known, bytes)[a]
  {
    if Among(chunks, a) {
      var i: nat :| InBytes(chunks, a, i);
      ChunkByte(known, bytes, chunks[i], a);
      ChunksDisjoint(known, bytes, chunks, bytes.Limit());
      WrittenInside(known, chunks, a, i);
    } else {
      UnchangedByte(known, bytes, chunks, a);
      WrittenOutside(known, chunks, a);
    }
  }

  lemma ChunkByte(known: map<nat, Byte>, bytes: MemoryBytes, chunk: MemoryBytes, a: nat)
    requires Tight(known, bytes, chunk) && chunk.Has(a)
    ensures a in Written(known, bytes) && Written(known, bytes)[a] == chunk.At(a)
  {
  }

  lemma UnchangedByte(known: map<nat, Byte>, bytes: MemoryBytes, chunks: seq<MemoryBytes>, a: nat)
    requires IsDelta(known, bytes, chunks, bytes.Limit()) && !Among(chunks, a)
    ensures a in Written(known, bytes) <==> a in known
    ensures a in known ==> Written(known, bytes)[a] == known[a]
  {
  }

  // After equal chunks, the next chunk starts at the next byte that differs.
  lemma NextChunkStart(known: map<nat, Byte>, bytes: MemoryBytes, c: seq<MemoryBytes>, d: seq<MemoryBytes>, i: nat)
    requires IsDelta(known, bytes, c, bytes.Limit()) && IsDelta(known, bytes, d, bytes.Limit())
    requires i < |c| && i <= |d| && c[..i] == d[..i]
    ensures i < |d| && d[i].start <= c[i].start
  {
    assert Tight(known, bytes, c[i]);
    assert Among(d, c[i].start);
    var j: nat :| InBytes(d, c[i].start, j);
    if j < i {
      assert c[..i][j] == d[..i][j];
      ChunksOrdered(known, bytes, c, bytes.Limit(), j, i);
    } else if i < j {
      ChunksOrdered(known, bytes, d, bytes.Limit(), i, j);
      assert Tight(known, bytes, d[i]);
    }
  }

  // A byte that differs and is after chunk `i` is at least 15 bytes after it.
  lemma QuietAfter(known: map<nat, Byte>, bytes: MemoryBytes, d: seq<MemoryBytes>, i: nat, b: nat)
    requires IsDelta(known, bytes, d, bytes.Limit()) && i < |d| && d[i].Limit() <= b && bytes.Has(b)
    ensures Differs(known, bytes, b) ==> d[i].Limit() + 15 <= b
  {
    if Differs(known, bytes, b) {
      assert Among(d, b);
      var j: nat :| InBytes(d, b, j);
      if j < i {
        assert Tight(known, bytes, d[i]);
        ChunksOrdered(known, bytes, d, bytes.Limit(), j, i);
      } else {
        ChunksOrdered(known, bytes, d, bytes.Limit(), i, j);
      }
    }
  }

  // A chunk that starts where chunk `i` does ends no later.
  lemma NextChunkLimit(known: map<nat, Byte>, bytes: MemoryBytes, c: MemoryBytes, d: seq<MemoryBytes>, i: nat)
    requires Tight(known, bytes, c) && IsDelta(known, bytes, d, bytes.Limit())
    requires i < |d| && c.start == d[i].start
    ensures c.Limit() <= d[i].Limit()
  {
    assert Tight(known, bytes, d[i]);
    var a := d[i].Limit();
    if a < c.Limit() {
      QuietAfter(known, bytes, d, i, c.Limit() - 1);
      forall b: nat | a <= b < a + 15 ensures !Differs(known, bytes, b) {
        QuietAfter(known, bytes, d, i, b);
      }
      assert Quiet(known, bytes, a);
    }
  }

  // The minimized form is unique.
  lemma {:induction false} DeltaUnique(known: map<nat, Byte>, bytes: MemoryBytes, c: seq<MemoryBytes>,
                                       d: seq<MemoryBytes>, i: nat)
    requires IsDelta(known, bytes, c, bytes.Limit()) && IsDelta(known, bytes, d, bytes.Limit())
    requires i <= |c| && i <= |d| && c[..i] == d[..i]
    ensures c == d
    decreases |c| - i
  {
    if i < |c| {
      NextChunkStart(known, bytes, c, d, i);
      NextChunkStart(known, bytes, d, c, i);
      assert Tight(known, bytes, c[i]) && Tight(known, bytes, d[i]);
      NextChunkLimit(known, bytes, c[i], d, i);
      NextChunkLimit(known, bytes, d[i], c, i);
      DeltaUnique(known, bytes, c, d, i + 1);
    } else if i < |d| {
      NextChunkStart(known, bytes, d, c, i);
    }
  }

  function Concat(parts: seq<seq<MemoryBytes>>): seq<MemoryBytes> {
    if parts == [] then [] else Concat(parts[..|parts| - 1]) + parts[|parts| - 1]
  }

  // The minimized form of each element of a list.
  ghost predicate AreDeltas(known: map<nat, Byte>, list: seq<MemoryBytes>, parts: seq<seq<MemoryBytes>>) {
    |parts| == |list| && forall i :: 0 <= i < |list| ==> IsDelta(known, list[i], parts[i], list[i].Limit())
  }

  // The result is made of the minimal deltas of the elements, in order.
  ghost predicate IsListDelta(known: map<nat, Byte>, list: seq<MemoryBytes>, result: seq<MemoryBytes>) {
    exists parts :: AreDeltas(known, list, parts) && result == Concat(parts)
  }

  // The parts of a list of bytes that are not known to be there already.
  method DeltaMemoryBytesList(known: map<nat, Byte>, list: seq<MemoryBytes>) returns (result: seq<MemoryBytes>)
    requires InSpace(known) && forall i :: 0 <= i < |list| ==> list[i].Valid()
    ensures IsListDelta(known, list, result)
  {
    result := [];
    ghost var parts := [];
    for n := 0 to |list|
      invariant AreDeltas(known, list[..n], parts) && result == Concat(parts)
    {
      var delta := DeltaMemoryBytes(known, list[n]);
      assert (parts + [delta])[..n] == parts;
      result, parts := result + delta, parts + [delta];
    }
    assert list[..|list|] == list;
  }

  // What is minimal depends only on what is known about the bytes themselves.
  lemma DeltaLocal(known: map<nat, Byte>, other: map<nat, Byte>, bytes: MemoryBytes, chunks: seq<MemoryBytes>)
    requires IsDelta(known, bytes, chunks, bytes.Limit())
    requires forall a: nat :: bytes.Has(a) ==> Differs(known, bytes, a) == Differs(other, bytes, a)
    ensures IsDelta(other, bytes, chunks, bytes.Limit())
  {
    forall i | 0 <= i < |chunks| ensures Tight(other, bytes, chunks[i]) {
      var chunk := chunks[i];
      assert Tight(known, bytes, chunk);
      forall a: nat | chunk.start <= a && a + 15 <= chunk.Limit() ensures !Quiet(other, bytes, a) {
        assert !Quiet(known, bytes, a);
        var b: nat :| a <= b < a + 15 && Differs(known, bytes, b);
        assert Differs(other, bytes, b);
      }
    }
  }

  lemma {:induction false} WrittenTwice(m: map<nat, Byte>, a: seq<MemoryBytes>, b: seq<MemoryBytes>)
    ensures WrittenAll(m, a + b) == WrittenAll(WrittenAll(m, a), b)
    decreases |b|
  {
    if b == [] {
      assert a + b == a;
    } else {
      var n := |b| - 1;
      assert (a + b)[..|a + b| - 1] == a + b[..n];
      WrittenTwice(m, a, b[..n]);
    }
  }

  lemma NotBefore(list: seq<MemoryBytes>, n: nat, a: nat)
    requires Disjoint(list) && n < |list| && list[n].Has(a)
    ensures !Among(list[..n], a)
  {
    forall i: nat ensures !InBytes(list[..n], a, i) {
      if i < n {
        assert Separate(list[i], list[n]);
      }
    }
  }

  // Writing the minimized forms of the elements of a disjoint list has the same effect as
  // writing the list.
  lemma {:induction false} DeltaListApplies(known: map<nat, Byte>, list: seq<MemoryBytes>, parts: seq<seq<MemoryBytes>>)
    requires AreDeltas(known, list, parts) && Disjoint(list)
    ensures WrittenAll(known, Concat(parts)) == WrittenAll(known, list)
    decreases |list|
  {
    if list != [] {
      var n := |list| - 1;
      var before := list[..n];
      DeltaListApplies(known, before, parts[..n]);
      var now := WrittenAll(known, before);
      WrittenTwice(known, Concat(parts[..n]), parts[n]);
      forall a: nat | list[n].Has(a) ensures Differs(known, list[n], a) == Differs(now, list[n], a) {
        NotBefore(list, n, a);
        WrittenOutside(known, before, a);
      }
      DeltaLocal(known, now, list[n], parts[n]);
      DeltaApplies(now, list[n], parts[n]);
    }
  }

  ghost predicate InsideOf(c: MemoryBytes, b: MemoryBytes) {
    b.start <= c.start && c.Limit() <= b.Limit()
  }

  ghost predicate InsideSome(c: MemoryBytes, list: seq<MemoryBytes>) {
    exists i: nat :: i < |list| && InsideOf(c, list[i])
  }

  // The minimized form of a disjoint list is disjoint, and inside the list.
  lemma {:induction false} DeltaListDisjoint(known: map<nat, Byte>, list: seq<MemoryBytes>,
                                             parts: seq<seq<MemoryBytes>>)
    requires AreDeltas(known, list, parts) && Disjoint(list)
    ensures Disjoint(Concat(parts))
    ensures forall k :: 0 <= k < |Concat(parts)| ==> InsideSome(Concat(parts)[k], list)
    decreases |list|
  {
    if list != [] {
      var n := |list| - 1;
      DeltaListDisjoint(known, list[..n], parts[..n]);
      AppendDisjoint(known, list, Concat(parts[..n]), parts[n]);
    }
  }

  lemma AppendDisjoint(known: map<nat, Byte>, list: seq<MemoryBytes>, before: seq<MemoryBytes>, last: seq<MemoryBytes>)
    requires list != [] && Disjoint(list) && Disjoint(before)
    requires forall k :: 0 <= k < |before| ==> InsideSome(before[k], list[..|list| - 1])
    requires var b := list[|list| - 1]; IsDelta(known, b, last, b.Limit())
    ensures Disjoint(before + last)
    ensures forall k :: 0 <= k < |before + last| ==> InsideSome((before + last)[k], list)
  {
    var n, all := |list| - 1, before + last;
    ChunksDisjoint(known, list[n], last, list[n].Limit());
    forall k | 0 <= k < |all| ensures InsideSome(all[k], list) {
      if k < |before| {
        assert InsideSome(before[k], list[..n]);
        var i: nat :| i < n && InsideOf(before[k], list[..n][i]);
        assert InsideOf(all[k], list[i]);
      } else {
        assert Tight(known, list[n], last[k - |before|]);
        assert InsideOf(all[k], list[n]);
      }
    }
    forall j: nat, k: nat | j < k < |all| ensures Separate(all[j], all[k]) {
      if k < |before| {
        assert Separate(before[j], before[k]);
      } else if j < |before| {
        assert InsideSome(before[j], list[..n]);
        var i: nat :| i < n && InsideOf(before[j], list[..n][i]);
        assert Separate(list[i], list[n]) && Tight(known, list[n], last[k - |before|]);
      } else {
        assert Separate(last[j - |before|], last[k - |before|]);
      }
    }
  }

  // Without disjointness this can fail: the second element restores the byte, but only the
  // first one is written.
  lemma OverlapBreaksDelta(known: map<nat, Byte>, one: MemoryBytes, zero: MemoryBytes)
    requires known == map[0 := 0] && one == MemoryBytes(0, [1]) && zero == MemoryBytes(0, [0])
    ensures AreDeltas(known, [one, zero], [[one], []])
    ensures WrittenAll(known, Concat([[one], []])) != WrittenAll(known, [one, zero])
  {
    WholeDiffers(known, one);
    assert IsDelta(known, zero, [], 1);
    var list, parts := [one, zero], [[one], []];
    assert list[..1] == [one] && parts[..1] == [[one]] && [one][..0] == [];
    assert Concat(parts[..1]) == [one] by {
      assert parts[..1][..0] == [];
    }
    assert Written(known, one)[0] == 1;
    assert Written(Written(known, one), zero)[0] == 0;
  }
}
