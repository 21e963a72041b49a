/** The displacement fixup of fuzzer/program.cc, up to one pass over the program.

    Branches name their targets symbolically.  The fixup writes the matching byte
    displacements into the instructions, which can resize them and move other targets. */
module Fixup {
  import opened Basics
  import opened Isa
  import opened Layout
  import opened Rng

  // Where a boundary lies according to the recorded offsets.
  function BoundaryOffset(insns: seq<Instruction>, boundary: nat): nat
    requires boundary <= |insns| && insns != []
  {
    if boundary < |insns| then insns[boundary].offset
    else insns[|insns| - 1].offset + |insns[|insns| - 1].encoded|
  }

  lemma BoundaryOffsetExact(insns: seq<Instruction>, boundary: nat)
    requires boundary <= |insns| && insns != [] && LaidOut(insns)
    ensures BoundaryOffset(insns, boundary) == OffsetAt(insns, boundary)
  {
  }

  // The same while instruction `i` is being edited and currently is `insn`.
  function BoundaryOffsetSeen(insns: seq<Instruction>, i: nat, insn: Instruction, boundary: nat): nat
    requires i < |insns| && boundary <= |insns|
  {
    if boundary == i then insn.offset
    else if boundary == |insns| && i == |insns| - 1 then insn.offset + |insn.encoded|
    else BoundaryOffset(insns, boundary)
  }

  // The displacement that the symbolic target of branch `insn`, placed at index `i`, asks for.
  function Wanted(insns: seq<Instruction>, i: nat, insn: Instruction): int
    requires i < |insns| && Targeted(insn, |insns| + 1) && insn.branch.Valid()
  {
    BoundaryOffsetSeen(insns, i, insn, insn.branch.boundary.value) - insn.offset
  }

  // A branch that has not been canonicalized yet.
  ghost predicate Pending(arch: Arch, insn: Instruction) {
    insn.branch.Valid() && !Canonical(arch, insn.encoded)
  }

  ghost function PendingCount(arch: Arch, insns: seq<Instruction>): nat {
    if insns == [] then 0
    else PendingCount(arch, insns[1..]) + if Pending(arch, insns[0]) then 1 else 0
  }

  lemma {:induction false} PendingBound(arch: Arch, insns: seq<Instruction>)
    ensures PendingCount(arch, insns) <= |insns|
  {
    if insns != [] { PendingBound(arch, insns[1..]); }
  }

  lemma {:induction false} PendingShrinks(arch: Arch, a: seq<Instruction>, b: seq<Instruction>)
    requires |a| == |b|
    requires forall k :: 0 <= k < |a| && Pending(arch, b[k]) ==> Pending(arch, a[k])
    ensures PendingCount(arch, b) <= PendingCount(arch, a)
    ensures (exists k :: 0 <= k < |a| && Pending(arch, a[k]) && !Pending(arch, b[k])) ==>
              PendingCount(arch, b) < PendingCount(arch, a)
  {
    if a != [] {
      PendingShrinks(arch, a[1..], b[1..]);
      if k :| 0 <= k < |a| && Pending(arch, a[k]) && !Pending(arch, b[k]) {
        assert k > 0 ==> a[1..][k - 1] == a[k] && b[1..][k - 1] == b[k];
      }
    }
  }

  // Makes the recorded displacement of a branch match its symbolic target.
  method SyncByteDisplacement(insns: seq<Instruction>, i: nat, insn: Instruction)
    returns (changed: bool, synced: Instruction)
    requires i < |insns| && Targeted(insn, |insns| + 1)
    ensures !insn.branch.Valid() ==> !changed && synced == insn
    ensures insn.branch.Valid() ==>
              && changed == (insn.branch.displacement.value != Wanted(insns, i, insn))
              && synced == insn.(branch := insn.branch.(displacement := Some(Wanted(insns, i, insn))))
  {
    if !insn.branch.Valid() {
      return false, insn;
    }
    var target := Wanted(insns, i, insn);
    if target == insn.branch.displacement.value {
      return false, insn;
    }
    return true, insn.(branch := insn.branch.(displacement := Some(target)));
  }

  // Writes the recorded displacement into the bytes of a branch; false if it does not fit.  Either way
  // the bytes are the same branch, which no later attempt resizes.
  method TryToReencode(arch: Arch, insn: Instruction) returns (ok: bool, written: Instruction)
    requires Lawful(arch) && insn.branch.Valid() && IsBranch(arch, insn.encoded)
    ensures written == insn.(encoded := written.encoded)
    ensures IsBranch(arch, written.encoded) && Canonical(arch, written.encoded)
    ensures SameOperation(arch, insn.encoded, written.encoded)
    ensures Canonical(arch, insn.encoded) ==> |written.encoded| == |insn.encoded|
    ensures ok <==> Faithful(arch, written)
    ensures ok <==> Encodes(arch, insn.encoded, insn.branch.displacement.value)
    ensures written.encoded == arch.reencode(insn.encoded, insn.branch.displacement.value)
  {
    written := insn.(encoded := arch.reencode(insn.encoded, insn.branch.displacement.value));
    ok := arch.displacement(written.encoded) == insn.branch.displacement;
    assert ReencodesWell(arch, insn.encoded, insn.branch.displacement.value);
  }

  // What a branch looks like after re-encoding attempts that began with `was`.
  ghost predicate Attempted(arch: Arch, insns: seq<Instruction>, i: nat, was: Instruction, now: Instruction)
    requires i < |insns|
  {
    && now.offset == was.offset
    && now.branch.Valid() && Targeted(now, |insns| + 1)
    && IsBranch(arch, now.encoded) && Canonical(arch, now.encoded)
    && (Canonical(arch, was.encoded) ==> |now.encoded| == |was.encoded|)
    && (|now.encoded| == |was.encoded| ==> now.branch.displacement.value == Wanted(insns, i, now))
    && now.encoded == arch.reencode(was.encoded, now.branch.displacement.value)
    && SameOperation(arch, was.encoded, now.encoded)
  }

  lemma WantedSameSize(insns: seq<Instruction>, i: nat, insn: Instruction, bytes: seq<Byte>, d: int)
    requires i < |insns| && Targeted(insn, |insns| + 1) && insn.branch.Valid()
    requires |bytes| == |insn.encoded|
    ensures Wanted(insns, i, insn.(encoded := bytes)) == Wanted(insns, i, insn)
    ensures Wanted(insns, i, insn.(branch := insn.branch.(displacement := Some(d)))) == Wanted(insns, i, insn)
  {
  }

  // One attempt at a branch: sync it with the recorded offsets, then re-encode it.
  method Attempt(arch: Arch, insns: seq<Instruction>, i: nat, ghost was: Instruction, insn: Instruction)
    returns (ok: bool, now: Instruction)
    requires Lawful(arch)
    requires i < |insns| && insn.branch.Valid() && Targeted(insn, |insns| + 1)
    requires IsBranch(arch, insn.encoded) && insn.offset == was.offset
    requires SameOperation(arch, was.encoded, insn.encoded)
    requires insn.encoded == was.encoded || (Canonical(arch, insn.encoded)
               && (Canonical(arch, was.encoded) ==> |insn.encoded| == |was.encoded|))
    ensures Attempted(arch, insns, i, was, now)
    ensures now.branch.boundary == insn.branch.boundary
    ensures ok ==> Faithful(arch, now)
    ensures ok <==> Encodes(arch, insn.encoded, Wanted(insns, i, insn))
    ensures insn.branch.boundary == Some(i) ==> ok
  {
    var _, synced := SyncByteDisplacement(insns, i, insn);
    ok, now := TryToReencode(arch, synced);
    assert ReencodesWell(arch, insn.encoded, synced.branch.displacement.value) && ReachesItself(arch, insn.encoded);
    WantedSameSize(insns, i, insn, insn.encoded, synced.branch.displacement.value);
    if |now.encoded| == |synced.encoded| {
      WantedSameSize(insns, i, synced, now.encoded, 0);
    }
  }

  // Boundary `b` could be encoded as the target of the branch.
  ghost predicate CanTarget(arch: Arch, insns: seq<Instruction>, i: nat, insn: Instruction, b: nat)
    requires i < |insns| && insn.branch.Valid() && b <= |insns|
  {
    Encodes(arch, insn.encoded, Wanted(insns, i, insn.(branch := insn.branch.(boundary := Some(b)))))
  }

  // The target was chosen by the last draw that was used.
  ghost predicate ChosenByLast(was: seq<nat>, now: seq<nat>, n: nat, boundary: Option<nat>)
    requires n > 0
  {
    |now| < |was| && boundary == Some(was[|was| - |now| - 1] % n)
  }

  // It is the first target drawn that could be encoded.
  ghost predicate FirstTarget(arch: Arch, insns: seq<Instruction>, i: nat, insn: Instruction, was: seq<nat>,
                              now: seq<nat>, boundary: Option<nat>)
    requires i < |insns| && insn.branch.Valid()
  {
    && ChosenByLast(was, now, |insns| + 1, boundary) && CanTarget(arch, insns, i, insn, boundary.value)
    && NoTarget(arch, insns, i, insn, was[..|was| - |now| - 1])
  }

  ghost predicate NoTarget(arch: Arch, insns: seq<Instruction>, i: nat, insn: Instruction, draws: seq<nat>)
    requires i < |insns| && insn.branch.Valid()
  {
    forall k :: 0 <= k < |draws| ==> !CanTarget(arch, insns, i, insn, draws[k] % (|insns| + 1))
  }

  // Attempts at the same branch do not change which targets can be encoded.
  lemma SameTargets(arch: Arch, insns: seq<Instruction>, i: nat, was: Instruction, start: Instruction, now: Instruction,
                    b: nat)
    requires i < |insns| && Attempted(arch, insns, i, was, start) && Attempted(arch, insns, i, was, now) && b <= |insns|
    ensures CanTarget(arch, insns, i, now, b) <==> CanTarget(arch, insns, i, start, b)
  {
    var d := now.branch.displacement.value;
    assert arch.reencode(was.encoded, d) == arch.reencode(start.encoded, d);
    assert |arch.reencode(start.encoded, d)| == |start.encoded|;
    var e := Wanted(insns, i, start.(branch := start.branch.(boundary := Some(b))));
    assert Wanted(insns, i, now.(branch := now.branch.(boundary := Some(b)))) == e;
    assert arch.reencode(was.encoded, e) == arch.reencode(start.encoded, e);
    assert arch.reencode(was.encoded, e) == arch.reencode(now.encoded, e);
  }

  // Chooses targets at random until one can be encoded.
  method RetryTargets(arch: Arch, insns: seq<Instruction>, i: nat, ghost was: Instruction, start: Instruction,
                      rng: MutatorRng)
    returns (ok: bool, now: Instruction)
    requires Lawful(arch)
    requires i < |insns| && Attempted(arch, insns, i, was, start)
    modifies rng
    ensures ok ==> Attempted(arch, insns, i, was, now) && Faithful(arch, now)
    ensures ok ==> UsedUpTo(old(rng.draws), rng.draws, |insns| + 1, i)
    ensures ok ==> FirstTarget(arch, insns, i, start, old(rng.draws), rng.draws, now.branch.boundary)
    ensures !ok ==> rng.draws == [] && NeverSelects(old(rng.draws), |insns| + 1, i)
    ensures !ok ==> NoTarget(arch, insns, i, start, old(rng.draws))
  {
    now, ok := start, false;
    while !ok && rng.draws != []
      invariant Attempted(arch, insns, i, was, now)
      invariant ok ==> Faithful(arch, now)
      invariant Waiting(old(rng.draws), rng.draws, |insns| + 1, i, ok)
      invariant if ok then FirstTarget(arch, insns, i, start, old(rng.draws), rng.draws, now.branch.boundary)
                else NoTarget(arch, insns, i, start, old(rng.draws)[..|old(rng.draws)| - |rng.draws|])
      decreases |rng.draws|, !ok
    {
      ghost var left := rng.draws;
      var draw := rng.RandomIndex(|insns| + 1);
      SameTargets(arch, insns, i, was, start, now, draw.value);
      DrawnTarget(arch, insns, i, start, old(rng.draws), left);
      ok, now := Attempt(arch, insns, i, was, now.(branch := now.branch.(boundary := draw)));
      Waited(old(rng.draws), left, |insns| + 1, i, ok);
    }
  }

  lemma DrawnTarget(arch: Arch, insns: seq<Instruction>, i: nat, insn: Instruction, was: seq<nat>, left: seq<nat>)
    requires i < |insns| && insn.branch.Valid() && left != [] && |left| <= |was| && left == was[|was| - |left|..]
    requires NoTarget(arch, insns, i, insn, was[..|was| - |left|])
    ensures var b := left[0] % (|insns| + 1);
            if CanTarget(arch, insns, i, insn, b) then FirstTarget(arch, insns, i, insn, was, left[1..], Some(b))
            else NoTarget(arch, insns, i, insn, was[..|was| - |left[1..]|])
  {
    var used := |was| - |left|;
    assert was[used] == left[0];
    assert was[..used + 1] == was[..used] + [left[0]];
  }

  // One round of draws, at most, is used to find a target.
  method Retarget(arch: Arch, insns: seq<Instruction>, i: nat, ghost was: Instruction, start: Instruction,
                  rng: MutatorRng, ghost n: nat)
    returns (ok: bool, now: Instruction)
    requires Lawful(arch) && n == |insns| + 1
    requires i < |insns| && Attempted(arch, insns, i, was, start)
    modifies rng
    ensures ok ==> Attempted(arch, insns, i, was, now) && Faithful(arch, now)
    ensures ok ==> FirstTarget(arch, insns, i, start, old(rng.draws), rng.draws, now.branch.boundary)
    ensures ok ==> RoundsIn(old(rng.draws), n) <= RoundsIn(rng.draws, n) + 1
    ensures !ok ==> rng.draws == [] && NeverSelects(old(rng.draws), n, i) && RoundsIn(old(rng.draws), n) == 0
  {
    ok, now := RetryTargets(arch, insns, i, was, start, rng);
    if ok {
      UsedRound(old(rng.draws), rng.draws, n, i);
    } else {
      SelectsNone(old(rng.draws), n, i);
    }
  }

  // Brings one instruction in sync with the recorded offsets.
  method Resync(arch: Arch, insns: seq<Instruction>, i: nat, rng: MutatorRng, ghost n: nat)
    returns (r: Option<bool>, now: Instruction)
    requires Lawful(arch) && n == |insns|
    requires i < |insns| && Targeted(insns[i], |insns| + 1) && Faithful(arch, insns[i])
    modifies rng
    ensures r == Some(false) ==>
              && now == insns[i] && rng.draws == old(rng.draws)
              && (now.branch.Valid() ==> now.branch.displacement.value == Wanted(insns, i, now))
    ensures r == Some(true) ==>
              && insns[i].branch.Valid() && Faithful(arch, now)
              && insns[i].branch.displacement.value != Wanted(insns, i, insns[i])
              && Attempted(arch, insns, i, insns[i], now)
    ensures !insns[i].branch.Valid() ==> r == Some(false)
    // A target that can be encoded is kept, without asking for a random number.
    ensures insns[i].branch.Valid() && Encodes(arch, insns[i].encoded, Wanted(insns, i, insns[i])) ==>
              r.Some? && now.branch.boundary == insns[i].branch.boundary && rng.draws == old(rng.draws)
    // Another target is chosen by a draw.
    ensures r == Some(true) && !Encodes(arch, insns[i].encoded, Wanted(insns, i, insns[i])) ==>
              ChosenByLast(old(rng.draws), rng.draws, |insns| + 1, now.branch.boundary)
    // The retries end at the latest when a draw selects the instruction itself, after one round.
    ensures r.Some? ==> RoundsIn(old(rng.draws), n + 1) <= RoundsIn(rng.draws, n + 1) + 1
    ensures r.None? ==> rng.draws == [] && NeverSelects(old(rng.draws), n + 1, i)
    ensures r.None? ==> RoundsIn(old(rng.draws), n + 1) == 0
    ensures r.None? ==> insns[i].branch.Valid() && insns[i].branch.displacement.value != Wanted(insns, i, insns[i])
  {
    var changed;
    changed, now := SyncByteDisplacement(insns, i, insns[i]);
    if !changed {
      return Some(false), now;
    }
    WantedSameSize(insns, i, insns[i], insns[i].encoded, now.branch.displacement.value);
    var ok;
    ok, now := Attempt(arch, insns, i, insns[i], now);
    if !ok {
      ok, now := Retarget(arch, insns, i, insns[i], now, rng, n + 1);
      if !ok {
        return None, now;
      }
    }
    return Some(true), now;
  }

  // The instructions with every offset recalculated.
  ghost function Relaid(insns: seq<Instruction>): (r: seq<Instruction>)
    ensures |r| == |insns|
    ensures forall k {:trigger r[k]} :: 0 <= k < |insns| ==> r[k] == insns[k].(offset := OffsetAt(insns, k))
  {
    seq(|insns|, k requires 0 <= k < |insns| => insns[k].(offset := OffsetAt(insns, k)))
  }

  lemma RelaidLaidOut(insns: seq<Instruction>)
    ensures LaidOut(Relaid(insns)) && SameSizes(Relaid(insns), insns)
    ensures TotalSize(Relaid(insns)) == TotalSize(insns)
    ensures LaidOut(insns) ==> Relaid(insns) == insns
  {
    forall k | 0 <= k <= |insns| ensures OffsetAt(Relaid(insns), k) == OffsetAt(insns, k) {
      OffsetsAgree(Relaid(insns), insns, k);
    }
  }

  method FixupInvariants(insns: seq<Instruction>) returns (relaid: seq<Instruction>, byteLen: nat)
    ensures relaid == Relaid(insns)
    ensures byteLen == TotalSize(insns)
  {
    byteLen := 0;
    relaid := [];
    for i := 0 to |insns|
      invariant byteLen == OffsetAt(insns, i)
      invariant |relaid| == i
      invariant forall k {:trigger relaid[k]} :: 0 <= k < i ==> relaid[k] == insns[k].(offset := OffsetAt(insns, k))
    {
      relaid := relaid + [insns[i].(offset := byteLen)];
      byteLen := byteLen + |insns[i].encoded|;
    }
  }

  ghost predicate SameBoundary(a: seq<Instruction>, b: seq<Instruction>, k: nat)
    requires k <= |a| == |b|
  {
    OffsetAt(a, k) == OffsetAt(b, k)
  }

  // Boundaries `0..k` did not move.
  ghost predicate Unmoved(a: seq<Instruction>, b: seq<Instruction>, k: nat)
    requires k <= |a| == |b|
  {
    forall j :: 0 <= j <= k ==> SameBoundary(a, b, j)
  }

  // The state of a fixup pass over `before` that has dealt with the first `i` instructions.
  ghost predicate PassState(arch: Arch, before: seq<Instruction>, now: seq<Instruction>, i: nat) {
    && i <= |before| == |now|
    && (forall j :: i <= j < |now| ==> now[j] == before[j])
    && (forall j {:trigger now[j].offset} :: 0 <= j < i ==> now[j].offset == OffsetAt(now, j))
    && AllTargeted(now) && AllFaithful(arch, now)
    && (forall j :: 0 <= j < i ==> Progress(arch, before[j], now[j]))
    && (forall j :: 0 <= j < i ==> SyncedIfUnmoved(before, now, j))
  }

  // The bytes are the old ones, or the old ones with the recorded displacement written into them.
  ghost predicate Rewritten(arch: Arch, was: Instruction, now: Instruction) {
    && now.branch.Valid() == was.branch.Valid()
    && (now.encoded != was.encoded ==>
          && now.branch.Valid()
          && now.encoded == arch.reencode(was.encoded, now.branch.displacement.value))
    && (now.branch.Valid() ==> SameOperation(arch, was.encoded, now.encoded))
  }

  // What a pass may do to an instruction: it is canonicalized if its size changes.
  ghost predicate Progress(arch: Arch, was: Instruction, now: Instruction) {
    && Rewritten(arch, was, now)
    && (Pending(arch, now) ==> Pending(arch, was))
    && (|now.encoded| != |was.encoded| ==> Pending(arch, was) && !Pending(arch, now))
  }

  // If no boundary up to the end of instruction `j` moved, the instruction is in sync with the old layout.
  ghost predicate SyncedIfUnmoved(before: seq<Instruction>, now: seq<Instruction>, j: nat)
    requires j < |before| == |now| && AllTargeted(now)
  {
    now[j].branch.Valid() && Unmoved(before, now, j + 1) ==>
      now[j].branch.displacement.value == OffsetAt(before, now[j].branch.boundary.value) - OffsetAt(before, j)
  }

  ghost predicate AllRewritten(arch: Arch, was: seq<Instruction>, now: seq<Instruction>) {
    |was| == |now| && forall k :: 0 <= k < |was| ==> Rewritten(arch, was[k], now[k])
  }

  lemma PassRewrites(arch: Arch, before: seq<Instruction>, now: seq<Instruction>)
    requires PassState(arch, before, now, |before|)
    ensures AllRewritten(arch, before, now)
  {
    forall k | 0 <= k < |now| ensures Rewritten(arch, before[k], now[k]) {
      assert Progress(arch, before[k], now[k]);
    }
  }

  lemma OffsetsBefore(insns: seq<Instruction>, i: nat, insn: Instruction)
    requires i < |insns|
    ensures forall j {:trigger OffsetAt(insns[i := insn], j)} :: 0 <= j <= i ==>
              OffsetAt(insns[i := insn], j) == OffsetAt(insns, j)
  {
    forall j | 0 <= j <= i ensures OffsetAt(insns[i := insn], j) == OffsetAt(insns, j) {
      OffsetsAgree(insns[i := insn], insns, j);
    }
  }

  // The recorded offsets are the old layout before instruction `i` if nothing moved, and after it anyway.
  lemma MixedOffset(before: seq<Instruction>, now: seq<Instruction>, i: nat, b: nat)
    requires LaidOut(before) && i < |before| == |now| && b < |before| && b != i
    requires forall j :: i < j < |now| ==> now[j] == before[j]
    requires forall j {:trigger now[j].offset} :: 0 <= j < i ==> now[j].offset == OffsetAt(now, j)
    requires Unmoved(before, now, i)
    ensures now[b].offset == OffsetAt(before, b)
  {
    if b < i {
      assert SameBoundary(before, now, b);
    } else {
      assert now[b].offset == before[b].offset;
    }
  }

  // Nothing moved up to the end of instruction `i`: its wanted displacement is that of the old layout.
  lemma WantedUnmoved(before: seq<Instruction>, now: seq<Instruction>, i: nat, next: Instruction)
    requires LaidOut(before) && i < |before| == |now|
    requires forall j :: i < j < |now| ==> now[j] == before[j]
    requires forall j {:trigger now[j].offset} :: 0 <= j < i ==> now[j].offset == OffsetAt(now, j)
    requires next.branch.Valid() && Targeted(next, |now| + 1)
    requires Unmoved(before, now, i)
    requires next.offset == OffsetAt(before, i) && next.offset + |next.encoded| == OffsetAt(before, i + 1)
    ensures Wanted(now, i, next) == OffsetAt(before, next.branch.boundary.value) - OffsetAt(before, i)
  {
    var n := |before|;
    var b := next.branch.boundary.value;
    if b == i || (b == n && i == n - 1) {
      return;
    }
    if b < n {
      MixedOffset(before, now, i, b);
    } else {
      MixedOffset(before, now, i, n - 1);
      assert now[n - 1] == before[n - 1];
      assert OffsetAt(before, n) == OffsetAt(before, n - 1) + |before[n - 1].encoded|;
    }
  }

  // Instruction `i` of the pass: either it was in sync already, or it has been re-encoded.
  ghost predicate Handled(arch: Arch, now: seq<Instruction>, i: nat, was: Instruction, next: Instruction)
    requires i < |now| && Targeted(was, |now| + 1)
  {
    || (next == was && (was.branch.Valid() ==> was.branch.displacement.value == Wanted(now, i, was)))
    || (was.branch.Valid() && Attempted(arch, now, i, was, next) && Faithful(arch, next))
  }

  lemma SeenOffset(arch: Arch, before: seq<Instruction>, now: seq<Instruction>, i: nat, k: nat)
    requires LaidOut(before) && AllFaithful(arch, before) && PassState(arch, before, now, i)
    requires k < |before|
    ensures now[k].offset <= Span(arch, k) && Faithful(arch, now[k])
  {
    if k < i {
      OffsetsBounded(arch, now, k);
      assert now[k].offset == OffsetAt(now, k);
    } else {
      OffsetsBounded(arch, before, k);
      assert now[k].offset == before[k].offset == OffsetAt(before, k);
    }
  }

  lemma SeenBounded(arch: Arch, before: seq<Instruction>, now: seq<Instruction>, i: nat, k: nat)
    requires LaidOut(before) && AllFaithful(arch, before) && PassState(arch, before, now, i)
    requires k < |before|
    ensures now[k].offset <= Span(arch, k)
    ensures now[k].offset + |now[k].encoded| <= Span(arch, k + 1) <= Span(arch, |before|)
  {
    SeenOffset(arch, before, now, i, k);
    SpanMonotone(arch, k + 1, |before|);
  }

  lemma SeenAligned(arch: Arch, before: seq<Instruction>, now: seq<Instruction>, i: nat, k: nat)
    requires LaidOut(before) && AllFaithful(arch, before) && PassState(arch, before, now, i)
    requires k < |before| && arch.minSize == arch.maxSize
    ensures now[k].offset == Span(arch, k) && |now[k].encoded| == arch.maxSize
  {
    if k < i {
      OffsetsSpan(arch, now, k);
    } else {
      assert now[k].offset == before[k].offset;
      OffsetsSpan(arch, before, k);
    }
    assert Faithful(arch, now[k]);
  }

  lemma WantedApart(arch: Arch, insns: seq<Instruction>, i: nat, insn: Instruction)
    requires i < |insns| && Targeted(insn, |insns| + 1) && insn.branch.Valid()
    requires insn.offset == Span(arch, i) && |insn.encoded| == arch.maxSize
    requires forall k {:trigger insns[k].offset} :: 0 <= k < |insns| ==>
               insns[k].offset == Span(arch, k) && |insns[k].encoded| == arch.maxSize
    ensures Apart(arch, Wanted(insns, i, insn), insn.branch.boundary.value, i)
  {
  }

  // Displacements between instructions of one size are multiples of it.
  lemma WantedAligned(arch: Arch, before: seq<Instruction>, now: seq<Instruction>, i: nat, was: Instruction)
    requires LaidOut(before) && AllFaithful(arch, before) && PassState(arch, before, now, i) && i < |before|
    requires was == now[i].(offset := OffsetAt(now, i)) && was.branch.Valid()
    ensures Aligned(arch, Wanted(now, i, was))
  {
    if arch.minSize == arch.maxSize {
      forall k | 0 <= k < |now| ensures now[k].offset == Span(arch, k) && |now[k].encoded| == arch.maxSize {
        SeenAligned(arch, before, now, i, k);
      }
      OffsetsSpan(arch, now, i);
      WantedApart(arch, now, i, was);
    }
  }

  lemma WantedWithin(insns: seq<Instruction>, i: nat, insn: Instruction, bound: nat)
    requires i < |insns| && Targeted(insn, |insns| + 1) && insn.branch.Valid()
    requires insn.offset + |insn.encoded| <= bound
    requires forall k :: 0 <= k < |insns| ==> insns[k].offset + |insns[k].encoded| <= bound
    ensures Magnitude(Wanted(insns, i, insn)) <= bound
  {
  }

  // No displacement within the program is longer than the largest possible program.
  lemma WantedBounded(arch: Arch, before: seq<Instruction>, now: seq<Instruction>, i: nat, was: Instruction)
    requires LaidOut(before) && AllFaithful(arch, before) && PassState(arch, before, now, i) && i < |before|
    requires was == now[i].(offset := OffsetAt(now, i)) && was.branch.Valid()
    ensures Magnitude(Wanted(now, i, was)) <= Span(arch, |before|)
  {
    var bound := Span(arch, |before|);
    forall k | 0 <= k < |now| ensures now[k].offset + |now[k].encoded| <= bound {
      SeenBounded(arch, before, now, i, k);
    }
    assert was.offset + |was.encoded| <= bound by {
      OffsetsBounded(arch, now, i + 1);
      SpanMonotone(arch, i + 1, |before|);
    }
    WantedWithin(now, i, was, bound);
  }

  lemma PassStep(arch: Arch, before: seq<Instruction>, now: seq<Instruction>, i: nat, next: Instruction)
    requires LaidOut(before) && AllFaithful(arch, before) && PassState(arch, before, now, i) && i < |before|
    requires Handled(arch, now, i, now[i].(offset := OffsetAt(now, i)), next)
    ensures PassState(arch, before, now[i := next], i + 1)
  {
    var after := now[i := next];
    OffsetsBefore(now, i, next);
    assert Progress(arch, before[i], next);
    forall j | 0 <= j < i + 1 ensures SyncedIfUnmoved(before, after, j) {
      if j < i {
        assert SyncedIfUnmoved(before, now, j);
        UnmovedBefore(before, now, i, next, j + 1);
      } else {
        SyncedNow(arch, before, now, i, next);
      }
    }
  }

  // A program whose displacements can all be encoded keeps its targets.
  lemma KeepsTarget(arch: Arch, before: seq<Instruction>, now: seq<Instruction>, i: nat)
    requires LaidOut(before) && AllFaithful(arch, before) && PassState(arch, before, now, i) && i < |before|
    requires now[i].branch.Valid() && Reaches(arch, Span(arch, |before|))
    ensures Encodes(arch, now[i].encoded, Wanted(now, i, now[i].(offset := OffsetAt(now, i))))
  {
    var was := now[i].(offset := OffsetAt(now, i));
    assert Faithful(arch, now[i]);
    WantedBounded(arch, before, now, i, was);
    WantedAligned(arch, before, now, i, was);
    assert ReachesBy(arch, Span(arch, |before|), was.encoded, Wanted(now, i, was));
  }

  lemma UnmovedBefore(before: seq<Instruction>, now: seq<Instruction>, i: nat, next: Instruction, k: nat)
    requires k <= i < |before| == |now|
    ensures Unmoved(before, now[i := next], k) <==> Unmoved(before, now, k)
  {
    var after := now[i := next];
    OffsetsBefore(now, i, next);
    if Unmoved(before, after, k) {
      forall j | 0 <= j <= k ensures SameBoundary(before, now, j) {
        assert SameBoundary(before, after, j);
      }
    }
    if Unmoved(before, now, k) {
      forall j | 0 <= j <= k ensures SameBoundary(before, after, j) {
        assert SameBoundary(before, now, j);
      }
    }
  }

  lemma SyncedNow(arch: Arch, before: seq<Instruction>, now: seq<Instruction>, i: nat, next: Instruction)
    requires LaidOut(before) && PassState(arch, before, now, i) && i < |before|
    requires Handled(arch, now, i, now[i].(offset := OffsetAt(now, i)), next)
    requires Targeted(next, |now| + 1) && AllTargeted(now[i := next])
    ensures SyncedIfUnmoved(before, now[i := next], i)
  {
    var after := now[i := next];
    if next.branch.Valid() && Unmoved(before, after, i + 1) {
      UnmovedBefore(before, now, i, next, i);
      assert SameBoundary(before, after, i) && SameBoundary(before, after, i + 1);
      OffsetsBefore(now, i, next);
      WantedUnmoved(before, now, i, next);
    }
  }

  lemma WantedExact(insns: seq<Instruction>, i: nat)
    requires LaidOut(insns) && AllTargeted(insns)
    requires i < |insns| && insns[i].branch.Valid()
    ensures InSyncAt(insns, i) <==> insns[i].branch.displacement.value == Wanted(insns, i, insns[i])
  {
    var b := insns[i].branch.boundary.value;
    BoundaryOffsetExact(insns, b);
    BoundaryOffsetExact(insns, i);
    assert BoundaryOffsetSeen(insns, i, insns[i], b) == BoundaryOffset(insns, b);
  }

  // The stability flag of a pass that is about to look at instruction `i`.
  ghost predicate StableSoFar(before: seq<Instruction>, now: seq<Instruction>, i: nat, stable: bool)
    requires i <= |before| == |now|
  {
    (stable && SameBoundary(before, now, i)) <==> Unmoved(before, now, i)
  }

  lemma StableStep(before: seq<Instruction>, now: seq<Instruction>, i: nat, next: Instruction, stable: bool)
    requires i < |before| == |now|
    requires StableSoFar(before, now, i, stable)
    ensures StableSoFar(before, now[i := next], i + 1, stable && SameBoundary(before, now, i))
  {
    var after := now[i := next];
    UnmovedBefore(before, now, i, next, i);
    if Unmoved(before, after, i + 1) {
      assert SameBoundary(before, after, i + 1);
    }
  }

  lemma StableEnd(before: seq<Instruction>, now: seq<Instruction>)
    requires |before| == |now|
    ensures Unmoved(before, now, |now|) <==> SameSizes(before, now)
  {
    if Unmoved(before, now, |now|) {
      forall k | 0 <= k <= |now| ensures OffsetAt(before, k) == OffsetAt(now, k) {
        assert SameBoundary(before, now, k);
      }
      SizesFromOffsets(before, now);
    }
    if SameSizes(before, now) {
      forall k | 0 <= k <= |now| ensures SameBoundary(before, now, k) {
        OffsetsAgree(before, now, k);
      }
    }
  }

  // What a finished pass has achieved.
  lemma PassResult(arch: Arch, before: seq<Instruction>, now: seq<Instruction>)
    requires PassState(arch, before, now, |before|)
    ensures LaidOut(now) && AllTargeted(now) && AllFaithful(arch, now)
    ensures SameSizes(before, now) ==> InSync(now)
  {
    if SameSizes(before, now) {
      StableEnd(before, now);
      forall k | 0 <= k < |now| ensures InSyncAt(now, k) {
        if now[k].branch.Valid() {
          assert SyncedIfUnmoved(before, now, k);
          assert SameBoundary(before, now, k);
          assert SameBoundary(before, now, now[k].branch.boundary.value);
          assert Unmoved(before, now, k + 1);
        }
      }
    }
  }

  // A pass that changed a size has canonicalized an instruction.
  lemma PassShrinks(arch: Arch, before: seq<Instruction>, now: seq<Instruction>)
    requires PassState(arch, before, now, |before|)
    ensures PendingCount(arch, now) <= PendingCount(arch, before)
    ensures !SameSizes(before, now) ==> PendingCount(arch, now) < PendingCount(arch, before)
  {
    forall j | 0 <= j < |now| && Pending(arch, now[j]) ensures Pending(arch, before[j]) {
      assert Progress(arch, before[j], now[j]);
    }
    PendingShrinks(arch, before, now);
    if !SameSizes(before, now) {
      var k :| 0 <= k < |now| && |now[k].encoded| != |before[k].encoded|;
      assert Progress(arch, before[k], now[k]);
    }
  }

  // The variables of a pass: the program so far, the offset of the next instruction, whether
  // no boundary has moved, and whether an instruction was rewritten.
  datatype Sweep = Sweep(insns: seq<Instruction>, offset: nat, stable: bool, modified: bool)

  // The loop invariant of a pass.
  ghost predicate PassLoop(arch: Arch, before: seq<Instruction>, i: nat, sweep: Sweep)
    requires AllTargeted(before)
  {
    && PassState(arch, before, sweep.insns, i)
    && sweep.offset == OffsetAt(sweep.insns, i)
    && StableSoFar(before, sweep.insns, i, sweep.stable)
    && (if sweep.modified then !InSync(before)
        else sweep.insns == before && forall j :: 0 <= j < i ==> InSyncAt(before, j))
  }

  lemma PassLoopInit(arch: Arch, before: seq<Instruction>)
    requires AllTargeted(before) && AllFaithful(arch, before)
    ensures PassLoop(arch, before, 0, Sweep(before, 0, true, false))
  {
    assert SameBoundary(before, before, 0);
  }

  lemma PassLoopEnd(arch: Arch, before: seq<Instruction>, sweep: Sweep)
    requires AllTargeted(before)
    requires PassLoop(arch, before, |before|, sweep)
    ensures PassState(arch, before, sweep.insns, |before|) && sweep.offset == TotalSize(sweep.insns)
    ensures (sweep.stable && TotalSize(before) == sweep.offset) <==> SameSizes(before, sweep.insns)
    ensures if sweep.modified then !InSync(before) else InSync(before) && sweep.insns == before
  {
    StableEnd(before, sweep.insns);
  }

  // The variables after instruction `i`: an instruction that is not where it was means that
  // the layout is not stable.
  function Swept(sweep: Sweep, i: nat, next: Instruction, changed: bool): Sweep
    requires i < |sweep.insns|
  {
    Sweep(sweep.insns[i := next], sweep.offset + |next.encoded|,
          sweep.stable && sweep.insns[i].offset == sweep.offset, sweep.modified || changed)
  }

  lemma PassLoopStep(arch: Arch, before: seq<Instruction>, i: nat, sweep: Sweep, next: Instruction, changed: bool)
    requires LaidOut(before) && AllTargeted(before) && AllFaithful(arch, before) && i < |before|
    requires PassLoop(arch, before, i, sweep)
    requires Handled(arch, sweep.insns, i, sweep.insns[i].(offset := sweep.offset), next)
    requires changed ==>
               && sweep.insns[i].branch.Valid()
               && sweep.insns[i].branch.displacement.value !=
                    Wanted(sweep.insns, i, sweep.insns[i].(offset := sweep.offset))
    requires !changed ==>
               && next == sweep.insns[i].(offset := sweep.offset)
               && (next.branch.Valid() ==> next.branch.displacement.value == Wanted(sweep.insns, i, next))
    ensures PassLoop(arch, before, i + 1, Swept(sweep, i, next, changed))
  {
    var now := sweep.insns;
    OffsetsBefore(now, i, next);
    assert now[i].offset == before[i].offset == OffsetAt(before, i);
    PassStep(arch, before, now, i, next);
    StableStep(before, now, i, next, sweep.stable);
    if !sweep.modified {
      assert now[i].(offset := sweep.offset) == before[i];
      if before[i].branch.Valid() { WantedExact(before, i); }
      if !changed { assert now[i := next] == before; }
    }
  }

  lemma WantedIgnoresSelf(insns: seq<Instruction>, i: nat, moved: Instruction, insn: Instruction)
    requires i < |insns| && Targeted(insn, |insns| + 1) && insn.branch.Valid()
    ensures Wanted(insns[i := moved], i, insn) == Wanted(insns, i, insn)
  {
  }

  lemma ResyncHandled(arch: Arch, now: seq<Instruction>, i: nat, moved: Instruction, next: Instruction, changed: bool)
    requires i < |now| && Targeted(moved, |now| + 1)
    requires var placed := now[i := moved];
             if changed then
               && moved.branch.Valid() && Faithful(arch, next)
               && moved.branch.displacement.value != Wanted(placed, i, moved)
               && Attempted(arch, placed, i, moved, next)
             else
               && next == moved
               && (next.branch.Valid() ==> next.branch.displacement.value == Wanted(placed, i, next))
    ensures Handled(arch, now, i, moved, next)
    ensures changed ==> moved.branch.displacement.value != Wanted(now, i, moved)
    ensures !changed && next.branch.Valid() ==> next.branch.displacement.value == Wanted(now, i, next)
  {
    if moved.branch.Valid() {
      WantedIgnoresSelf(now, i, moved, moved);
      if changed { WantedIgnoresSelf(now, i, moved, next); }
    }
  }

  // One pass over the program.  `r` says whether an instruction was rewritten.  A `roomy`
  // program is one whose displacements can all be encoded.  Each instruction takes at most one
  // round of draws in which every boundary is selected.
  method FixupPass(arch: Arch, before: seq<Instruction>, byteLen: nat, rng: MutatorRng, ghost roomy: bool,
                   ghost n: nat)
    returns (r: Option<bool>, stable: bool, now: seq<Instruction>, total: nat)
    requires Lawful(arch) && n == |before| && (roomy ==> Reaches(arch, Span(arch, n)))
    requires LaidOut(before) && AllTargeted(before) && AllFaithful(arch, before)
    requires byteLen == TotalSize(before)
    modifies rng
    ensures r.Some? ==> PassState(arch, before, now, |before|) && total == TotalSize(now)
    ensures r.Some? ==> (stable <==> SameSizes(before, now))
    ensures r.Some? ==> (r.value <==> !InSync(before))
    ensures r == Some(false) ==> now == before && rng.draws == old(rng.draws)
    ensures roomy ==> r.Some? && TargetsOf(now) == TargetsOf(before) && rng.draws == old(rng.draws)
    ensures r.Some? ==> Spent(old(rng.draws), rng.draws, n, n)
    ensures r.None? ==> RoundsIn(old(rng.draws), n + 1) < n
    ensures r.None? ==> rng.draws == [] && !InSync(before)
  {
    var sweep := Sweep(before, 0, true, false);
    PassLoopInit(arch, before);
    var i := 0;
    while i < |before|
      invariant i <= |before|
      invariant PassLoop(arch, before, i, sweep)
      invariant !sweep.modified || roomy ==> rng.draws == old(rng.draws)
      invariant roomy ==> TargetsOf(sweep.insns) == TargetsOf(before)
      invariant Spent(old(rng.draws), rng.draws, n, i)
    {
      var after := PassInstruction(arch, before, i, sweep, rng, roomy, n, old(rng.draws));
      if after.None? {
        return None, false, before, byteLen;
      }
      sweep := after.value;
      i := i + 1;
    }
    assert i == n;
    // The program size catches a change in the size of the last instruction.
    PassLoopEnd(arch, before, sweep);
    return Some(sweep.modified), sweep.stable && byteLen == sweep.offset, sweep.insns, sweep.offset;
  }

  // A pass only asks for a target if the program was not in sync.
  lemma OutOfSync(arch: Arch, before: seq<Instruction>, i: nat, sweep: Sweep)
    requires LaidOut(before) && AllTargeted(before) && i < |before| && PassLoop(arch, before, i, sweep)
    requires var moved := sweep.insns[i].(offset := sweep.offset);
             && Targeted(moved, |before| + 1) && moved.branch.Valid()
             && moved.branch.displacement.value != Wanted(sweep.insns[i := moved], i, moved)
    ensures !InSync(before)
  {
    if !sweep.modified {
      assert before[i].offset == OffsetAt(before, i);
      var moved := sweep.insns[i].(offset := sweep.offset);
      assert moved == before[i] && sweep.insns[i := moved] == before;
      WantedExact(before, i);
      assert !InSyncAt(before, i);
    }
  }

  // The work of a pass on instruction `i`.
  method PassInstruction(arch: Arch, ghost before: seq<Instruction>, i: nat, sweep: Sweep, rng: MutatorRng,
                         ghost roomy: bool, ghost n: nat, ghost first: seq<nat>)
    returns (r: Option<Sweep>)
    requires n == |before| && Spent(first, rng.draws, n, i)
    requires Lawful(arch) && LaidOut(before) && AllTargeted(before) && AllFaithful(arch, before)
    requires i < |before| && PassLoop(arch, before, i, sweep)
    requires roomy ==> Reaches(arch, Span(arch, n))
    modifies rng
    ensures r.Some? ==> PassLoop(arch, before, i + 1, r.value) && (sweep.modified ==> r.value.modified)
    ensures r.Some? && !r.value.modified ==> rng.draws == old(rng.draws)
    ensures roomy ==> r.Some? && TargetsOf(r.value.insns) == TargetsOf(sweep.insns) && rng.draws == old(rng.draws)
    ensures if r.Some? then Spent(first, rng.draws, n, i + 1) else RoundsIn(first, n + 1) < n
    ensures r.None? ==> rng.draws == [] && !InSync(before)
  {
    var moved := sweep.insns[i].(offset := sweep.offset);
    assert Faithful(arch, sweep.insns[i]);
    if moved.branch.Valid() && roomy {
      KeepsTarget(arch, before, sweep.insns, i);
      WantedIgnoresSelf(sweep.insns, i, moved, moved);
    }
    var changed, next := Resync(arch, sweep.insns[i := moved], i, rng, n);
    if changed.None? {
      OutOfSync(arch, before, i, sweep);
      return None;
    }
    ResyncHandled(arch, sweep.insns, i, moved, next, changed.value);
    PassLoopStep(arch, before, i, sweep, next, changed.value);
    if roomy {
      TargetKept(sweep.insns, i, next);
    }
    return Some(Swept(sweep, i, next, changed.value));
  }
}
