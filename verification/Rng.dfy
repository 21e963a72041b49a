/** The random number generator as an arbitrary stream of draws.

    A run that finishes consumes finitely many draws, so a run is given a finite supply.
    `None` means that the supply ended while the program was still asking for more. */
module Rng {
  import opened Basics

  // The next draw was used to choose below `n`.
  ghost predicate Took(was: seq<nat>, now: seq<nat>, n: nat, choice: nat)
    requires n > 0
  {
    was != [] && now == was[1..] && choice == was[0] % n
  }

  // Only the first draws were used.
  ghost predicate Rest(was: seq<nat>, now: seq<nat>) {
    |now| <= |was| && now == was[|was| - |now|..]
  }

  // Two different indexes below `n`: the first draw, and the next one that is not the same.
  ghost predicate TookApart(was: seq<nat>, now: seq<nat>, n: nat, a: nat, b: nat)
    requires n > 0
  {
    var used := |was| - |now|;
    && 2 <= used && Rest(was, now)
    && a == was[0] % n && b == was[used - 1] % n && a != b
    && forall k :: 1 <= k < used - 1 ==> was[k] % n == a
  }

  // No draw selects index `i` out of `n`.
  ghost predicate NeverSelects(draws: seq<nat>, n: nat, i: nat)
    requires n > 0
  {
    forall k :: 0 <= k < |draws| ==> draws[k] % n != i
  }

  ghost predicate Below(i: nat, n: nat) {
    i < n
  }

  ghost function Indices(n: nat): set<nat> {
    set i: nat | 0 <= i < n && Below(i, n)
  }

  // How often all indices below `n` are selected, one round after the other, when those of
  // `missing` are still missing in the first round.
  ghost function RoundsFrom(draws: seq<nat>, n: nat, missing: set<nat>): nat
    requires n > 0
  {
    if draws == [] then 0
    else
      var left := missing - {draws[0] % n};
      if left == {} then 1 + RoundsFrom(draws[1..], n, Indices(n)) else RoundsFrom(draws[1..], n, left)
  }

  ghost function RoundsIn(draws: seq<nat>, n: nat): nat
    requires n > 0
  {
    RoundsFrom(draws, n, Indices(n))
  }

  // Draws were used up to the first one that selects index `i`, or fewer.
  ghost predicate UsedUpTo(was: seq<nat>, now: seq<nat>, n: nat, i: nat)
    requires n > 0
  {
    && |now| <= |was| && now == was[|was| - |now|..]
    && (|now| < |was| ==> NeverSelects(was[..|was| - |now| - 1], n, i))
  }

  // The draws that were used do not select index `i`, except perhaps the last if the wait is over.
  ghost predicate Waiting(was: seq<nat>, now: seq<nat>, n: nat, i: nat, over: bool)
    requires n > 0
  {
    if over then UsedUpTo(was, now, n, i)
    else |now| <= |was| && now == was[|was| - |now|..] && NeverSelects(was[..|was| - |now|], n, i)
  }

  lemma Waited(was: seq<nat>, left: seq<nat>, n: nat, i: nat, over: bool)
    requires n > 0 && left != [] && Waiting(was, left, n, i, false) && (left[0] % n == i ==> over)
    ensures Waiting(was, left[1..], n, i, over)
    ensures left[1..] == [] && !over ==> NeverSelects(was, n, i)
  {
    var used := |was| - |left|;
    assert was[used] == left[0] && left[1..] == was[used + 1..];
    assert was[..used + 1] == was[..used] + [left[0]];
    assert left[1..] == [] ==> was[..used + 1] == was;
  }

  // With fewer indices missing there are more rounds, but at most one more.
  lemma {:induction false} FewerMissing(draws: seq<nat>, n: nat, few: set<nat>, many: set<nat>)
    requires n > 0 && few != {} && few <= many <= Indices(n)
    ensures RoundsFrom(draws, n, many) <= RoundsFrom(draws, n, few) <= RoundsFrom(draws, n, many) + 1
  {
    if draws != [] {
      var h := draws[0] % n;
      assert Below(h, n);
      if few - {h} != {} {
        FewerMissing(draws[1..], n, few - {h}, many - {h});
      } else if many - {h} != {} {
        FewerMissing(draws[1..], n, many - {h}, Indices(n));
      }
    }
  }

  // Waiting for a missing index takes one round at most.
  lemma {:induction false} OneRound(was: seq<nat>, used: nat, n: nat, i: nat, missing: set<nat>)
    requires i < n && i in missing && missing <= Indices(n)
    requires used <= |was| && (used > 0 ==> NeverSelects(was[..used - 1], n, i))
    ensures RoundsFrom(was, n, missing) <= RoundsIn(was[used..], n) + 1
  {
    if used == 0 {
      FewerMissing(was, n, missing, Indices(n));
      assert was[0..] == was;
    } else {
      var h, rest := was[0] % n, was[1..];
      assert Below(h, n) && rest[used - 1..] == was[used..];
      if used > 1 {
        assert was[..used - 1][0] == was[0] && rest[..used - 2] == was[..used - 1][1..];
        OneRound(rest, used - 1, n, i, missing - {h});
      } else if missing - {h} != {} {
        FewerMissing(rest, n, missing - {h}, Indices(n));
      }
    }
  }

  lemma {:induction false} NoRound(draws: seq<nat>, n: nat, i: nat, missing: set<nat>)
    requires i < n && i in missing && NeverSelects(draws, n, i)
    ensures RoundsFrom(draws, n, missing) == 0
  {
    if draws != [] {
      assert draws[0] % n != i;
      NoRound(draws[1..], n, i, missing - {draws[0] % n});
    }
  }

  lemma SelectsNone(draws: seq<nat>, n: nat, i: nat)
    requires i < n && NeverSelects(draws, n, i)
    ensures RoundsIn(draws, n) == 0
  {
    assert Below(i, n);
    NoRound(draws, n, i, Indices(n));
  }

  lemma UsedRound(was: seq<nat>, now: seq<nat>, n: nat, i: nat)
    requires i < n && UsedUpTo(was, now, n, i)
    ensures RoundsIn(was, n) <= RoundsIn(now, n) + 1
  {
    assert Below(i, n);
    OneRound(was, |was| - |now|, n, i, Indices(n));
  }

  // At most `rounds` rounds in which all of `n + 1` indices are selected were used.
  ghost predicate Spent(first: seq<nat>, now: seq<nat>, n: nat, rounds: nat) {
    RoundsIn(first, n + 1) <= RoundsIn(now, n + 1) + rounds
  }

  // For how many passes of `n` rounds the stream is sufficient.
  ghost function PassesIn(draws: seq<nat>, n: nat): nat {
    if n == 0 then 0 else RoundsIn(draws, n + 1) / n
  }

  ghost predicate PassesSpent(first: seq<nat>, now: seq<nat>, n: nat, passes: nat) {
    PassesIn(first, n) <= PassesIn(now, n) + passes
  }

  // The stream is not sufficient for `n + 1` passes of `n` rounds.
  ghost predicate Scarce(draws: seq<nat>, n: nat) {
    RoundsIn(draws, n + 1) < n * (n + 1)
  }

  lemma PassSpent(first: seq<nat>, was: seq<nat>, now: seq<nat>, n: nat, passes: nat)
    requires PassesSpent(first, was, n, passes) && Spent(was, now, n, n)
    ensures PassesSpent(first, now, n, passes + 1)
  {
    if n > 0 {
      NextMultiple(RoundsIn(was, n + 1), RoundsIn(now, n + 1), n);
    }
  }

  lemma NextMultiple(a: nat, b: nat, n: nat)
    requires n > 0 && a <= b + n
    ensures a / n <= b / n + 1
  {
    if a / n > b / n + 1 {
      MultipleGrows(b / n + 2, a / n, n);
    }
  }

  lemma MultipleGrows(k: nat, m: nat, n: nat)
    requires k <= m
    ensures k * n <= m * n
  {
  }

  lemma PassFailed(first: seq<nat>, was: seq<nat>, n: nat, passes: nat)
    requires PassesSpent(first, was, n, passes) && passes <= n && RoundsIn(was, n + 1) < n
    ensures Scarce(first, n)
  {
    if n > 0 {
      Quotient(RoundsIn(was, n + 1), n, 0);
      Quotient(RoundsIn(first, n + 1), n, n);
    }
  }

  lemma Quotient(r: nat, n: nat, k: nat)
    requires n > 0
    ensures r / n <= k <==> r < n * (k + 1)
  {
    if r / n <= k {
      MultipleGrows(r / n, k, n);
      assert r == (r / n) * n + r % n;
    } else {
      MultipleGrows(k + 1, r / n, n);
    }
  }

  class MutatorRng {
    var draws: seq<nat>

    constructor (draws: seq<nat>)
      ensures this.draws == draws
    {
      this.draws := draws;
    }

    // An arbitrary index below `size`.
    method RandomIndex(size: nat) returns (r: Option<nat>)
      requires size > 0
      modifies this
      ensures old(draws) == [] ==> r == None && draws == []
      ensures old(draws) != [] ==> r == Some(old(draws)[0] % size) && draws == old(draws)[1..]
    {
      if draws == [] {
        return None;
      }
      r := Some(draws[0] % size);
      draws := draws[1..];
    }
  }
}
