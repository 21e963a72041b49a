/** Sets of platform ids as bit masks (PlatformsToBitmask and BitmaskToPlatforms of
    common/snapshot_proto.cc). */
module Platforms {
  import opened Bits
  import opened SnapshotState

  function Mask(platforms: seq<nat>): nat {
    if platforms == [] then 0 else Or(Mask(platforms[..|platforms| - 1]), ShiftLeft(1, platforms[|platforms| - 1]))
  }

  lemma {:induction false} MaskBit(platforms: seq<nat>, i: nat)
    ensures Bit(Mask(platforms), i) == 1 <==> i in platforms
  {
    if platforms == [] {
      BitOfZero(i);
    } else {
      var init, last := platforms[..|platforms| - 1], platforms[|platforms| - 1];
      MaskBit(init, i);
      BitOfOr(Mask(init), ShiftLeft(1, last), i);
      BitOfOne(last, i);
      assert platforms == init + [last];
    }
  }

  method PlatformsToBitmask(platforms: seq<nat>) returns (mask: nat)
    ensures mask == Mask(platforms)
  {
    mask := 0;
    for k := 0 to |platforms|
      invariant mask == Mask(platforms[..k])
    {
      assert platforms[..k + 1][..k] == platforms[..k];
      mask := Or(mask, ShiftLeft(1, platforms[k]));
    }
    assert platforms[..|platforms|] == platforms;
  }

  // The ids of the flags that are set, from `p` on.
  function Ids(flags: seq<bool>, p: nat := 0): seq<nat>
    requires p <= |flags|
    decreases |flags| - p
  {
    if p == |flags| then [] else (if flags[p] then [p] else []) + Ids(flags, p + 1)
  }

  // The platforms of a mask, as flags.
  function FlagsOf(mask: nat): (flags: seq<bool>)
    ensures |flags| == NUM_PLATFORMS
    ensures forall i {:trigger flags[i]} :: 0 <= i < |flags| ==> flags[i] == (Bit(mask, i) == 1)
  {
    seq(NUM_PLATFORMS, i requires 0 <= i < NUM_PLATFORMS => Bit(mask, i) == 1)
  }

  method BitmaskToPlatforms(mask: nat) returns (platforms: seq<nat>)
    ensures platforms == Ids(FlagsOf(mask))
  {
    ghost var flags := FlagsOf(mask);
    platforms := [];
    for p := 0 to NUM_PLATFORMS
      invariant Ids(flags) == platforms + Ids(flags, p)
    {
      ghost var rest := Ids(flags, p + 1);
      assert Ids(flags, p) == (if flags[p] then [p] else []) + rest;
      if Bit(mask, p) == 1 {
        assert platforms + ([p] + rest) == platforms + [p] + rest;
        platforms := platforms + [p];
      } else {
        assert [] + rest == rest;
      }
    }
  }

  // Strictly increasing ids, from `p` on.
  ghost predicate Increasing(platforms: seq<nat>, p: nat) {
    && (forall i :: 0 <= i < |platforms| ==> p <= platforms[i] < NUM_PLATFORMS)
    && (forall i, j :: 0 <= i < j < |platforms| ==> platforms[i] < platforms[j])
  }

  lemma {:induction false} IdsFacts(flags: seq<bool>, p: nat)
    requires p <= |flags| == NUM_PLATFORMS
    ensures Increasing(Ids(flags, p), p)
    ensures forall i: nat :: i in Ids(flags, p) <==> p <= i < |flags| && flags[i]
    decreases |flags| - p
  {
    if p < |flags| { IdsFacts(flags, p + 1); }
  }

  // Increasing ids with the same elements are equal.
  lemma {:induction false} IncreasingUnique(x: seq<nat>, y: seq<nat>, p: nat)
    requires Increasing(x, p) && Increasing(y, p) && forall i: nat :: i in x <==> i in y
    ensures x == y
    decreases |x|
  {
    assert (x == [] || x[0] in x) && (y == [] || y[0] in y);
    if x != [] {
      assert x[0] == y[0];
      var xs, ys := x[1..], y[1..];
      assert x == [x[0]] + xs && y == [y[0]] + ys;
      forall i: nat ensures i in xs <==> i in ys {
        assert i in x <==> i == x[0] || i in xs;
        assert i in y <==> i == y[0] || i in ys;
      }
      IncreasingUnique(xs, ys, x[0] + 1);
    }
  }

  // Increasing ids survive the way through the mask.
  lemma MaskRoundTrip(platforms: seq<nat>)
    requires Increasing(platforms, 0)
    ensures Ids(FlagsOf(Mask(platforms))) == platforms
  {
    var flags := FlagsOf(Mask(platforms));
    IdsFacts(flags, 0);
    forall i: nat ensures i in Ids(flags) <==> i in platforms {
      MaskBit(platforms, i);
    }
    IncreasingUnique(Ids(flags), platforms, 0);
  }

  // So do flags.
  lemma FlagsRoundTrip(flags: seq<bool>)
    requires |flags| == NUM_PLATFORMS
    ensures FlagsOf(Mask(Ids(flags))) == flags
  {
    IdsFacts(flags, 0);
    forall i: nat | i < NUM_PLATFORMS ensures FlagsOf(Mask(Ids(flags)))[i] == flags[i] {
      MaskBit(Ids(flags), i);
    }
  }

  // Adds an id to increasing ids, in order, unless it is there.
  function AddPlatform(platforms: seq<nat>, p: nat): seq<nat> {
    if platforms == [] || p < platforms[0] then [p] + platforms
    else if platforms[0] == p then platforms
    else [platforms[0]] + AddPlatform(platforms[1..], p)
  }

  function AddPlatforms(platforms: seq<nat>, more: seq<nat>): seq<nat> {
    if more == [] then platforms else AddPlatform(AddPlatforms(platforms, more[..|more| - 1]), more[|more| - 1])
  }

  lemma {:induction false} AddLast(platforms: seq<nat>, p: nat)
    requires forall i :: 0 <= i < |platforms| ==> platforms[i] < p
    ensures AddPlatform(platforms, p) == platforms + [p]
  {
    if platforms != [] {
      AddLast(platforms[1..], p);
    }
  }

  lemma {:induction false} AddIncreasing(platforms: seq<nat>)
    requires Increasing(platforms, 0)
    ensures AddPlatforms([], platforms) == platforms
  {
    if platforms != [] {
      var init, last := platforms[..|platforms| - 1], platforms[|platforms| - 1];
      AddIncreasing(init);
      AddLast(init, last);
      assert platforms == init + [last];
    }
  }
}
