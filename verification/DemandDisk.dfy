/**
  Tracks loaded on demand: the rescan and retry loop, which stores the best of
  its loads, and the cache of loaded tracks.
 */
module DemandDisks {
  import opened Retries

  const REMAIN_READ_REVS := 5

  /** A track as the loop sees it. */
  datatype Track = Track(sectors: nat, good: nat, stable: nat, allStable: bool, flux: bool)

  /**
    A load that replaces the one held: more sectors, or as many and more good ones, or as many and
    more stable ones.
   */
  predicate Better(a: Track, b: Track) {
    || a.sectors > b.sectors
    || (a.sectors == b.sectors &&
        (a.good > b.good || (a.good == b.good && a.stable > b.stable)))
  }

  /** What tracks are compared by. */
  function Counts(track: Track): (r: seq<nat>)
    ensures |r| == 3
  {
    [track.sectors, track.good, track.stable]
  }

  /** The order of sequences of one length by the first element in which they differ. */
  predicate Below(a: seq<nat>, b: seq<nat>)
    requires |a| == |b|
  {
    a != [] && (a[0] < b[0] || (a[0] == b[0] && Below(a[1..], b[1..])))
  }

  /** The first of m loads whose counts are the greatest in lexicographic order. */
  ghost predicate FirstBest(loads: nat -> Track, m: nat, best: nat) {
    && best < m
    && (forall k :: 0 <= k < m && k != best ==>
          Counts(loads(k)) == Counts(loads(best)) || Below(Counts(loads(k)), Counts(loads(best))))
    && (forall k :: 0 <= k < best ==> Below(Counts(loads(k)), Counts(loads(best))))
  }

  /** A load is better exactly when its counts are greater. */
  lemma BetterIsAbove(a: Track, b: Track)
    ensures Better(a, b) <==> Below(Counts(b), Counts(a))
  {
    BelowOfThree(Counts(b), Counts(a));
  }

  lemma BelowOfThree(a: seq<nat>, b: seq<nat>)
    requires |a| == |b| == 3
    ensures Below(a, b) <==> a[0] < b[0] || (a[0] == b[0] && (a[1] < b[1] || (a[1] == b[1] && a[2] < b[2])))
  {
    var a', b' := a[1..], b[1..];
    assert a'[1..] == [a[2]] && b'[1..] == [b[2]];
    assert [a[2]][1..] == [] && [b[2]][1..] == [];
    assert Below([a[2]], [b[2]]) <==> a[2] < b[2];
    assert Below(a', b') <==> a[1] < b[1] || (a[1] == b[1] && Below([a[2]], [b[2]]));
  }

  lemma BelowIsOrder(a: seq<nat>, b: seq<nat>, c: seq<nat>)
    requires |a| == |b| == |c| == 3
    ensures a == b || Below(a, b) || Below(b, a)
    ensures !(Below(a, b) && Below(b, a))
    ensures Below(a, b) && Below(b, c) ==> Below(a, c)
  {
    hide Below;
    BelowOfThree(a, b);
    BelowOfThree(b, a);
    BelowOfThree(b, c);
    BelowOfThree(a, c);
  }

  lemma BetterMakesRoom(a: Track, b: Track)
    requires Better(a, b)
    ensures a.sectors >= b.sectors && (a.sectors == b.sectors ==> a.good >= b.good)
    ensures a.sectors == b.sectors && a.good == b.good ==> a.stable > b.stable
  {
  }

  /** One more load, which takes over if and only if it is better. */
  lemma NextBest(loads: nat -> Track, m: nat, best: nat)
    requires FirstBest(loads, m, best)
    ensures FirstBest(loads, m + 1, if Better(loads(m), loads(best)) then m else best)
  {
    hide Better, Below, Counts;
    BetterIsAbove(loads(m), loads(best));
    BelowIsOrder(Counts(loads(m)), Counts(loads(best)), Counts(loads(best)));
    forall k | 0 <= k < m
      ensures Better(loads(m), loads(best)) ==> Below(Counts(loads(k)), Counts(loads(m)))
    {
      BelowIsOrder(Counts(loads(k)), Counts(loads(best)), Counts(loads(m)));
    }
  }

  /** Revolutions counted for a read while this is the best track. */
  function Revs(track: Track): nat {
    if track.flux then REMAIN_READ_REVS else 1
  }

  /** The best of the first m loads. */
  ghost function Best(loads: nat -> Track, m: nat): (r: nat)
    requires m > 0
    ensures r < m
  {
    if m == 1 then 0
    else
      var before := Best(loads, m - 1);
      if Better(loads(m - 1), loads(before)) then m - 1 else before
  }

  lemma {:induction false} BestIsFirstBest(loads: nat -> Track, m: nat)
    requires m > 0
    ensures FirstBest(loads, m, Best(loads, m))
  {
    if m > 1 {
      BestIsFirstBest(loads, m - 1);
      NextBest(loads, m - 1, Best(loads, m - 1));
    }
  }

  /** Revolutions counted for the loads from the k-th to before the m-th, the first load being free. */
  ghost function Spent(loads: nat -> Track, k: nat, m: nat): nat
    requires 0 < k <= m
    decreases m
  {
    if k == m then 0 else Spent(loads, k, m - 1) + Revs(loads(Best(loads, m)))
  }

  /** The revolutions that an option grants to start with. */
  function Granted(option: int): int {
    if option >= 0 then option else -option - 1
  }

  /** The retries a policy of the option has left after m loads; retries are never told of a change. */
  ghost function RetriesLeft(loads: nat -> Track, option: int, m: nat): int
    requires m > 0
  {
    Granted(option) - Spent(loads, 1, m)
  }

  /** The rescans left: counted from the last improvement for a negative option; a first load with sectors is one. */
  ghost function RescansLeft(loads: nat -> Track, option: int, m: nat): int
    requires m > 0
  {
    var best := Best(loads, m);
    if option >= 0 then option - Spent(loads, 1, m)
    else if best > 0 then -option - Spent(loads, best + 1, m)
    else (if loads(0).sectors > 0 then -option else -option - 1) - Spent(loads, 1, m)
  }

  /** Whether m loads call for another. */
  ghost predicate WantsMore(loads: nat -> Track, rescans: int, retries: int, m: nat)
    requires m > 0
  {
    RescansLeft(loads, rescans, m) > 0 || (RetriesLeft(loads, retries, m) > 0 && !loads(Best(loads, m)).allStable)
  }

  /** What the next load does to the best one and to the counts. */
  lemma AnotherLoad(loads: nat -> Track, rescans: int, retries: int, m: nat)
    requires m > 0
    ensures
      var better := Better(loads(m), loads(Best(loads, m)));
      && Best(loads, m + 1) == (if better then m else Best(loads, m))
      && RetriesLeft(loads, retries, m + 1) == RetriesLeft(loads, retries, m) - Revs(loads(Best(loads, m + 1)))
      && RescansLeft(loads, rescans, m + 1)
      == if better && rescans < 0 then -rescans else RescansLeft(loads, rescans, m) - Revs(loads(Best(loads, m + 1)))
  {
  }

  /** The best load stays the best until a better one comes. */
  lemma {:induction false} BestStays(loads: nat -> Track, k: nat, m: nat)
    requires 0 < k <= m && Best(loads, m) < k
    ensures Best(loads, k) == Best(loads, m)
    decreases m
  {
    if k < m {
      BestStays(loads, k, m - 1);
    }
  }

  /** So after it every load counts the revolutions of the best one. */
  lemma {:induction false} SpentSinceBest(loads: nat -> Track, k: nat, m: nat)
    requires 0 < k <= m && Best(loads, m) < k
    ensures Spent(loads, k, m) == (m - k) * if loads(Best(loads, m)).flux then 5 else 1
    decreases m
  {
    if k < m {
      BestStays(loads, m - 1, m);
      SpentSinceBest(loads, k, m - 1);
    }
  }

  /** Every load counts once at least and five times at most. */
  lemma {:induction false} SpentBounds(loads: nat -> Track, k: nat, m: nat)
    requires 0 < k <= m
    ensures m - k <= Spent(loads, k, m) <= REMAIN_READ_REVS * (m - k)
    decreases m
  {
    if k < m {
      SpentBounds(loads, k, m - 1);
    }
  }

  /** The loads that were called for, the last of them calling for no more. */
  ghost predicate Completed(loads: nat -> Track, rescans: int, retries: int, m: nat) {
    && m > 0 && !WantsMore(loads, rescans, retries, m)
    && forall k :: 0 < k < m ==> WantsMore(loads, rescans, retries, k)
  }

  /**
    A plain count of rescans, with any option for retries.  The loads use up the
    rescans, and the granted retries too unless the best track is stable
    throughout; the last load was still called for by one of them.
   */
  lemma RescansInAll(loads: nat -> Track, rescans: nat, retries: int, m: nat)
    requires Completed(loads, rescans, retries, m)
    ensures rescans <= Spent(loads, 1, m) <= REMAIN_READ_REVS * (m - 1)
    ensures loads(Best(loads, m)).allStable || Granted(retries) <= Spent(loads, 1, m)
    ensures m > 1 ==>
              || Spent(loads, 1, m - 1) < rescans
              || (Spent(loads, 1, m - 1) < Granted(retries) && !loads(Best(loads, m - 1)).allStable)
    ensures m <= 1 + if rescans > Granted(retries) then rescans else Granted(retries)
  {
    SpentBounds(loads, 1, m);
    if m > 1 {
      SpentBounds(loads, 1, m - 1);
      assert WantsMore(loads, rescans, retries, m - 1);
    }
  }

  /**
    A count of rescans since the last improvement, with any option for retries.
    Each of the loads after the best one counts the best one's revolutions.
    They use up the granted number, one fewer if no load ever had a sector; and
    the last of them was called for either by that number or by the retries.
   */
  lemma RescansSinceBest(loads: nat -> Track, rescans: int, retries: int, m: nat)
    requires rescans < 0 && Completed(loads, rescans, retries, m)
    ensures
      var best := Best(loads, m);
      var after, r := m - 1 - best, if loads(best).flux then 5 else 1;
      var granted := if best > 0 || loads(0).sectors > 0 then -rescans else -rescans - 1;
      && granted <= after * r
      && (loads(best).allStable || Granted(retries) <= Spent(loads, 1, m))
      && (after > 0 ==>
            || (after - 1) * r < granted
            || (Spent(loads, 1, m - 1) < Granted(retries) && !loads(best).allStable))
  {
    hide Best, Spent, Better;
    var best := Best(loads, m);
    SpentSinceBest(loads, best + 1, m);
    if m - 1 > best {
      assert WantsMore(loads, rescans, retries, m - 1);
      BestStays(loads, m - 1, m);
      SpentSinceBest(loads, best + 1, m - 1);
    }
  }

  /** Without retries the rescans alone decide how many loads follow the best one. */
  lemma RescansAlone(loads: nat -> Track, rescans: int, m: nat)
    requires rescans < 0 && Completed(loads, rescans, 0, m)
    ensures
      var best := Best(loads, m);
      var after, r := m - 1 - best, if loads(best).flux then 5 else 1;
      var granted := if best > 0 || loads(0).sectors > 0 then -rescans else -rescans - 1;
      (after - 1) * r < granted <= after * r
  {
    RescansSinceBest(loads, rescans, 0, m);
  }

  lemma Continues(loads: nat -> Track, rescans: int, retries: int, m: nat)
    requires m > 0
    ensures WantsMore(loads, rescans, retries, m)
         == (RescansLeft(loads, rescans, m) > 0
             || (RetriesLeft(loads, retries, m) > 0 && !loads(Best(loads, m)).allStable))
  {
  }

  lemma FirstLoad(loads: nat -> Track, rescans: int, retries: int)
    ensures Best(loads, 1) == 0
    ensures RetriesLeft(loads, retries, 1) == Granted(retries)
    ensures RescansLeft(loads, rescans, 1)
         == if rescans >= 0 then rescans else if loads(0).sectors > 0 then -rescans else -rescans - 1
  {
  }

  class DemandDisk {
    const supportsRetries: bool
    const supportsRescans: bool

    var tracks: map<nat, Track>
    var loaded: set<nat>

    ghost predicate Valid()
      reads this
    {
      loaded <= tracks.Keys
    }

    constructor (supportsRetries: bool, supportsRescans: bool)
      ensures Valid() && loaded == {} && this.supportsRetries == supportsRetries
              && this.supportsRescans == supportsRescans
    {
      this.supportsRetries, this.supportsRescans := supportsRetries, supportsRescans;
      tracks, loaded := map[], {};
    }

    /**
      Read a track: from the cache, or by loading it until neither rescans nor
      retries are left.  The k-th load, from 0, yields loads(k); m counts them.
     */
    method ReadNC(cylhead: nat, uncached: bool, optRescans: int, optRetries: int, loads: nat -> Track, ghost bound: nat)
      returns (track: Track, m: nat)
      requires Valid()
      requires forall k :: loads(k).sectors <= bound && loads(k).good <= bound && loads(k).stable <= bound
      modifies this`tracks, this`loaded
      ensures Valid() && cylhead in tracks && track == tracks[cylhead]
      ensures !uncached && cylhead in old(loaded) ==> m == 0 && tracks == old(tracks) && loaded == old(loaded)
      ensures uncached || cylhead !in old(loaded) ==>
                && m > 0 && track == loads(Best(loads, m)) && FirstBest(loads, m, Best(loads, m))
                && tracks == old(tracks)[cylhead := track] && loaded == old(loaded) + {cylhead}
                && var rescans, retries := if supportsRescans then 0 else optRescans,
                    if supportsRetries then 0 else optRetries;
                   Completed(loads, rescans, retries, m)
    {
      m := 0;
      if uncached || cylhead !in loaded {
        track, m := LoadBest(optRescans, optRetries, loads, bound);
        BestIsFirstBest(loads, m);
        tracks, loaded := tracks[cylhead := track], loaded + {cylhead};
      }
      track := tracks[cylhead];
    }

    /** The loop's condition, which may refill the rescans. */
    method CallsForAnother(rescans: RetryPolicy, retries: RetryPolicy, allStable: bool) returns (more: bool)
      requires rescans != retries && !retries.wasChange
      modifies rescans`wasChange, rescans`retryTimes, retries`wasChange, retries`retryTimes
      ensures more == (old(rescans.Refilled()) > 0 || (retries.retryTimes > 0 && !allStable))
      ensures rescans.retryTimes == rescans.Refilled() == old(rescans.Refilled())
      ensures rescans.wasChange == (old(rescans.wasChange) && !rescans.sinceLastChange)
      ensures retries.retryTimes == old(retries.retryTimes) && !retries.wasChange
    {
      more := rescans.HasMoreRetry();
      if !more {
        more := retries.HasMoreRetry();
        more := more && !allStable;
      }
    }

    /** The loop's body: load number m, which takes over if it is better. */
    method LoadAgain(rescans: RetryPolicy, retries: RetryPolicy, track0: Track, m: nat, loads: nat -> Track,
                     ghost rescansOption: int, ghost retriesOption: int)
      returns (track: Track)
      requires rescans != retries && m > 0 && track0 == loads(Best(loads, m))
      requires rescans.sinceLastChange == (rescansOption < 0) && (rescansOption < 0 ==> !rescans.wasChange)
      requires rescansOption < 0 ==> rescans.retryTimesInitial == -rescansOption
      requires rescans.retryTimes == RescansLeft(loads, rescansOption, m)
      requires retries.retryTimes == RetriesLeft(loads, retriesOption, m)
      modifies rescans`wasChange, rescans`retryTimes, retries`retryTimes
      ensures track == loads(Best(loads, m + 1))
      ensures rescans.Refilled() == RescansLeft(loads, rescansOption, m + 1)
      ensures retries.retryTimes == RetriesLeft(loads, retriesOption, m + 1)
      ensures Better(track, track0) || (track == track0 && rescans.wasChange == old(rescans.wasChange))
      ensures rescans.retryTimes < old(rescans.retryTimes) && retries.retryTimes < old(retries.retryTimes)
    {
      hide Best, RescansLeft, RetriesLeft, Spent;
      AnotherLoad(loads, rescansOption, retriesOption, m);
      track := track0;
      var rescan := loads(m);
      if Better(rescan, track) {
        track := rescan;
        rescans.wasChange := true;
      }
      var revs := Revs(track);
      rescans.Decrease(revs);
      retries.Decrease(revs);
    }

    method LoadBest(optRescans: int, optRetries: int, loads: nat -> Track, ghost bound: nat)
      returns (track: Track, m: nat)
      requires forall k :: loads(k).sectors <= bound && loads(k).good <= bound && loads(k).stable <= bound
      ensures m > 0 && track == loads(Best(loads, m))
      ensures
        var rescans, retries := if supportsRescans then 0 else optRescans, if supportsRetries then 0 else optRetries;
        Completed(loads, rescans, retries, m)
    {
      hide Best, RescansLeft, RetriesLeft, Completed;
      track := loads(0);
      var rescansOption, retriesOption := if supportsRescans then 0 else optRescans,
          if supportsRetries then 0 else optRetries;
      var retries := new RetryPolicy(retriesOption);
      var rescans := new RetryPolicy(rescansOption);
      rescans.wasChange := track.sectors > 0;
      FirstLoad(loads, rescansOption, retriesOption);
      track, m := LoadMore(rescans, retries, track, loads, bound, rescansOption, retriesOption);
    }

    /** The loop after the first load. */
    method LoadMore(rescans: RetryPolicy, retries: RetryPolicy, first: Track, loads: nat -> Track, ghost bound: nat,
                    ghost rescansOption: int, ghost retriesOption: int)
      returns (track: Track, m: nat)
      requires forall k :: loads(k).sectors <= bound && loads(k).good <= bound && loads(k).stable <= bound
      requires rescans != retries && first == loads(Best(loads, 1))
      requires rescans.sinceLastChange == (rescansOption < 0) && !retries.wasChange
      requires rescans.retryTimesInitial == if rescansOption >= 0 then rescansOption else -rescansOption
      requires rescans.Refilled() == RescansLeft(loads, rescansOption, 1)
      requires retries.retryTimes == RetriesLeft(loads, retriesOption, 1)
      modifies rescans`wasChange, rescans`retryTimes, retries`wasChange, retries`retryTimes
      ensures m > 0 && track == loads(Best(loads, m)) && Completed(loads, rescansOption, retriesOption, m)
    {
      hide Best, RescansLeft, RetriesLeft, WantsMore, Better;
      track, m := first, 1;
      var more := true;
      while more
        invariant m > 0 && track == loads(Best(loads, m)) && !retries.wasChange
        invariant rescans.Refilled() == RescansLeft(loads, rescansOption, m)
        invariant retries.retryTimes == RetriesLeft(loads, retriesOption, m)
        invariant forall k :: 0 < k < m ==> WantsMore(loads, rescansOption, retriesOption, k)
        invariant !more ==> !WantsMore(loads, rescansOption, retriesOption, m)
        decreases more, bound - track.sectors, bound - track.good, bound - track.stable,
                  rescans.sinceLastChange && rescans.wasChange, Fuel(rescans.retryTimes) + Fuel(retries.retryTimes)
      {
        Continues(loads, rescansOption, retriesOption, m);
        more := CallsForAnother(rescans, retries, track.allStable);
        if more {
          ghost var was := track;
          track := LoadAgain(rescans, retries, track, m, loads, rescansOption, retriesOption);
          if Better(track, was) {
            BetterMakesRoom(track, was);
          }
          m := m + 1;
        }
      }
    }

    ghost function Fuel(retryTimes: int): nat {
      if retryTimes > 0 then retryTimes else 0
    }
  }
}
