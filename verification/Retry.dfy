/**
  Retry policies and the loops they drive: the rounds of a track transfer, and
  the rescans of a track loaded on demand.
 */
module Retries {
  import opened Words

  /** Times to retry: in all, or since the last change. */
  class RetryPolicy {
    var retryTimesInitial: int
    var sinceLastChange: bool
    var retryTimes: int
    var wasChange: bool

    /** From an option value, of which a negative one counts since the last change. */
    constructor (option: int)
      ensures sinceLastChange == (option < 0) && !wasChange
      ensures retryTimesInitial == (if option >= 0 then option else -option)
      ensures retryTimes == (if option >= 0 then option else -option - 1)
    {
      retryTimesInitial := if option >= 0 then option else -option;
      sinceLastChange := option < 0;
      retryTimes := if option < 0 then -option - 1 else option;
      wasChange := false;
    }

    /** An unused policy for n becomes one for -n - 1, and the other way round. */
    method InvertSinceLastChange(ghost option: int)
      requires retryTimesInitial == (if option >= 0 then option else -option)
      requires sinceLastChange == (option < 0)
      modifies this`sinceLastChange, this`retryTimesInitial, this`retryTimes
      ensures sinceLastChange == (-option - 1 < 0)
      ensures retryTimesInitial == (if -option - 1 >= 0 then -option - 1 else option + 1)
      ensures retryTimes == (if -option - 1 >= 0 then -option - 1 else option)
    {
      if sinceLastChange {
        sinceLastChange := false;
        retryTimesInitial := retryTimesInitial - 1;
        retryTimes := retryTimesInitial;
      } else {
        sinceLastChange := true;
        retryTimes := retryTimesInitial;
        retryTimesInitial := retryTimesInitial + 1;
      }
    }

    /** What a call of HasMoreRetry leaves as the number of retries: a change refills it. */
    function Refilled(): int
      reads this
    {
      if sinceLastChange && wasChange then retryTimesInitial else retryTimes
    }

    method HasMoreRetry() returns (more: bool)
      modifies this`wasChange, this`retryTimes
      ensures more == (old(Refilled()) > 0) && retryTimes == old(Refilled())
      ensures wasChange == (old(wasChange) && !sinceLastChange)
    {
      if sinceLastChange && wasChange {
        wasChange := false;
        retryTimes := retryTimesInitial;
      }
      more := retryTimes > 0;
    }

    method HasMoreRetryMinusMinus() returns (more: bool)
      modifies this`wasChange, this`retryTimes
      ensures more == (old(Refilled()) > 0) && retryTimes == old(Refilled()) - 1
      ensures wasChange == (old(wasChange) && !sinceLastChange)
    {
      more := HasMoreRetry();
      Decrease(1);
    }

    method Decrease(times: int)
      modifies this`retryTimes
      ensures retryTimes == old(retryTimes) - times
    {
      retryTimes := retryTimes - times;
    }
  }

  // ----- the rounds of a transfer

  /** Whether round k, counted from 1, changed the target; rounds beyond those listed did not. */
  predicate Changed(amounts: seq<nat>, k: nat) {
    0 < k <= |amounts| && amounts[k - 1] > 0
  }

  /** None of the n rounds up to and including round r changed anything. */
  ghost predicate Quiet(amounts: seq<nat>, n: nat, r: nat) {
    forall k: nat :: r < k + n && k <= r ==> !Changed(amounts, k)
  }

  /** The amounts of the first rounds. */
  function Total(amounts: seq<nat>, rounds: nat): nat {
    Sum(if rounds <= |amounts| then amounts[..rounds] else amounts)
  }

  lemma TotalGrows(amounts: seq<nat>, rounds: nat)
    ensures Total(amounts, rounds + 1) == Total(amounts, rounds) + if rounds < |amounts| then amounts[rounds] else 0
    ensures Total(amounts, 0) == 0
  {
    if rounds < |amounts| {
      assert amounts[..rounds + 1][..rounds] == amounts[..rounds];
    } else {
      assert rounds == |amounts| ==> amounts[..rounds] == amounts;
    }
  }

  /** The first round at the end of n quiet ones, the start counting as a change. */
  ghost predicate FirstQuiet(amounts: seq<nat>, n: nat, rounds: nat) {
    && n <= rounds && Quiet(amounts, n, rounds)
    && forall r: nat :: n <= r < rounds ==> !Quiet(amounts, n, r)
  }

  /** Which is exactly n rounds after the last one that changed anything, or n rounds in all if none did. */
  lemma QuietAfterLastChange(amounts: seq<nat>, n: nat, rounds: nat)
    requires n > 0 && FirstQuiet(amounts, n, rounds)
    ensures rounds == n || (rounds - n <= |amounts| && amounts[rounds - n - 1] > 0)
    ensures forall k: nat :: rounds - n <= k < rounds && k < |amounts| ==> amounts[k] == 0
  {
    forall k: nat | rounds - n <= k < rounds && k < |amounts|
      ensures amounts[k] == 0
    {
      assert !Changed(amounts, k + 1);
    }
    if rounds > n {
      assert !Quiet(amounts, n, rounds - 1);
    }
  }

  /**
    The round loop of a transfer.  Per round, amounts tells how much repairing
    the target changed it; the reads and the repair itself are not modelled.
   */
  method TransferRounds(repair: bool, constantSource: bool, option: int, amounts: seq<nat>)
    returns (rounds: nat, fixes: nat)
    ensures !repair || constantSource ==> rounds == 1
    ensures repair && !constantSource && option >= 0 ==> rounds == option + 1
    ensures repair && !constantSource && option < 0 ==> FirstQuiet(amounts, -option, rounds)
    ensures fixes == if repair then Total(amounts, rounds) else 0
  {
    hide Total;
    var retrying := repair && !constantSource;
    var trackRetries := new RetryPolicy(option);
    if !(retrying && trackRetries.retryTimes >= 0) {
      trackRetries := new RetryPolicy(0);
    }
    rounds, fixes := 0, 0;
    TotalGrows(amounts, 0);
    var more := true;
    ghost var n := trackRetries.retryTimesInitial;
    while more
      invariant fresh(trackRetries) && trackRetries.retryTimesInitial == n
      invariant trackRetries.sinceLastChange == (retrying && option < 0)
      invariant n == (if !retrying then 0 else if option >= 0 then option else -option)
      invariant !trackRetries.sinceLastChange ==> trackRetries.retryTimes == n - rounds
      invariant !trackRetries.sinceLastChange ==> if more then rounds <= n else rounds == n + 1
      invariant trackRetries.sinceLastChange ==> !trackRetries.wasChange
      invariant trackRetries.sinceLastChange && more ==>
                  && 0 <= trackRetries.retryTimes < n
                  && var last := rounds - (n - 1 - trackRetries.retryTimes);
                     0 <= last && (last == 0 || Changed(amounts, last)) && Quiet(amounts, rounds - last, rounds)
      invariant trackRetries.sinceLastChange ==> forall r: nat :: n <= r < rounds ==> !Quiet(amounts, n, r)
      invariant trackRetries.sinceLastChange && !more ==> n <= rounds && Quiet(amounts, n, rounds)
      invariant fixes == if repair then Total(amounts, rounds) else 0
      decreases more, if rounds < |amounts| then |amounts| - rounds else 0, trackRetries.retryTimes
    {
      ghost var last := rounds - (n - 1 - trackRetries.retryTimes);
      assert trackRetries.sinceLastChange && n <= rounds ==> Changed(amounts, last);
      rounds := rounds + 1;
      if repair {
        var amount := if rounds <= |amounts| then amounts[rounds - 1] else 0;
        TotalGrows(amounts, rounds - 1);
        if amount > 0 {
          trackRetries.wasChange := true;
        }
        fixes := fixes + amount;
      }
      more := trackRetries.HasMoreRetryMinusMinus();
    }
  }
}
