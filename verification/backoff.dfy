/** The polling loop add-by-geo.py runs after adding a range: sleep, double
    the delay up to a cap, and give up once the waited time reaches the
    maximum. Whether the server has finished is an oracle: `pending(k)` is
    the answer of the k-th poll (its `dbdata` is still `None`). */
module Backoff {
  import opened Text

  const MaxWaitTime: nat := 7200
  const DelayCap: nat := 514

  /** The number of sleeps after which the loop gives up. */
  const MaxSleeps: nat := 23

  function Pow2(k: nat): (p: nat)
    ensures p >= 1
  {
    if k == 0 then 1 else 2 * Pow2(k - 1)
  }

  /** The delay before the k-th sleep: powers of two from 1 to 512, then 514. */
  function Delay(k: nat): nat {
    if k < 10 then Pow2(k) else DelayCap
  }

  /** The time waited after k sleeps. */
  function Elapsed(k: nat): nat {
    if k == 0 then 0 else Elapsed(k - 1) + Delay(k - 1)
  }

  function Sum(s: seq<nat>): nat {
    if s == [] then 0 else s[0] + Sum(s[1..])
  }

  /** The loop, from the state it has after `polls` sleeps: poll only while
      less than the maximum has been waited, sleep while the poll says
      pending. The result lists the delays slept. */
  function Wait(pending: nat -> bool, polls: nat, elapsed: nat, delay: nat): seq<nat>
    requires delay >= 1
    decreases MaxWaitTime - elapsed
  {
    if elapsed < MaxWaitTime && pending(polls) then
      [delay] + Wait(pending, polls + 1, elapsed + delay, Min(DelayCap, delay * 2))
    else []
  }

  /** The whole loop: nothing waited yet, first delay one second. */
  function Sleeps(pending: nat -> bool): seq<nat> {
    Wait(pending, 0, 0, 1)
  }

  lemma {:induction false} Pow2Monotone(j: nat, k: nat)
    requires j <= k
    ensures Pow2(j) <= Pow2(k)
    decreases k
  {
    if j < k {
      Pow2Monotone(j, k - 1);
    }
  }

  /** The loop's update `min(514, delay << 1)` produces the schedule. */
  lemma DelayDoubles(k: nat)
    ensures Delay(k + 1) == Min(DelayCap, 2 * Delay(k))
    ensures Delay(k) >= 1
  {
    if k < 9 {
      Pow2Monotone(k, 8);
      assert Pow2(8) == 256;
    } else if k == 9 {
      assert Pow2(9) == 512;
    }
  }

  /** The waited time: 2^k - 1 while doubling, then 514 per sleep. */
  lemma {:induction false} ElapsedClosedForm(k: nat)
    ensures k <= 10 ==> Elapsed(k) == Pow2(k) - 1
    ensures k >= 10 ==> Elapsed(k) == 1023 + 514 * (k - 10)
  {
    if k > 0 {
      ElapsedClosedForm(k - 1);
      if k == 10 {
        assert Pow2(10) == 1024;
      }
    }
  }

  /** Less than the maximum has been waited exactly before the 23rd sleep. */
  lemma ElapsedBelowMax(k: nat)
    ensures Elapsed(k) < MaxWaitTime <==> k < MaxSleeps
  {
    ElapsedClosedForm(k);
    if k <= 10 {
      Pow2Monotone(k, 10);
      assert Pow2(10) == 1024;
    }
  }

  /** One more sleep: the waited time and the next delay are the ones the
      schedule gives for the next step. */
  lemma WaitUnfold(pending: nat -> bool, k: nat)
    requires k < MaxSleeps && pending(k)
    ensures Wait(pending, k, Elapsed(k), Delay(k))
         == [Delay(k)] + Wait(pending, k + 1, Elapsed(k + 1), Delay(k + 1))
  {
    DelayDoubles(k);
    ElapsedBelowMax(k);
    assert Delay(k) * 2 == 2 * Delay(k);
  }

  /** Polling stops, whatever the poll would say, once 23 sleeps are done. */
  lemma WaitStops(pending: nat -> bool, k: nat)
    requires k >= MaxSleeps
    ensures Wait(pending, k, Elapsed(k), Delay(k)) == []
  {
    DelayDoubles(k);
    ElapsedBelowMax(k);
  }

  /** From step `k`, at most the remaining sleeps happen, and stopping early
      means the poll said finished. */
  lemma {:induction false} WaitLength(pending: nat -> bool, k: nat)
    requires k <= MaxSleeps
    ensures k + |Wait(pending, k, Elapsed(k), Delay(k))| <= MaxSleeps
    ensures var n := k + |Wait(pending, k, Elapsed(k), Delay(k))|; n < MaxSleeps ==> !pending(n)
    decreases MaxSleeps - k
  {
    if k == MaxSleeps {
      WaitStops(pending, k);
    } else if pending(k) {
      WaitUnfold(pending, k);
      WaitLength(pending, k + 1);
    } else {
      DelayDoubles(k);
    }
  }

  /** The j-th of the sleeps `s` taken from step `k` on lasts Delay(k + j)
      and follows a pending poll. */
  ghost predicate FollowsSchedule(s: seq<nat>, pending: nat -> bool, k: nat) {
    forall j :: 0 <= j < |s| ==> s[j] == Delay(k + j) && pending(k + j)
  }

  /** From step `k`, the j-th sleep lasts Delay(k + j) and follows a
      pending poll. */
  lemma {:induction false} WaitEntries(pending: nat -> bool, k: nat)
    requires k <= MaxSleeps
    ensures FollowsSchedule(Wait(pending, k, Elapsed(k), Delay(k)), pending, k)
    decreases MaxSleeps - k
  {
    if k == MaxSleeps {
      WaitStops(pending, k);
    } else if pending(k) {
      WaitUnfold(pending, k);
      WaitEntries(pending, k + 1);
      ScheduleCons(Wait(pending, k + 1, Elapsed(k + 1), Delay(k + 1)), pending, k);
    } else {
      DelayDoubles(k);
    }
  }

  /** A pending poll and its delay, then sleeps that follow the schedule
      from the next step, follow it from this one. */
  lemma ScheduleCons(t: seq<nat>, pending: nat -> bool, k: nat)
    requires pending(k) && FollowsSchedule(t, pending, k + 1)
    ensures FollowsSchedule([Delay(k)] + t, pending, k)
  {
    var s := [Delay(k)] + t;
    forall j | 0 <= j < |s|
      ensures s[j] == Delay(k + j) && pending(k + j)
    {
      if j > 0 {
        assert s[j] == t[j - 1];
        assert k + 1 + (j - 1) == k + j;
      }
    }
  }

  /** Delays that follow the schedule from step `k` add up to the growth
      of the waited time. */
  lemma {:induction false} SumOfSchedule(s: seq<nat>, k: nat)
    requires forall j :: 0 <= j < |s| ==> s[j] == Delay(k + j)
    ensures Elapsed(k) + Sum(s) == Elapsed(k + |s|)
    decreases |s|
  {
    if s != [] {
      var t := s[1..];
      forall j | 0 <= j < |t|
        ensures t[j] == Delay(k + 1 + j)
      {
        assert t[j] == s[j + 1];
      }
      SumOfSchedule(t, k + 1);
      assert Elapsed(k + 1) == Elapsed(k) + s[0];
    }
  }

  /** The schedule: the j-th sleep lasts Delay(j) and follows a pending
      poll, at most 23 sleeps happen, and fewer means the poll after the
      last sleep said finished. */
  lemma BackoffSchedule(pending: nat -> bool)
    ensures |Sleeps(pending)| <= MaxSleeps
    ensures FollowsSchedule(Sleeps(pending), pending, 0)
    ensures |Sleeps(pending)| < MaxSleeps ==> !pending(|Sleeps(pending)|)
    ensures Sum(Sleeps(pending)) == Elapsed(|Sleeps(pending)|)
  {
    SleepsStart(pending);
    WaitLength(pending, 0);
    WaitEntries(pending, 0);
    SumOfSchedule(Sleeps(pending), 0);
  }

  /** The loop sleeps 23 times exactly when the first 23 polls all say
      pending, and then it has waited 7705 seconds. */
  lemma BackoffGivesUp(pending: nat -> bool)
    ensures var s := Sleeps(pending);
      && ((forall j :: 0 <= j < MaxSleeps ==> pending(j)) <==> |s| == MaxSleeps)
      && (|s| == MaxSleeps ==> Sum(s) == 7705)
  {
    BackoffSchedule(pending);
    var s := Sleeps(pending);
    if |s| < MaxSleeps {
      var n: nat := |s|;
      assert n < MaxSleeps && !pending(n);
    } else {
      forall j | 0 <= j < MaxSleeps
        ensures pending(j)
      {
        assert s[j] == Delay(0 + j) && pending(0 + j);
      }
    }
    ElapsedAtGiveUp();
  }

  lemma SleepsStart(pending: nat -> bool)
    ensures Sleeps(pending) == Wait(pending, 0, Elapsed(0), Delay(0))
  {
    assert Delay(0) == 1;
  }

  /** The time waited when the loop gives up. */
  lemma ElapsedAtGiveUp()
    ensures Elapsed(MaxSleeps) == 7705
  {
    ElapsedClosedForm(MaxSleeps);
  }

  /** The waited time grows strictly with every sleep. */
  lemma ElapsedIncreases(j: nat, k: nat)
    requires j < k
    ensures Elapsed(j) < Elapsed(k)
    decreases k
  {
    DelayDoubles(k - 1);
    if j < k - 1 {
      ElapsedIncreases(j, k - 1);
    }
  }
}
