/** The wait between repeated actions (BreakpointActionServer.cs), in ticks. */
module Backoff {
  import opened Integers

  datatype Settings = Settings(waitTime: nat, minWait: nat, maxWait: nat)

  /** The wait after one more action. */
  function Next(s: Settings, current: nat, succeeded: bool): nat {
    if succeeded then s.waitTime
    else
      var doubled := if current < s.maxWait then Min(current * 2, s.maxWait) else current;
      if doubled == 0 then s.minWait else doubled
  }

  /** The wait after a run of actions, true standing for success. */
  function Wait(s: Settings, outcomes: seq<bool>): nat {
    if outcomes == [] then s.waitTime
    else Next(s, Wait(s, outcomes[..|outcomes| - 1]), outcomes[|outcomes| - 1])
  }

  /** The loop over the outcomes of its actions, until it is cancelled; the sleeps it takes. */
  method StartActionLoop(s: Settings, outcomes: seq<bool>) returns (sleeps: seq<nat>)
    ensures |sleeps| == |outcomes|
    ensures forall i :: 0 <= i < |outcomes| ==> sleeps[i] == Wait(s, outcomes[..i + 1])
  {
    var currentWaitTime := s.waitTime;
    sleeps := [];
    for i := 0 to |outcomes|
      invariant |sleeps| == i && currentWaitTime == Wait(s, outcomes[..i])
      invariant forall j :: 0 <= j < i ==> sleeps[j] == Wait(s, outcomes[..j + 1])
    {
      assert outcomes[..i + 1][..i] == outcomes[..i];
      if outcomes[i] {
        currentWaitTime := s.waitTime;
      } else {
        if currentWaitTime < s.maxWait {
          currentWaitTime := Min(currentWaitTime * 2, s.maxWait);
        }
        currentWaitTime := if currentWaitTime == 0 then s.minWait else currentWaitTime;
      }
      sleeps := sleeps + [currentWaitTime];
    }
  }

  // ---------------------------------------------------------------- closed form

  /** The number of failures since the last success. */
  function Failures(outcomes: seq<bool>): (k: nat)
    ensures k <= |outcomes|
  {
    if outcomes == [] || outcomes[|outcomes| - 1] then 0 else 1 + Failures(outcomes[..|outcomes| - 1])
  }

  function Pow2(k: nat): (p: nat)
    ensures p > 0
  {
    if k == 0 then 1 else 2 * Pow2(k - 1)
  }

  /** A wait b doubled k times, no further than max; one that is past max already stays. */
  function Capped(b: nat, k: nat, max: nat): nat {
    if b >= max then b else Min(b * Pow2(k), max)
  }

  /** The wait after k failures in a row; from a zero base the first of them only sets the minimum. */
  function ClosedForm(s: Settings, k: nat): nat {
    if k == 0 then s.waitTime
    else if s.waitTime > 0 then Capped(s.waitTime, k, s.maxWait)
    else Capped(s.minWait, k - 1, s.maxWait)
  }

  lemma CappedNext(b: nat, k: nat, max: nat)
    ensures var c := Capped(b, k, max);
            Capped(b, k + 1, max) == if c < max then Min(c * 2, max) else c
    ensures b > 0 ==> Capped(b, k, max) > 0
    ensures b == 0 ==> Capped(b, k, max) == 0
  {
    var p := Pow2(k);
    assert b * (2 * p) == (b * p) * 2;
    if b > 0 {
      assert b * p >= b;
    }
  }

  /** After any run the wait depends only on the failures since the last success. */
  lemma {:induction false} WaitIsClosedForm(s: Settings, outcomes: seq<bool>)
    ensures Wait(s, outcomes) == ClosedForm(s, Failures(outcomes))
  {
    if outcomes != [] {
      var before := outcomes[..|outcomes| - 1];
      WaitIsClosedForm(s, before);
      var k := Failures(before);
      if k > 0 {
        CappedNext(s.waitTime, k, s.maxWait);
        CappedNext(s.minWait, k - 1, s.maxWait);
      } else {
        assert Pow2(1) == 2 && Pow2(0) == 1;
      }
    }
  }

  /** No run makes the wait exceed the maximum, exactly when neither setting it starts from does. */
  lemma NeverAboveMaxExactly(s: Settings)
    ensures (forall outcomes :: Wait(s, outcomes) <= s.maxWait) <==>
            s.waitTime <= s.maxWait && (s.waitTime == 0 ==> s.minWait <= s.maxWait)
  {
    if s.waitTime <= s.maxWait && (s.waitTime == 0 ==> s.minWait <= s.maxWait) {
      forall outcomes ensures Wait(s, outcomes) <= s.maxWait {
        WaitIsClosedForm(s, outcomes);
      }
    } else {
      assert [false][..0] == [];
      assert Wait(s, []) == s.waitTime;
      assert s.waitTime == 0 ==> Wait(s, [false]) == s.minWait;
      assert Wait(s, []) > s.maxWait || Wait(s, [false]) > s.maxWait;
    }
  }
}
