/**
 * The rate-limit retry loop of the Groq provider.  Seconds are real numbers; the service
 * is a parameter that answers each attempt; sleeping a negative time raises, as
 * `time.sleep` does.
 */
module GroqRetry {
  import opened Wrappers

  datatype Response =
    | Completion(text: string)
    | RateLimited(hint: Option<real>)
    | OtherFailure(message: string)

  datatype Error = ProviderFailed(message: string) | RateLimitNotCleared | NegativeSleep

  type Service = nat -> Response

  const MAX_SINGLE_SLEEP := 5.0

  /** The wait asked for, or a second when none is given or it is zero, and a margin. */
  function Delay(hint: Option<real>): real
  {
    var asked := if hint.Some? && hint.value != 0.0 then hint.value else 1.0;
    if asked + 0.25 < MAX_SINGLE_SLEEP then asked + 0.25 else MAX_SINGLE_SLEEP
  }

  function Clamped(maxWait: real): real
  {
    if maxWait < 0.0 then 0.0 else maxWait
  }

  /** The wait after attempt `k`, if it is rate limited. */
  function DelayAt(respond: Service, k: nat): real
  {
    match respond(k)
    case RateLimited(hint) => Delay(hint)
    case _ => 0.0
  }

  /** The sum of the waits after the first `k` attempts. */
  function Waited(respond: Service, k: nat): real
  {
    if k == 0 then 0.0 else Waited(respond, k - 1) + DelayAt(respond, k - 1)
  }

  /** What attempt `k` makes of the call, unless it sleeps and tries again. */
  function Verdict(respond: Service, maxWait: real, k: nat): Option<Result<string, Error>>
  {
    match respond(k)
    case Completion(text) => Some(Ok(text))
    case OtherFailure(message) => Some(Err(ProviderFailed(message)))
    case RateLimited(hint) =>
      if Waited(respond, k) + Delay(hint) > Clamped(maxWait) then Some(Err(RateLimitNotCleared))
      else if Delay(hint) < 0.0 then Some(Err(NegativeSleep))
      else None
  }

  /** Attempt `k` is slept on. */
  predicate SleptOn(respond: Service, maxWait: real, k: nat)
  {
    Verdict(respond, maxWait, k).None?
  }

  /** Some attempt is the last. */
  ghost predicate Ends(respond: Service, maxWait: real)
  {
    exists k: nat :: !SleptOn(respond, maxWait, k)
  }

  /** The first attempt with a verdict decides; the attempts before it were slept on, within the budget. */
  method Generate(respond: Service, maxWait: real) returns (r: Result<string, Error>, sleeps: seq<real>)
    requires Ends(respond, maxWait)
    ensures forall i | 0 <= i < |sleeps| :: SleptOn(respond, maxWait, i)
    ensures forall i | 0 <= i < |sleeps| :: sleeps[i] == DelayAt(respond, i)
    ensures Verdict(respond, maxWait, |sleeps|) == Some(r)
    ensures match respond(|sleeps|)
      case Completion(text) => r == Ok(text)
      case OtherFailure(message) => r == Err(ProviderFailed(message))
      case RateLimited(hint) =>
        var tooLong := Waited(respond, |sleeps|) + Delay(hint) > Clamped(maxWait);
        r == Err(if tooLong then RateLimitNotCleared else NegativeSleep) && (tooLong || Delay(hint) < 0.0)
  {
    ghost var last: nat :| !SleptOn(respond, maxWait, last);
    var budget, waited := Clamped(maxWait), 0.0;
    sleeps := [];
    while true
      invariant |sleeps| <= last
      invariant forall i | 0 <= i < |sleeps| :: SleptOn(respond, maxWait, i)
      invariant forall i | 0 <= i < |sleeps| :: sleeps[i] == DelayAt(respond, i)
      invariant waited == Waited(respond, |sleeps|)
      decreases last - |sleeps|
    {
      var response := respond(|sleeps|);
      match response {
        case Completion(text) =>
          return Ok(text), sleeps;
        case OtherFailure(message) =>
          return Err(ProviderFailed(message)), sleeps;
        case RateLimited(hint) =>
          var delay := Delay(hint);
          if waited + delay > budget {
            return Err(RateLimitNotCleared), sleeps;
          }
          if delay < 0.0 {
            return Err(NegativeSleep), sleeps;
          }
          assert SleptOn(respond, maxWait, |sleeps|);
          WaitedNext(respond, |sleeps|);
          sleeps := sleeps + [delay];
          waited := waited + delay;
      }
    }
  }

  lemma WaitedNext(respond: Service, k: nat)
    ensures Waited(respond, k + 1) == Waited(respond, k) + DelayAt(respond, k)
  {
  }

  /** The wait the service asks for is kept, with a quarter second more, up to five seconds in all. */
  lemma DelayKeepsHint(asked: real)
    requires asked != 0.0
    ensures asked <= 4.75 ==> Delay(Some(asked)) - asked == 0.25
    ensures asked >= 4.75 ==> Delay(Some(asked)) == 5.0
    ensures Delay(None) == Delay(Some(0.0)) == 1.25
  {
  }

  // ----- When the loop ends -----

  /** Attempt `k` is rate limited, its wait is not negative and keeps the sum within the budget. */
  predicate Affordable(respond: Service, maxWait: real, k: nat)
  {
    && respond(k).RateLimited?
    && DelayAt(respond, k) >= 0.0
    && Waited(respond, k + 1) <= Clamped(maxWait)
  }

  lemma SleptOnExactly(respond: Service, maxWait: real, k: nat)
    ensures SleptOn(respond, maxWait, k) <==> Affordable(respond, maxWait, k)
  {
    WaitedNext(respond, k);
  }

  /** The partial sums of the waits decide. */
  lemma EndsExactly(respond: Service, maxWait: real)
    ensures Ends(respond, maxWait) <==> exists k: nat :: !Affordable(respond, maxWait, k)
  {
    hide SleptOn, Affordable;
    forall k: nat ensures SleptOn(respond, maxWait, k) <==> Affordable(respond, maxWait, k) {
      SleptOnExactly(respond, maxWait, k);
    }
  }

  /** Every hint there is is at least `least`. */
  ghost predicate HintsAtLeast(respond: Service, least: real)
  {
    forall k: nat :: respond(k).RateLimited? && respond(k).hint.Some? ==> respond(k).hint.value >= least
  }

  /** The first `n` attempts were slept on. */
  ghost predicate AllSleptOn(respond: Service, maxWait: real, n: nat)
  {
    forall k: nat | k < n :: SleptOn(respond, maxWait, k)
  }

  lemma CostOf(respond: Service, maxWait: real, least: real, k: nat)
    requires HintsAtLeast(respond, least) && least <= 1.0 && SleptOn(respond, maxWait, k)
    ensures least + 0.25 <= DelayAt(respond, k) <= 5.0
    ensures Waited(respond, k + 1) <= Clamped(maxWait)
  {
    WaitedNext(respond, k);
  }

  /** The waits add up, each costing at least the least hint and the margin. */
  lemma {:induction false} WaitsAddUp(respond: Service, maxWait: real, least: real, n: nat)
    requires HintsAtLeast(respond, least) && least <= 1.0 && AllSleptOn(respond, maxWait, n)
    ensures n as real * (least + 0.25) <= Waited(respond, n) <= Clamped(maxWait)
  {
    hide SleptOn, HintsAtLeast;
    if n > 0 {
      WaitsAddUp(respond, maxWait, least, n - 1);
      CostOf(respond, maxWait, least, n - 1);
      WaitedNext(respond, n - 1);
      OneMore(n - 1, least + 0.25);
    }
  }

  lemma OneMore(n: nat, cost: real)
    ensures (n + 1) as real * cost == n as real * cost + cost
  {
  }

  lemma EnoughSleeps(cost: real, budget: real) returns (n: nat)
    requires cost > 0.0 && budget >= 0.0
    ensures n as real * cost > budget
  {
    var q := budget / cost;
    n := q.Floor + 1;
    Scaled(n as real, q, cost);
  }

  lemma Scaled(x: real, y: real, cost: real)
    requires x > y && cost > 0.0
    ensures x * cost > y * cost
  {
  }

  /** With hints bounded away from minus a quarter second, the loop ends. */
  lemma BoundedHintsEnd(respond: Service, maxWait: real, least: real)
    requires HintsAtLeast(respond, least) && least > -0.25
    ensures Ends(respond, maxWait)
  {
    hide SleptOn, Waited;
    var bound := if least < 1.0 then least else 1.0;
    if !Ends(respond, maxWait) {
      var n := EnoughSleeps(bound + 0.25, Clamped(maxWait));
      WaitsAddUp(respond, maxWait, bound, n);
      assert false;
    }
  }

  /**
   * With hints that are not negative the loop ends, each sleep is between the margin and five seconds,
   * their sum is within the budget, and so is their number.
   */
  lemma NonNegativeHints(respond: Service, maxWait: real, n: nat)
    requires HintsAtLeast(respond, 0.0) && AllSleptOn(respond, maxWait, n)
    ensures Ends(respond, maxWait)
    ensures forall k: nat | k < n :: 0.25 <= DelayAt(respond, k) <= 5.0
    ensures Waited(respond, n) <= Clamped(maxWait)
    ensures n <= (4.0 * Clamped(maxWait)).Floor
  {
    hide SleptOn, HintsAtLeast, Waited, DelayAt;
    BoundedHintsEnd(respond, maxWait, 0.0);
    WaitsAddUp(respond, maxWait, 0.0, n);
    assert n as real * (0.0 + 0.25) <= Clamped(maxWait);
    forall k: nat | k < n ensures 0.25 <= DelayAt(respond, k) <= 5.0 {
      CostOf(respond, maxWait, 0.0, k);
    }
  }

  // ----- Hints above minus a quarter second are not enough -----

  function Halves(k: nat): real
  {
    if k == 0 then 0.125 else Halves(k - 1) / 2.0
  }

  /** Hints that come ever closer to minus a quarter second. */
  function Vanishing(k: nat): Response
  {
    RateLimited(Some(Halves(k) - 0.25))
  }

  lemma {:induction false} HalvesSmall(k: nat)
    ensures 0.0 < Halves(k) <= 0.125
    ensures Waited(Vanishing, k) == 0.25 - 2.0 * Halves(k)
  {
    if k > 0 {
      HalvesSmall(k - 1);
    }
  }

  /** Every hint is above minus a quarter second, and yet no wait of a quarter second or more is used up. */
  lemma VanishingNeverEnds(maxWait: real)
    requires maxWait >= 0.25
    ensures forall k: nat :: Vanishing(k).hint.value > -0.25
    ensures !Ends(Vanishing, maxWait)
  {
    forall k: nat ensures SleptOn(Vanishing, maxWait, k) && Vanishing(k).hint.value > -0.25 {
      HalvesSmall(k);
    }
  }

  // ----- One constant hint -----

  /** A service that repeats one hint is waited on forever exactly when it asks for minus a quarter second. */
  lemma ConstantHintEndsExactly(respond: Service, hint: Option<real>, maxWait: real)
    requires forall k: nat :: respond(k) == RateLimited(hint)
    ensures Ends(respond, maxWait) <==> hint != Some(-0.25)
  {
    if hint == Some(-0.25) {
      forall k: nat ensures SleptOn(respond, maxWait, k) {
        NoWaitAddsNothing(respond, k);
      }
    } else if Delay(hint) < 0.0 {
      assert !SleptOn(respond, maxWait, 0);
    } else {
      BoundedHintsEnd(respond, maxWait, if hint.Some? then hint.value else 1.0);
    }
  }

  lemma {:induction false} NoWaitAddsNothing(respond: Service, n: nat)
    requires forall k: nat :: respond(k) == RateLimited(Some(-0.25))
    ensures Waited(respond, n) == 0.0
  {
    if n > 0 {
      NoWaitAddsNothing(respond, n - 1);
    }
  }
}
