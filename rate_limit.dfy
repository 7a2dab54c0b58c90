/**
 The contact form's client-side rate limiter (ContactForm.checkRateLimit and
 ContactForm.updateRateLimit) and the order in which handleSubmit applies it,
 as functions on the limiter's two fields. The window is not anchored at a
 fixed start: it is measured from the most recent successful submission, the
 only moment lastSubmissionTime is written.
 */
module RateLimit {

  const RateLimitWindow: int := 60000
  const MaxSubmissions: int := 3

  /** The fields lastSubmissionTime and submissionCount. */
  datatype Limiter = Limiter(lastSubmissionTime: int, submissionCount: int)

  /** Both fields start at 0. */
  const Initial: Limiter := Limiter(0, 0)

  /** The shown result of one submission attempt. */
  datatype Outcome = RateLimited | ValidationFailed | DeliveryFailed | Delivered

  predicate Expired(s: Limiter, now: int) {
    now - s.lastSubmissionTime > RateLimitWindow
  }

  /** checkRateLimit at time now: the state it leaves behind and whether it lets the attempt through. */
  function Check(s: Limiter, now: int): (Limiter, bool) {
    var count := if Expired(s, now) then 0 else s.submissionCount;
    (Limiter(s.lastSubmissionTime, count), count < MaxSubmissions)
  }

  /** updateRateLimit at time now. */
  function Update(s: Limiter, now: int): Limiter {
    Limiter(now, if Expired(s, now) then 1 else s.submissionCount + 1)
  }

  /**
   handleSubmit's effect on the limiter: check at checkNow; then validation
   (valid), the send (delivered), and, only after a successful send, the
   update at updateNow.
   */
  function Submit(s: Limiter, checkNow: int, valid: bool, delivered: bool, updateNow: int): (Limiter, Outcome) {
    var (checked, allowed) := Check(s, checkNow);
    if !allowed then (checked, RateLimited)
    else if !valid then (checked, ValidationFailed)
    else if !delivered then (checked, DeliveryFailed)
    else (Update(checked, updateNow), Delivered)
  }

  // ---------------------------------------------------------------------------
  // One attempt

  /** checkRateLimit only ever resets the counter; it never moves the window. */
  lemma CheckOnlyResets(s: Limiter, now: int)
    ensures Check(s, now).0.lastSubmissionTime == s.lastSubmissionTime
    ensures Check(s, now).0.submissionCount == (if Expired(s, now) then 0 else s.submissionCount)
    ensures Check(s, now).1 <==> Expired(s, now) || s.submissionCount < MaxSubmissions
  {
  }

  /**
   An update that follows a check which let the attempt through, on a clock
   that does not go back, records the update time and leaves the counter
   between 1 and the limit; it restarts at 1 exactly when the check found a
   fresh window or the update comes more than a window after the last success.
   */
  lemma AdmittedUpdateStaysWithinLimit(s: Limiter, checkNow: int, updateNow: int)
    requires 0 <= s.submissionCount
    requires Check(s, checkNow).1 && checkNow <= updateNow
    ensures Update(Check(s, checkNow).0, updateNow).lastSubmissionTime == updateNow
    ensures 1 <= Update(Check(s, checkNow).0, updateNow).submissionCount <= MaxSubmissions
    ensures Update(Check(s, checkNow).0, updateNow).submissionCount == 1 <==>
            Expired(s, updateNow) || s.submissionCount == 0
  {
  }

  /**
   As long as the clock does not go back between the check and the update,
   the reset done by the check does not change what the update computes.
   */
  lemma CheckResetAgreesWithUpdate(s: Limiter, checkNow: int, updateNow: int)
    requires checkNow <= updateNow
    ensures Update(Check(s, checkNow).0, updateNow) == Update(s, updateNow)
  {
  }

  /** An attempt that is not delivered leaves the window where it was and never raises a non-negative count. */
  lemma FailuresDoNotConsume(s: Limiter, checkNow: int, valid: bool, delivered: bool, updateNow: int)
    requires Submit(s, checkNow, valid, delivered, updateNow).1 != Delivered
    ensures Submit(s, checkNow, valid, delivered, updateNow).0 == Check(s, checkNow).0
    ensures Submit(s, checkNow, valid, delivered, updateNow).0.lastSubmissionTime == s.lastSubmissionTime
    ensures 0 <= s.submissionCount ==>
            Submit(s, checkNow, valid, delivered, updateNow).0.submissionCount <= s.submissionCount
  {
  }

  /** A rate-limited attempt is decided before validation and delivery are looked at. */
  lemma RateLimitedFirst(s: Limiter, checkNow: int, valid: bool, delivered: bool, updateNow: int)
    requires !Check(s, checkNow).1
    ensures Submit(s, checkNow, valid, delivered, updateNow) == (Check(s, checkNow).0, RateLimited)
  {
  }

  /** After a failed send, the same attempt is let through again: the failure cost no slot. */
  lemma DeliveryFailureDoesNotBlock(s: Limiter, checkNow: int, updateNow: int, retryNow: int)
    requires Submit(s, checkNow, true, false, updateNow).1 == DeliveryFailed
    requires checkNow <= retryNow
    ensures Check(Submit(s, checkNow, true, false, updateNow).0, retryNow).1
  {
  }

  /**
   A counter within the limit stays within it, whatever the clock readings:
   the update only follows a check that found the counter below the limit.
   */
  lemma SubmitKeepsCountBounded(s: Limiter, checkNow: int, valid: bool, delivered: bool, updateNow: int)
    requires 0 <= s.submissionCount <= MaxSubmissions
    ensures 0 <= Submit(s, checkNow, valid, delivered, updateNow).0.submissionCount <= MaxSubmissions
  {
  }

  /** Once a window has passed since the last success, an attempt is always let through. */
  lemma ExpiredWindowAdmits(s: Limiter, now: int)
    requires Expired(s, now)
    ensures Check(s, now).1
  {
  }

  // ---------------------------------------------------------------------------
  // Sequences of attempts

  /** One submission attempt: the clock at the check, validateInput's verdict, the send's result, the clock at the update. */
  datatype Attempt = Attempt(checkNow: int, valid: bool, delivered: bool, updateNow: int)

  /** The attempts in order, from state s: the final state and the update times of the delivered ones. */
  function Run(s: Limiter, attempts: seq<Attempt>): (Limiter, seq<int>)
    decreases |attempts|
  {
    if attempts == [] then (s, [])
    else
      var a := attempts[0];
      var (next, outcome) := Submit(s, a.checkNow, a.valid, a.delivered, a.updateNow);
      var (last, times) := Run(next, attempts[1..]);
      (last, (if outcome == Delivered then [a.updateNow] else []) + times)
  }

  /** The clock never goes back: from time t on, each check comes before its update and after the previous one. */
  predicate Chronological(attempts: seq<Attempt>, t: int)
    decreases |attempts|
  {
    attempts == [] ||
    (t <= attempts[0].checkNow <= attempts[0].updateNow && Chronological(attempts[1..], attempts[0].updateNow))
  }

  function Gap(h: seq<int>, i: int): int
    requires 0 <= i && i + 1 < |h|
  {
    h[i + 1] - h[i]
  }

  predicate Sorted(h: seq<int>) {
    forall i, j | 0 <= i <= j < |h| :: h[i] <= h[j]
  }

  /** Among any four consecutive successes, two in a row are more than a window apart. */
  predicate NoFourChained(h: seq<int>) {
    forall i | 0 <= i && i + 3 < |h| ::
      Gap(h, i) > RateLimitWindow || Gap(h, i + 1) > RateLimitWindow || Gap(h, i + 2) > RateLimitWindow
  }

  /** How many of the last successes follow one another within a window each. */
  function ChainLength(h: seq<int>): nat
    decreases |h|
  {
    if |h| <= 1 then |h|
    else if h[|h| - 1] - h[|h| - 2] > RateLimitWindow then 1
    else ChainLength(h[..|h| - 1]) + 1
  }

  lemma {:induction false} ChainOfFour(h: seq<int>)
    requires |h| >= 4
    requires var n := |h|;
      Gap(h, n - 4) <= RateLimitWindow && Gap(h, n - 3) <= RateLimitWindow && Gap(h, n - 2) <= RateLimitWindow
    ensures ChainLength(h) >= 4
  {
    var n := |h|;
    var h1 := h[..n - 1];
    var h2 := h1[..n - 2];
    assert h1[n - 2] == h[n - 2] && h1[n - 3] == h[n - 3];
    assert h2[n - 3] == h[n - 3] && h2[n - 4] == h[n - 4];
    assert ChainLength(h) == ChainLength(h1) + 1;
    assert ChainLength(h1) == ChainLength(h2) + 1;
    assert ChainLength(h2) >= 2;
  }

  /**
   What holds between attempts, given the successes h so far and a clock t no
   later than the next attempt: the counter is the length of the current chain
   of successes, or 0 after a reset that the next success is bound to repeat.
   */
  ghost predicate Inv(s: Limiter, h: seq<int>, t: int) {
    Sorted(h) && NoFourChained(h) && ChainLength(h) <= MaxSubmissions &&
    if h == [] then s.submissionCount == 0
    else
      s.lastSubmissionTime == h[|h| - 1] && h[|h| - 1] <= t &&
      (s.submissionCount == ChainLength(h) || (s.submissionCount == 0 && t - h[|h| - 1] > RateLimitWindow))
  }

  lemma InitialInv(t: int)
    ensures Inv(Initial, [], t)
  {
  }

  /** A delivered attempt keeps the invariant, its update time joining the successes. */
  lemma SuccessKeepsInv(s: Limiter, h: seq<int>, t: int, a: Attempt)
    requires Inv(s, h, t) && t <= a.checkNow <= a.updateNow
    requires Submit(s, a.checkNow, a.valid, a.delivered, a.updateNow).1 == Delivered
    ensures Inv(Submit(s, a.checkNow, a.valid, a.delivered, a.updateNow).0, h + [a.updateNow], a.updateNow)
  {
    var u := a.updateNow;
    var h' := h + [u];
    var s' := Submit(s, a.checkNow, a.valid, a.delivered, u).0;
    assert h'[..|h|] == h;
    if h != [] {
      var n := |h'|;
      if u - h[|h| - 1] > RateLimitWindow {
        assert ChainLength(h') == 1;
      } else {
        assert s.submissionCount == ChainLength(h);
        assert ChainLength(h') == ChainLength(h) + 1;
      }
      assert s'.submissionCount == ChainLength(h');
      forall i | 0 <= i && i + 3 < n
        ensures Gap(h', i) > RateLimitWindow || Gap(h', i + 1) > RateLimitWindow || Gap(h', i + 2) > RateLimitWindow
      {
        if i + 3 < |h| {
          assert Gap(h', i) == Gap(h, i) && Gap(h', i + 1) == Gap(h, i + 1) && Gap(h', i + 2) == Gap(h, i + 2);
        } else if Gap(h', i) <= RateLimitWindow && Gap(h', i + 1) <= RateLimitWindow {
          if Gap(h', i + 2) <= RateLimitWindow {
            ChainOfFour(h');
          }
        }
      }
    }
  }

  /** Any attempt keeps the invariant. */
  lemma StepKeepsInv(s: Limiter, h: seq<int>, t: int, a: Attempt)
    requires Inv(s, h, t) && t <= a.checkNow <= a.updateNow
    ensures var (s', outcome) := Submit(s, a.checkNow, a.valid, a.delivered, a.updateNow);
            Inv(s', h + (if outcome == Delivered then [a.updateNow] else []), a.updateNow)
  {
    var (s', outcome) := Submit(s, a.checkNow, a.valid, a.delivered, a.updateNow);
    if outcome == Delivered {
      SuccessKeepsInv(s, h, t, a);
    } else {
      assert h + [] == h;
    }
  }

  lemma {:induction false} RunKeepsInv(s: Limiter, h: seq<int>, t: int, attempts: seq<Attempt>)
    requires Inv(s, h, t) && Chronological(attempts, t)
    ensures Sorted(h + Run(s, attempts).1) && NoFourChained(h + Run(s, attempts).1)
    ensures 0 <= Run(s, attempts).0.submissionCount <= MaxSubmissions
    decreases |attempts|
  {
    if attempts == [] {
      assert h + Run(s, attempts).1 == h;
    } else {
      var a := attempts[0];
      var (next, outcome) := Submit(s, a.checkNow, a.valid, a.delivered, a.updateNow);
      var first := if outcome == Delivered then [a.updateNow] else [];
      StepKeepsInv(s, h, t, a);
      RunKeepsInv(next, h + first, a.updateNow, attempts[1..]);
      assert h + Run(s, attempts).1 == (h + first) + Run(next, attempts[1..]).1;
    }
  }

  /**
   In a sorted sequence of times where every four consecutive entries have a
   gap over the window, any two entries at least three places apart, and so
   any four entries, span more than 60 000 ms.
   */
  lemma SpanOfFour(h: seq<int>)
    requires Sorted(h) && NoFourChained(h)
    ensures forall i, j | 0 <= i && i + MaxSubmissions <= j < |h| :: h[j] - h[i] > RateLimitWindow
  {
    forall i, j | 0 <= i && i + MaxSubmissions <= j < |h|
      ensures h[j] - h[i] > RateLimitWindow
    {
      assert h[i] <= h[i + 1] && h[i + 1] <= h[i + 2] && h[i + 2] <= h[i + 3] && h[i + 3] <= h[j];
      assert Gap(h, i) > RateLimitWindow || Gap(h, i + 1) > RateLimitWindow || Gap(h, i + 2) > RateLimitWindow;
    }
  }

  /**
   The limit the limiter keeps, over any sequence of attempts from the initial
   state with a clock that never goes back: the successful submissions come in
   time order, among any four consecutive ones two in a row lie more than
   60 000 ms apart, and so any four of them span more than 60 000 ms: no
   window of 60 000 ms holds more than three successes.
   */
  lemma RateLimitHolds(attempts: seq<Attempt>, t: int)
    requires Chronological(attempts, t)
    ensures 0 <= Run(Initial, attempts).0.submissionCount <= MaxSubmissions
    ensures Sorted(Run(Initial, attempts).1)
    ensures NoFourChained(Run(Initial, attempts).1)
    ensures var h := Run(Initial, attempts).1;
            forall i, j | 0 <= i && i + MaxSubmissions <= j < |h| :: h[j] - h[i] > RateLimitWindow
  {
    InitialInv(t);
    RunKeepsInv(Initial, [], t, attempts);
    var h := Run(Initial, attempts).1;
    assert [] + h == h;
    SpanOfFour(h);
  }

  /**
   The limit in terms of a window: for any start time w, the successful
   submissions at or after w and at most 60 000 ms later are at most three.
   */
  lemma AtMostThreePerWindow(attempts: seq<Attempt>, t: int, w: int, i: int, j: int)
    requires Chronological(attempts, t)
    requires 0 <= i <= j < |Run(Initial, attempts).1|
    requires var h := Run(Initial, attempts).1; w <= h[i] && h[j] <= w + RateLimitWindow
    ensures j - i < MaxSubmissions
  {
    RateLimitHolds(attempts, t);
  }

  // ---------------------------------------------------------------------------
  // Worked sequences

  /**
   The window slides with each success: after successes at t, t + 30 000 and
   t + 60 000, an attempt at t + 60 001 (more than a window after the first)
   is still rate-limited.
   */
  lemma WindowSlidesFromLastSuccess()
    ensures var t := 1000000;
            var s1 := Submit(Initial, t, true, true, t).0;
            var s2 := Submit(s1, t + 30000, true, true, t + 30000).0;
            var s3 := Submit(s2, t + 60000, true, true, t + 60000).0;
            Submit(s3, t + 60001, true, true, t + 60001).1 == RateLimited &&
            Submit(s3, t + 120001, true, true, t + 120001).1 == Delivered
  {
  }

  /** Three attempts that fail validation, then three valid ones within one window: all three valid ones are delivered. */
  lemma ValidationFailuresDoNotCount()
    ensures var t := 1000000;
            var attempts := [Attempt(t, false, true, t), Attempt(t + 1, false, true, t + 1),
                             Attempt(t + 2, false, true, t + 2), Attempt(t + 3, true, true, t + 3),
                             Attempt(t + 4, true, true, t + 4), Attempt(t + 5, true, true, t + 5)];
            Run(Initial, attempts).1 == [t + 3, t + 4, t + 5] &&
            Run(Initial, attempts).0 == Limiter(t + 5, 3)
  {
    var t := 1000000;
    var attempts := [Attempt(t, false, true, t), Attempt(t + 1, false, true, t + 1),
                     Attempt(t + 2, false, true, t + 2), Attempt(t + 3, true, true, t + 3),
                     Attempt(t + 4, true, true, t + 4), Attempt(t + 5, true, true, t + 5)];
    var a3 := Attempt(t + 3, true, true, t + 3);
    var a4 := Attempt(t + 4, true, true, t + 4);
    var a5 := Attempt(t + 5, true, true, t + 5);
    assert attempts[3..] == [a3, a4, a5] && [a3, a4, a5][1..] == [a4, a5] && [a4, a5][1..] == [a5];
    assert [a5][1..] == [];
    assert Submit(Limiter(t + 4, 2), t + 5, true, true, t + 5) == (Limiter(t + 5, 3), Delivered);
    assert Run(Limiter(t + 5, 3), []) == (Limiter(t + 5, 3), []);
    assert [t + 5] + [] == [t + 5];
    assert Run(Limiter(t + 4, 2), [a5]) == (Limiter(t + 5, 3), [t + 5]);
    assert Submit(Limiter(t + 3, 1), t + 4, true, true, t + 4) == (Limiter(t + 4, 2), Delivered);
    assert [t + 4] + [t + 5] == [t + 4, t + 5];
    assert Run(Limiter(t + 3, 1), [a4, a5]) == (Limiter(t + 5, 3), [t + 4, t + 5]);
    assert Submit(Initial, t + 3, true, true, t + 3) == (Limiter(t + 3, 1), Delivered);
    assert [t + 3] + [t + 4, t + 5] == [t + 3, t + 4, t + 5];
    assert Run(Initial, [a3, a4, a5]) == (Limiter(t + 5, 3), [t + 3, t + 4, t + 5]);
    assert attempts[2..][1..] == attempts[3..] && attempts[1..][1..] == attempts[2..];
    assert Submit(Initial, t + 2, false, true, t + 2) == (Initial, ValidationFailed);
    assert attempts[2..][0] == Attempt(t + 2, false, true, t + 2);
    assert [] + Run(Initial, attempts[3..]).1 == Run(Initial, attempts[3..]).1;
    assert Run(Initial, attempts[2..]) == Run(Initial, attempts[3..]);
    assert Submit(Initial, t + 1, false, true, t + 1) == (Initial, ValidationFailed);
    assert Run(Initial, attempts[1..]) == Run(Initial, attempts[2..]);
    assert Submit(Initial, t, false, true, t) == (Initial, ValidationFailed);
  }
}
