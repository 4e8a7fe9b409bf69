/**
 Exponential backoff on wallet decryption: `DecryptionRateLimiter` and `decrypt_with_rate_limit`.

 The clock is a parameter: an attempt reads it when checking the rate, when checking the lockout and
 when recording a failure.
 */
module RateLimiter {
  import opened Machine
  import opened Arithmetic

  const MAX_FAILED_ATTEMPTS: U32 := 5
  const BASE_DELAY_MS: U64 := 1000
  const MAX_DELAY_MS: U64 := 300_000

  datatype State = State(failures: U32, last: Option<U64>)

  /** `BASE_DELAY_MS * 2^(failures - 1)`, exponent at most 10, capped at five minutes. */
  function Delay(failures: U32): U64 {
    if failures == 0 then 0
    else
      var exponent := Min(failures - 1, 10);
      PowerTable();
      PowerBound(exponent);
      Min(SatMul(BASE_DELAY_MS, Pow2(exponent)), MAX_DELAY_MS)
  }

  lemma PowerTable()
    ensures Pow2(0) == 1 && Pow2(1) == 2 && Pow2(2) == 4 && Pow2(3) == 8 && Pow2(4) == 16 && Pow2(5) == 32
    ensures Pow2(6) == 64 && Pow2(7) == 128 && Pow2(8) == 256 && Pow2(9) == 512 && Pow2(10) == 1024
  {
    assert Pow2(2) == 4;
    assert Pow2(4) == 16;
    assert Pow2(6) == 64;
    assert Pow2(8) == 256;
  }

  lemma {:induction false} PowerBound(k: nat)
    ensures k <= 10 ==> Pow2(k) <= 1024
    decreases 10 - k
  {
    if k < 10 {
      PowerBound(k + 1);
      assert Pow2(k + 1) == 2 * Pow2(k);
    } else if k == 10 {
      PowerTable();
    }
  }

  /** The backoff doubles from one second and stays at five minutes from the tenth failure on. */
  lemma DelayTable(failures: U32)
    ensures failures < 10 ==> Delay(failures) == if failures == 0 then 0 else 1000 * Pow2(failures - 1)
    ensures failures >= 10 ==> Delay(failures) == MAX_DELAY_MS
    ensures failures >= 1 ==> Delay(failures) >= BASE_DELAY_MS
  {
    PowerTable();
  }

  // ----- the limiter -----

  /** Milliseconds still to wait at `now`, if any. */
  function Wait(s: State, now: U64): Option<U64> {
    if s.last.None? then None
    else
      var elapsed := SatSub(now, s.last.value);
      if elapsed < Delay(s.failures) then Some(Delay(s.failures) - elapsed) else None
  }

  /** What one call of `decrypt_with_rate_limit` sees: three clock readings and whether the password
      opens the wallet. */
  datatype Attempt = Attempt(checkTime: U64, lockTime: U64, recordTime: U64, opens: bool)

  datatype Outcome = RateLimited(waitSecs: nat) | Locked | Opened | WrongPassword

  function Try(s: State, a: Attempt): (Outcome, State) {
    if s.failures > 0 && Wait(s, a.checkTime).Some? then (RateLimited(Wait(s, a.checkTime).value / 1000 + 1), s)
    else if s.failures >= MAX_FAILED_ATTEMPTS && Wait(s, a.lockTime).Some? then (Locked, s)
    else if a.opens then (Opened, State(0, None))
    else (WrongPassword, State(Min(s.failures + 1, U32_MAX), Some(a.recordTime)))
  }

  class DecryptionRateLimiter {
    var consecutiveFailures: U32
    var lastFailureTime: Option<U64>

    ghost function Snapshot(): State
      reads this
    {
      State(consecutiveFailures, lastFailureTime)
    }

    constructor ()
      ensures Snapshot() == State(0, None)
    {
      consecutiveFailures, lastFailureTime := 0, None;
    }

    method CheckRateLimit(now: U64) returns (r: Result<(), nat>)
      ensures r == if consecutiveFailures > 0 && Wait(Snapshot(), now).Some?
                   then Err(Wait(Snapshot(), now).value / 1000 + 1) else Ok(())
    {
      if consecutiveFailures == 0 || lastFailureTime.None? {
        return Ok(());
      }
      var requiredDelay := Delay(consecutiveFailures);
      var elapsed := SatSub(now, lastFailureTime.value);
      if elapsed < requiredDelay {
        return Err((requiredDelay - elapsed) / 1000 + 1);
      }
      return Ok(());
    }

    method RemainingLockoutTime(now: U64) returns (r: Option<nat>)
      ensures r == if Wait(Snapshot(), now).Some? then Some(Wait(Snapshot(), now).value / 1000) else None
    {
      if lastFailureTime.None? {
        return None;
      }
      var requiredDelay := Delay(consecutiveFailures);
      var elapsed := SatSub(now, lastFailureTime.value);
      if elapsed >= requiredDelay {
        return None;
      }
      return Some((requiredDelay - elapsed) / 1000);
    }

    method RecordFailure(now: U64)
      modifies this
      ensures Snapshot() == State(Min(old(consecutiveFailures) + 1, U32_MAX), Some(now))
    {
      consecutiveFailures := Min(consecutiveFailures + 1, U32_MAX);
      lastFailureTime := Some(now);
    }

    method RecordSuccess()
      modifies this
      ensures Snapshot() == State(0, None)
    {
      consecutiveFailures, lastFailureTime := 0, None;
    }

    method DecryptWithRateLimit(a: Attempt) returns (outcome: Outcome)
      modifies this
      ensures (outcome, Snapshot()) == Try(old(Snapshot()), a)
    {
      var limit := CheckRateLimit(a.checkTime);
      if limit.Err? {
        return RateLimited(limit.error);
      }
      if consecutiveFailures >= MAX_FAILED_ATTEMPTS {
        var remaining := RemainingLockoutTime(a.lockTime);
        if remaining.Some? {
          return Locked;
        }
      }
      if a.opens {
        RecordSuccess();
        return Opened;
      }
      RecordFailure(a.recordTime);
      return WrongPassword;
    }
  }

  /** Once the rate check has passed, the separate lockout error fires exactly when five failures stand
      and the clock was set back between the two readings; a clock that never runs backwards never
      reaches it. */
  lemma LockoutBranchIff(s: State, a: Attempt)
    ensures Try(s, a).0 == Locked <==>
            && s.failures >= MAX_FAILED_ATTEMPTS
            && Wait(s, a.checkTime).None? && Wait(s, a.lockTime).Some?
    ensures Try(s, a).0 == Locked ==> a.lockTime < a.checkTime
  {
  }

  // ----- runs -----

  /** A clock that never runs backwards, within and across attempts. */
  predicate Monotone(run: seq<Attempt>) {
    && (forall i :: 0 <= i < |run| ==> run[i].checkTime <= run[i].lockTime <= run[i].recordTime)
    && (forall i, j :: 0 <= i < j < |run| ==> run[i].recordTime <= run[j].checkTime)
  }

  function After(run: seq<Attempt>): State {
    if run == [] then State(0, None) else Try(After(run[..|run| - 1]), run[|run| - 1]).1
  }

  /** The times of the wrong passwords since the last success. */
  function Failures(run: seq<Attempt>): seq<U64> {
    if run == [] then []
    else
      var earlier := Failures(run[..|run| - 1]);
      match Try(After(run[..|run| - 1]), run[|run| - 1]).0
      case WrongPassword => earlier + [run[|run| - 1].recordTime]
      case Opened => []
      case _ => earlier
  }

  function DelayAfter(n: nat): nat {
    Delay(Min(n, U32_MAX))
  }

  /** Each failure waits out the delay its predecessors have earned. */
  ghost predicate Spaced(times: seq<U64>) {
    forall i :: 0 < i < |times| ==> times[i] >= times[i - 1] + DelayAfter(i)
  }

  ghost predicate Tracks(s: State, times: seq<U64>) {
    && s.failures == Min(|times|, U32_MAX)
    && s.last == (if times == [] then None else Some(times[|times| - 1]))
  }

  /** The invariant of every run: the limiter's two fields are the length and the end of the failure
      history, and the history is spaced. */
  lemma {:induction false} RunInvariant(run: seq<Attempt>)
    requires Monotone(run)
    ensures Tracks(After(run), Failures(run)) && Spaced(Failures(run))
    ensures Failures(run) != [] ==> run != [] && Failures(run)[|Failures(run)| - 1] <= run[|run| - 1].recordTime
  {
    if run != [] {
      var n := |run| - 1;
      RunInvariant(run[..n]);
      StepKeepsSpacing(After(run[..n]), Failures(run[..n]), run[n]);
    }
  }

  lemma StepKeepsSpacing(s: State, times: seq<U64>, a: Attempt)
    requires Tracks(s, times) && Spaced(times)
    requires a.checkTime <= a.lockTime <= a.recordTime
    ensures Try(s, a).0 == WrongPassword ==>
              Tracks(Try(s, a).1, times + [a.recordTime]) && Spaced(times + [a.recordTime])
    ensures Try(s, a).0 == Opened ==> Tracks(Try(s, a).1, [])
    ensures Try(s, a).0.RateLimited? ==> Try(s, a).1 == s
    ensures Try(s, a).0 != Locked
  {
    var more := times + [a.recordTime];
    if times != [] {
      assert more[|times| - 1] == times[|times| - 1];
    }
  }

  /** The least time `n` failures in a row take. */
  function LeastSpan(n: nat): nat {
    if n <= 1 then 0 else LeastSpan(n - 1) + DelayAfter(n - 1)
  }

  lemma {:induction false} SpacedSpan(times: seq<U64>, n: nat)
    requires Spaced(times) && 0 < n <= |times|
    ensures times[n - 1] >= times[0] + LeastSpan(n)
  {
    if n > 1 {
      SpacedSpan(times, n - 1);
    }
  }

  /** The span between the first and the last of a history. */
  function Span(times: seq<U64>): int {
    if times == [] then 0 else times[|times| - 1] as int - times[0] as int
  }

  /** n wrong passwords in a row take at least the sum of the backoff delays between them. */
  lemma FailuresTakeTime(run: seq<Attempt>)
    requires Monotone(run)
    ensures Span(Failures(run)) >= LeastSpan(|Failures(run)|)
  {
    RunInvariant(run);
    SpanOfSpaced(Failures(run));
  }

  lemma SpanOfSpaced(times: seq<U64>)
    requires Spaced(times)
    ensures Span(times) >= LeastSpan(|times|)
  {
    if times != [] {
      SpacedSpan(times, |times|);
    }
  }

  /** In closed form: 511 seconds for the first ten, then five minutes each. */
  lemma {:induction false} LeastSpanClosed(n: nat)
    requires n >= 10
    ensures LeastSpan(n) == 511_000 + (n - 10) * 300_000
  {
    DelayTable(Min(n - 1, U32_MAX));
    if n == 10 {
      FirstTen();
    } else {
      LeastSpanClosed(n - 1);
    }
  }

  lemma FirstTen()
    ensures LeastSpan(10) == 511_000
  {
    PowerTable();
    assert LeastSpan(2) == 1000;
    assert LeastSpan(4) == 7000;
    assert LeastSpan(6) == 31_000;
    assert LeastSpan(8) == 127_000;
  }

  /** So no more than 296 guesses in a row fit in a day. */
  lemma GuessesPerDay(run: seq<Attempt>)
    requires Monotone(run) && Span(Failures(run)) <= 86_400_000
    ensures |Failures(run)| <= 296
  {
    FailuresTakeTime(run);
    if |Failures(run)| >= 10 {
      LeastSpanClosed(|Failures(run)|);
    }
  }
}
