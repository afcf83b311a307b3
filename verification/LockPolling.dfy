/** Waiting for a file lock by polling: times in milliseconds, on a clock where sleeping takes at least as long as
    asked. `attempt(i)` is what the i-th try finds, `cost(i)` how long it takes, `late(i)` by how much the i-th sleep
    overruns. */
module LockPolling {
  datatype Attempt = Free | Busy | IoError
  datatype Outcome = Acquired | TimedOut | Failed

  const START := 5
  const MAX := 100

  function Min(a: nat, b: nat): nat { if a < b then a else b }

  /** The pause after the k-th failed try, and the sum of the first k pauses. */
  function Backoff(k: nat): nat { if k == 0 then START else Min(2 * Backoff(k - 1), MAX) }
  function Slept(k: nat): nat { if k == 0 then 0 else Slept(k - 1) + Backoff(k - 1) }

  lemma {:induction false} BackoffBounds(k: nat)
    ensures START <= Backoff(k) <= MAX && (k >= 5 ==> Backoff(k) == MAX)
  {
    if k > 0 {
      BackoffBounds(k - 1);
      assert Backoff(1) == 10 && Backoff(2) == 20 && Backoff(3) == 40 && Backoff(4) == 80 && Backoff(5) == 100;
    }
  }

  lemma {:induction false} SleptGrows(k: nat)
    ensures Slept(k) + 345 >= 100 * k
  {
    if k > 5 {
      SleptGrows(k - 1);
      BackoffBounds(k - 1);
    } else {
      assert Slept(0) == 0 && Slept(1) == 5 && Slept(2) == 15 && Slept(3) == 35 && Slept(4) == 75 && Slept(5) == 155;
    }
  }

  lemma NextPause(k: nat)
    ensures Backoff(0) == START && Slept(0) == 0
    ensures Backoff(k + 1) == Min(Backoff(k) * 2, MAX) && Slept(k + 1) == Slept(k) + Backoff(k)
    ensures START <= Backoff(k) <= MAX
  {
    BackoffBounds(k);
  }

  /** Tries and wake-ups take no time of their own. */
  ghost predicate Exact(cost: nat -> nat, late: nat -> nat) { forall i :: cost(i) == 0 && late(i) == 0 }

  /** Having slept through `k` pauses before the deadline `d` bounds how many there were. */
  lemma TriesBound(k: nat, d: nat)
    requires Slept(k) < d
    ensures k + 2 <= d / 100 + 6
  {
    SleptGrows(k);
  }

  /** What the tries say about the outcome. */
  predicate Explains(outcome: Outcome, tries: nat, attempt: nat -> Attempt) {
    && tries > 0
    && (forall i | 0 <= i < tries - 1 :: attempt(i) == Busy)
    && (outcome.Acquired? <==> attempt(tries - 1) == Free)
    && (outcome.Failed? <==> attempt(tries - 1) == IoError)
  }

  /** The journal lock. It gives up only past the deadline and, if tries and wake-ups take no time of their own, before
      one more full pause has gone by. */
  method AcquireJournalLock(timeout: nat, attempt: nat -> Attempt, cost: nat -> nat, late: nat -> nat)
    returns (outcome: Outcome, tries: nat, now: nat)
    ensures Explains(outcome, tries, attempt)
    ensures tries <= timeout / 100 + 6
    ensures outcome.TimedOut? ==> timeout <= now
    ensures outcome.TimedOut? && Exact(cost, late) ==> now < timeout + 100
  {
    hide Backoff;
    hide Slept;
    NextPause(0);
    now := 0;
    tries := 0;
    var deadline := timeout;
    var backoff := START;
    while true
      invariant backoff == Backoff(tries) && Slept(tries) <= now
      invariant forall i | 0 <= i < tries :: attempt(i) == Busy
      invariant tries > 0 ==> Slept(tries - 1) < deadline
      invariant Exact(cost, late) ==> now < deadline + 100
      decreases deadline + 1000 - now
    {
      var found := attempt(tries);
      now := now + cost(tries);
      if tries > 0 { TriesBound(tries - 1, deadline); }
      if found.Free? {
        return Acquired, tries + 1, now;
      }
      if found.IoError? {
        return Failed, tries + 1, now;
      }
      if now >= deadline {
        return TimedOut, tries + 1, now;
      }
      NextPause(tries);
      now := now + backoff + late(tries);
      backoff := Min(backoff * 2, MAX);
      tries := tries + 1;
    }
  }

  /** The per-coordinate lock never sleeps past its deadline: with exact sleeps and instant tries it gives up exactly
      there. */
  method AcquireFileLock(timeout: nat, attempt: nat -> Attempt, cost: nat -> nat, late: nat -> nat)
    returns (outcome: Outcome, tries: nat, now: nat)
    ensures Explains(outcome, tries, attempt)
    ensures tries <= timeout / 100 + 6
    ensures outcome.TimedOut? ==> timeout <= now
    ensures outcome.TimedOut? && Exact(cost, late) ==> now == timeout
  {
    hide Backoff;
    hide Slept;
    NextPause(0);
    now := 0;
    tries := 0;
    var deadline := timeout;
    var backoff := START;
    while true
      invariant backoff == Backoff(tries) && (Slept(tries) <= now || deadline <= now)
      invariant forall i | 0 <= i < tries :: attempt(i) == Busy
      invariant tries > 0 ==> Slept(tries - 1) < deadline
      invariant Exact(cost, late) ==> now <= deadline
      decreases deadline + 1000 - now
    {
      var found := attempt(tries);
      now := now + cost(tries);
      if tries > 0 { TriesBound(tries - 1, deadline); }
      if found.Free? {
        return Acquired, tries + 1, now;
      }
      if found.IoError? {
        return Failed, tries + 1, now;
      }
      if now >= deadline {
        return TimedOut, tries + 1, now;
      }
      NextPause(tries);
      var remaining := deadline - now;
      now := now + Min(backoff, remaining) + late(tries);
      backoff := Min(backoff * 2, MAX);
      tries := tries + 1;
    }
  }
}
