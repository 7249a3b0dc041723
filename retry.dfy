/**
 * Retrying on a locked database: the decorator that re-runs an operation and
 * the commit helper. Both make at most `max_retries` attempts, retry only
 * when the driver's error text says the database is locked or a deadlock was
 * detected, and wait 100·2^attempt milliseconds before the next attempt (the
 * wait itself is not modelled; its length is returned). The outcome of each
 * attempt is given as a sequence, one entry per attempt.
 */
module Retry {
  import opened Text

  /** What one attempt does: return, raise a driver error, or raise anything else. */
  datatype Attempt = Returned | DbError(message: string) | OtherError(message: string)

  predicate IsLockError(message: string)
  {
    Contains(message, "database is locked") || Contains(message, "deadlock detected")
  }

  /** Only driver errors with a lock message are retried; anything else propagates. */
  predicate Retriable(a: Attempt)
  {
    a.DbError? && IsLockError(a.message)
  }

  /** The decorators' default first wait, 0.1 s. */
  const InitialDelayMs := 100
  const DefaultMaxRetries := 5

  function Pow2(n: nat): (r: nat)
    ensures r >= 1
  {
    if n == 0 then 1 else 2 * Pow2(n - 1)
  }

  function Sum(s: seq<nat>): nat
  {
    if |s| == 0 then 0 else Sum(s[..|s| - 1]) + s[|s| - 1]
  }

  /** The waits before retries 1..n: 100, 200, 400, … ms. */
  predicate BackoffDelays(delays: seq<nat>, initialMs: nat)
  {
    forall j :: 0 <= j < |delays| ==> delays[j] == initialMs * Pow2(j)
  }

  /** n waits of the doubling schedule add up to initial·(2^n − 1). */
  lemma {:induction false} BackoffTotal(delays: seq<nat>, initialMs: nat)
    requires BackoffDelays(delays, initialMs)
    ensures Sum(delays) == initialMs * (Pow2(|delays|) - 1)
    decreases |delays|
  {
    if |delays| > 0 {
      var n := |delays| - 1;
      assert BackoffDelays(delays[..n], initialMs);
      BackoffTotal(delays[..n], initialMs);
      assert Pow2(n + 1) == 2 * Pow2(n);
    }
  }

  /** With the defaults, the operation waits at most 1.5 s in all before giving up. */
  lemma DefaultWaitBound(delays: seq<nat>)
    requires BackoffDelays(delays, InitialDelayMs) && |delays| <= DefaultMaxRetries - 1
    ensures Sum(delays) <= 1500
  {
    BackoffTotal(delays, InitialDelayMs);
    assert Pow2(4) == 16;
    Pow2Monotone(|delays|, 4);
  }

  lemma {:induction false} Pow2Monotone(a: nat, b: nat)
    requires a <= b
    ensures Pow2(a) <= Pow2(b)
    decreases b
  {
    if a < b {
      Pow2Monotone(a, b - 1);
    }
  }

  /**
   * `retry_on_db_lock(max_retries, initial_delay)` around one operation.
   * With `max_retries <= 0` the loop never runs and the operation is called
   * once outright.
   */
  method RetryOnDbLock(maxRetries: int, initialMs: nat, attempts: seq<Attempt>)
    returns (result: Attempt, calls: nat, delays: seq<nat>)
    requires |attempts| >= (if maxRetries > 0 then maxRetries else 1)
    ensures 1 <= calls <= |attempts|
    ensures maxRetries > 0 ==> calls <= maxRetries
    ensures maxRetries <= 0 ==> calls == 1
    ensures result == attempts[calls - 1]
    ensures forall j :: 0 <= j < calls - 1 ==> Retriable(attempts[j])
    ensures Retriable(result) && maxRetries > 0 ==> calls == maxRetries
    ensures |delays| == calls - 1 && BackoffDelays(delays, initialMs)
  {
    var attempt := 0;
    delays := [];
    while attempt < maxRetries
      invariant 0 <= attempt <= |attempts| && (maxRetries > 0 ==> attempt <= maxRetries - 1)
      invariant maxRetries <= 0 ==> attempt == 0
      invariant forall j :: 0 <= j < attempt ==> Retriable(attempts[j])
      invariant |delays| == attempt && BackoffDelays(delays, initialMs)
    {
      var a := attempts[attempt];
      if Retriable(a) && attempt < maxRetries - 1 {
        delays := delays + [initialMs * Pow2(attempt)];
        attempt := attempt + 1;
      } else {
        return a, attempt + 1, delays;
      }
    }
    result, calls := attempts[0], 1;
  }

  /** What `safe_commit` ends with. */
  datatype CommitResult = Committed | Raised(error: Attempt) | GaveUp

  /**
   * `safe_commit(conn, max_retries)` as written: commit, retrying lock errors
   * with the doubling wait. Under Postgres a failed COMMIT has already ended
   * the transaction and each retry is preceded by `conn.rollback()`, so a
   * later attempt commits an empty transaction; `kept` says whether the
   * transaction's writes are still there to be committed.
   */
  method SafeCommitAsWritten(maxRetries: int, postgres: bool, attempts: seq<Attempt>)
    returns (r: CommitResult, tries: nat, delays: seq<nat>, rollbacks: nat, kept: bool)
    requires |attempts| >= maxRetries
    ensures maxRetries <= 0 ==> r == GaveUp && tries == 0
    ensures maxRetries > 0 ==> 1 <= tries <= maxRetries
    ensures tries > 0 ==> (r == Committed <==> attempts[tries - 1].Returned?)
    ensures tries > 0 && r != Committed ==> r == Raised(attempts[tries - 1]) && (!Retriable(attempts[tries - 1]) || tries == maxRetries)
    ensures forall j :: 0 <= j < tries - 1 ==> Retriable(attempts[j])
    ensures |delays| == (if tries > 0 then tries - 1 else 0) && BackoffDelays(delays, InitialDelayMs)
    ensures rollbacks == if postgres then |delays| else 0
    ensures kept <==> rollbacks == 0
    ensures r == Committed && postgres && tries > 1 ==> !kept
  {
    var attempt := 0;
    delays := [];
    rollbacks := 0;
    while attempt < maxRetries
      invariant 0 <= attempt <= |attempts| && (maxRetries > 0 ==> attempt <= maxRetries - 1)
      invariant maxRetries <= 0 ==> attempt == 0
      invariant forall j :: 0 <= j < attempt ==> Retriable(attempts[j])
      invariant |delays| == attempt && BackoffDelays(delays, InitialDelayMs)
      invariant rollbacks == if postgres then attempt else 0
    {
      var a := attempts[attempt];
      if a.Returned? {
        return Committed, attempt + 1, delays, rollbacks, rollbacks == 0;
      }
      if Retriable(a) && attempt < maxRetries - 1 {
        delays := delays + [InitialDelayMs * Pow2(attempt)];
        if postgres {
          rollbacks := rollbacks + 1;
        }
        attempt := attempt + 1;
      } else {
        return Raised(a), attempt + 1, delays, rollbacks, rollbacks == 0;
      }
    }
    r, tries, kept := GaveUp, 0, true;
  }

  /**
   * Under Postgres, a deadlock on the first COMMIT followed by a clean second
   * one: `safe_commit` reports success although the writes were rolled back.
   */
  method DeadlockRetryAsWritten() returns (r: CommitResult, kept: bool)
    ensures r == Committed && !kept
  {
    var attempts := [DbError("deadlock detected"), Returned, Returned, Returned, Returned];
    assert Retriable(attempts[0]) by {
      assert OccursAt("deadlock detected", "deadlock detected", 0);
    }
    var tries, delays, rollbacks;
    r, tries, delays, rollbacks, kept := SafeCommitAsWritten(DefaultMaxRetries, true, attempts);
    assert tries != 1;
    assert !Retriable(attempts[1]);
  }

  /**
   * `safe_commit` as it is evidently meant to work: a lock error is retried
   * only where the failed COMMIT leaves the transaction open (SQLite). Under
   * Postgres the error is raised, since the work can no longer be committed,
   * so a `Committed` answer always means the transaction's own writes.
   */
  method SafeCommit(maxRetries: int, postgres: bool, attempts: seq<Attempt>)
    returns (r: CommitResult, tries: nat, delays: seq<nat>)
    requires |attempts| >= maxRetries
    ensures maxRetries <= 0 ==> r == GaveUp && tries == 0
    ensures maxRetries > 0 ==> 1 <= tries <= maxRetries
    ensures tries > 0 ==> (r == Committed <==> attempts[tries - 1].Returned?)
    ensures tries > 0 && r != Committed ==>
      r == Raised(attempts[tries - 1]) && (!Retriable(attempts[tries - 1]) || postgres || tries == maxRetries)
    ensures forall j :: 0 <= j < tries - 1 ==> Retriable(attempts[j]) && !postgres
    ensures |delays| == (if tries > 0 then tries - 1 else 0) && BackoffDelays(delays, InitialDelayMs)
    ensures postgres ==> tries <= 1 && delays == []
  {
    var attempt := 0;
    delays := [];
    while attempt < maxRetries
      invariant 0 <= attempt <= |attempts| && (maxRetries > 0 ==> attempt <= maxRetries - 1)
      invariant maxRetries <= 0 ==> attempt == 0
      invariant postgres ==> attempt == 0
      invariant forall j :: 0 <= j < attempt ==> Retriable(attempts[j])
      invariant |delays| == attempt && BackoffDelays(delays, InitialDelayMs)
    {
      var a := attempts[attempt];
      if a.Returned? {
        return Committed, attempt + 1, delays;
      }
      if Retriable(a) && !postgres && attempt < maxRetries - 1 {
        delays := delays + [InitialDelayMs * Pow2(attempt)];
        attempt := attempt + 1;
      } else {
        return Raised(a), attempt + 1, delays;
      }
    }
    r, tries := GaveUp, 0;
  }
}
