/** The fetch-with-backoff loop of one chunk task (crates/steam-client/src/download.rs:496-523). */
module Retry {
  import opened Base

  /** What the loop ends in: data, the last attempt's error, or a panic (a shift past 31 bits, or the unwrap without
      data). */
  datatype Outcome = Fetched(data: Bytes) | Failed | Panicked

  /** The first `n` attempts all fail. */
  predicate AllFail(attempts: seq<Option<Bytes>>, n: nat)
    requires n <= |attempts|
  {
    forall i | 0 <= i < n :: attempts[i].None?
  }

  /** The delays slept after the first `k` failures: the j-th is the initial delay doubled j times. */
  function Backoff(initialDelay: nat, k: nat): nat
  {
    if k == 0 then 0 else Backoff(initialDelay, k - 1) + initialDelay * Pow2(k - 1)
  }

  lemma {:induction false} BackoffTotal(initialDelay: nat, k: nat)
    ensures Backoff(initialDelay, k) == initialDelay * (Pow2(k) - 1)
  {
    if k > 0 {
      BackoffTotal(initialDelay, k - 1);
      Doubling(initialDelay, Pow2(k - 1));
    }
  }

  lemma Doubling(d: nat, p: nat)
    ensures d * (p - 1) + d * p == d * (2 * p - 1)
  {
  }

  /** The loop ends in `outcome` after `calls` fetches. */
  ghost predicate Ends(maxAttempts: nat, attempts: seq<Option<Bytes>>, outcome: Outcome, calls: nat)
  {
    && calls <= maxAttempts <= |attempts| && AllFail(attempts, if calls > 0 then calls - 1 else 0)
    && match outcome
       case Fetched(data) => 0 < calls <= 33 && attempts[calls - 1] == Some(data)
       case Failed => 0 < calls == maxAttempts <= 33 && AllFail(attempts, calls)
       case Panicked => maxAttempts == 0 || (maxAttempts > 33 && calls == 33 && AllFail(attempts, calls))
  }

  /** The attempts leave no choice. */
  lemma EndsOneWay(maxAttempts: nat, attempts: seq<Option<Bytes>>, x: Outcome, m: nat, y: Outcome, n: nat)
    requires Ends(maxAttempts, attempts, x, m) && Ends(maxAttempts, attempts, y, n)
    ensures x == y && m == n
  {
  }

  /** `attempts[i]` is what the i-th fetch would answer. `calls` fetches are made and `slept` is the total delay. */
  method FetchWithRetry(maxAttempts: nat, initialDelay: nat, attempts: seq<Option<Bytes>>)
    returns (outcome: Outcome, calls: nat, slept: nat)
    requires |attempts| >= maxAttempts
    ensures Ends(maxAttempts, attempts, outcome, calls)
    ensures calls <= maxAttempts && AllFail(attempts, if calls > 0 then calls - 1 else 0)
    ensures outcome.Fetched? ==> calls > 0 && attempts[calls - 1] == Some(outcome.data)
    ensures !outcome.Fetched? ==> AllFail(attempts, calls)
    ensures !outcome.Panicked? ==> calls > 0 && slept == Backoff(initialDelay, calls - 1)
    ensures outcome.Failed? <==> 0 < maxAttempts <= 33 && AllFail(attempts, maxAttempts)
    ensures outcome.Failed? ==> calls == maxAttempts
    ensures outcome.Panicked? <==> maxAttempts == 0 || (maxAttempts > 33 && AllFail(attempts, 33))
  {
    calls, slept := 0, 0;
    var attempt := 0;
    while attempt < maxAttempts
      invariant calls == attempt <= 32
      invariant attempt <= maxAttempts && AllFail(attempts, attempt)
      invariant attempt == maxAttempts ==> maxAttempts == 0
      invariant slept == Backoff(initialDelay, attempt)
    {
      calls := calls + 1;
      match attempts[attempt]
      case Some(data) =>
        return Fetched(data), calls, slept;
      case None =>
        if attempt + 1 >= maxAttempts {
          return Failed, calls, slept;
        }
        if attempt >= 32 {
          return Panicked, calls, slept;
        }
        slept := slept + initialDelay * Pow2(attempt);
        attempt := attempt + 1;
    }
    outcome := Panicked;
  }
}
