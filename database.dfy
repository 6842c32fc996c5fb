/**
 * The start-up connection manager `connectDB(retries = 5, delay = 3000)`:
 * at most `retries` attempts to reach the document store, with an
 * exponentially growing wait between failed attempts, and a process exit
 * when the connection string is missing or every attempt failed.
 *
 * The store itself is abstract: `connect(k)` is the outcome of the k-th
 * attempt (true when `mongoose.connect` resolves). The waits are returned
 * instead of slept.
 */
module Database {
  import opened Wrappers

  /** How a call of `connectDB` ends. */
  datatype Outcome =
    | Connected          // an attempt resolved; the promise resolves
    | Exited(code: int)  // `process.exit(code)`
    | Returned           // the loop made no attempt at all (retries < 1) and the promise resolves

  const DefaultRetries: int := 5
  const DefaultDelayMs: int := 3000
  const ExitFailure: int := 1

  function Pow2(n: nat): (r: nat)
    ensures r >= 1
  {
    if n == 0 then 1 else 2 * Pow2(n - 1)
  }

  /** The waits slept after the first n failed attempts: `delay * 2^(k-1)` after attempt k. */
  function Backoff(delay: int, n: nat): (w: seq<int>)
    ensures |w| == n
    ensures forall j :: 0 <= j < n ==> w[j] == delay * Pow2(j)
  {
    if n == 0 then [] else Backoff(delay, n - 1) + [delay * Pow2(n - 1)]
  }

  /** `!process.env.MONGO_URI`: the variable is unset or empty. */
  predicate MissingUri(uri: Option<string>) {
    uri.None? || uri.value == ""
  }

  /**
   * `connectDB`. `attempts` is the number of connection attempts made and
   * `waits` the back-off delays slept, in order.
   */
  method ConnectDB(uri: Option<string>, retries: int, delay: int, connect: nat -> bool)
    returns (outcome: Outcome, attempts: nat, waits: seq<int>)
    // a missing connection string exits before any attempt
    ensures MissingUri(uri) ==> outcome == Exited(ExitFailure) && attempts == 0
    // never more than `retries` attempts
    ensures attempts <= if retries < 0 then 0 else retries
    // every attempt but the last one made failed
    ensures forall k :: 1 <= k < attempts ==> !connect(k)
    // it connects exactly when some allowed attempt succeeds, and stops at the first success
    ensures outcome == Connected <==> !MissingUri(uri) && exists k :: 1 <= k <= retries && connect(k)
    ensures outcome == Connected ==> attempts >= 1 && connect(attempts)
    // all attempts failed: it exits after the last one
    ensures !MissingUri(uri) && outcome.Exited? ==> outcome.code == ExitFailure && attempts == retries && !connect(attempts)
    ensures outcome == Returned <==> !MissingUri(uri) && retries < 1
    // one wait after each failed attempt except the last one made
    ensures waits == Backoff(delay, if attempts == 0 then 0 else attempts - 1)
  {
    outcome, attempts, waits := Returned, 0, [];
    if MissingUri(uri) {
      outcome := Exited(ExitFailure);
      return;
    }
    var attempt := 1;
    while attempt <= retries
      invariant 1 <= attempt && (attempt == 1 || attempt <= retries)
      invariant attempts == attempt - 1
      invariant forall k :: 1 <= k < attempt ==> !connect(k)
      invariant waits == Backoff(delay, attempt - 1)
      decreases retries - attempt
    {
      attempts := attempt;
      if connect(attempt) {
        outcome := Connected;
        return;
      }
      if attempt == retries {
        outcome := Exited(ExitFailure);
        return;
      }
      var wait := delay * Pow2(attempt - 1);
      waits := waits + [wait];
      attempt := attempt + 1;
    }
  }

  /** With the default arguments the waits are 3 s, 6 s, 12 s and 24 s. */
  lemma DefaultSchedule()
    ensures Backoff(DefaultDelayMs, DefaultRetries - 1) == [3000, 6000, 12000, 24000]
  {
    assert Pow2(3) == 8;
  }

  function Sum(w: seq<int>): int {
    if w == [] then 0 else Sum(w[..|w| - 1]) + w[|w| - 1]
  }

  /** The total time slept after n failures is `delay * (2^n - 1)`. */
  lemma {:induction false} BackoffTotal(delay: int, n: nat)
    ensures Sum(Backoff(delay, n)) == delay * (Pow2(n) - 1)
  {
    if n > 0 {
      BackoffTotal(delay, n - 1);
      var w := Backoff(delay, n);
      var p := Pow2(n - 1);
      var prev := Backoff(delay, n - 1);
      assert w == prev + [delay * p];
      assert w[..|w| - 1] == prev;
      assert w[|w| - 1] == delay * p;
      assert Sum(w) == Sum(prev) + delay * p;
      assert Pow2(n) == 2 * p;
      Geometric(delay, p);
      assert Pow2(n) - 1 == 2 * p - 1;
    } else {
      assert Backoff(delay, n) == [] && Pow2(n) - 1 == 0;
    }
  }

  lemma Geometric(d: int, p: int)
    ensures d * (p - 1) + d * p == d * (2 * p - 1)
  {
  }
}
