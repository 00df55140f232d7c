/**
 * `DatabaseManager.executeWithRetry`: run a unit of work up to MAX_RETRIES
 * times, retrying (after a one-second sleep) only when SQLite reports
 * "database is locked". The environment is a supplied sequence giving the
 * outcome of each attempt.
 */
module Retry {
  import opened Wrappers

  const MAX_RETRIES: nat := 3

  /**
   * The outcome of one attempt: the unit of work returned a value; it failed
   * with "database is locked"; it failed with any other SQL error; or it
   * failed with "database is locked" and the back-off sleep before the next
   * attempt was interrupted.
   */
  datatype Attempt<+T> = Ok(value: T) | Locked | OtherError | Interrupted

  /** The result of the attempts from number `retries` on, given that every earlier one hit the lock. */
  function RetryFrom<T>(attempts: seq<Attempt<T>>, retries: nat): Option<T>
    requires retries < MAX_RETRIES <= |attempts|
    decreases MAX_RETRIES - retries
  {
    match attempts[retries]
    case Ok(v) => Some(v)
    case Locked => if retries < MAX_RETRIES - 1 then RetryFrom(attempts, retries + 1) else None
    case OtherError => None
    case Interrupted => None
  }

  /** What `executeWithRetry` returns; `None` is its `null`. */
  function RunWithRetry<T>(attempts: seq<Attempt<T>>): Option<T>
    requires MAX_RETRIES <= |attempts|
  {
    RetryFrom(attempts, 0)
  }

  /** The attempt number (0-based) at which a run stops: the first attempt that is not a lock, or the last one. */
  predicate StopsAt<T>(attempts: seq<Attempt<T>>, i: nat)
    requires MAX_RETRIES <= |attempts|
  {
    && i < MAX_RETRIES
    && (forall j :: 0 <= j < i ==> attempts[j].Locked?)
    && (i < MAX_RETRIES - 1 ==> !attempts[i].Locked?)
  }

  /**
   * The combinator's result in closed form: a value exactly when some attempt
   * within the bound succeeds after nothing but locks, and then that value,
   * unchanged.
   */
  lemma {:induction false} RunWithRetryMeans<T>(attempts: seq<Attempt<T>>, i: nat)
    requires MAX_RETRIES <= |attempts|
    requires StopsAt(attempts, i)
    ensures attempts[i].Ok? ==> RunWithRetry(attempts) == Some(attempts[i].value)
    ensures !attempts[i].Ok? ==> RunWithRetry(attempts) == None
  {
    var k := 0;
    while k < i
      invariant 0 <= k <= i
      invariant RunWithRetry(attempts) == RetryFrom(attempts, k)
    {
      assert attempts[k].Locked?;
      k := k + 1;
    }
  }

  /** Every run stops at exactly one attempt. */
  lemma StopsAtUnique<T>(attempts: seq<Attempt<T>>, i: nat, j: nat)
    requires MAX_RETRIES <= |attempts|
    requires StopsAt(attempts, i) && StopsAt(attempts, j)
    ensures i == j
  {
  }

  /** Three locks in a row give up with `null`. */
  lemma ThreeLocksGiveUp<T>(attempts: seq<Attempt<T>>)
    requires MAX_RETRIES <= |attempts|
    requires attempts[0].Locked? && attempts[1].Locked? && attempts[2].Locked?
    ensures RunWithRetry(attempts) == None
  {
    RunWithRetryMeans(attempts, 2);
  }

  /** What the database does to one attempt of a unit of work: lets it run (`Ok(())`) or fails it. */
  type Environment = seq<Attempt<()>>

  /** The attempts of a unit of work that, whenever the database lets it run, ends with `work`. */
  function RunEach<T>(env: Environment, work: Attempt<T>): (r: seq<Attempt<T>>)
    ensures |r| == |env|
    ensures forall i :: 0 <= i < |env| && env[i].Ok? ==> r[i] == work
    ensures forall i :: 0 <= i < |env| && !env[i].Ok? ==> (r[i].Locked? <==> env[i].Locked?) && !r[i].Ok?
  {
    seq(|env|, i requires 0 <= i < |env| =>
      match env[i]
      case Ok(_) => work
      case Locked => Locked
      case OtherError => OtherError
      case Interrupted => Interrupted)
  }

  /** Every run stops at some attempt. */
  lemma StopsSomewhere<T>(attempts: seq<Attempt<T>>)
    requires MAX_RETRIES <= |attempts|
    ensures exists i :: StopsAt(attempts, i)
  {
    if !attempts[0].Locked? {
      assert StopsAt(attempts, 0);
    } else if !attempts[1].Locked? {
      assert StopsAt(attempts, 1);
    } else {
      assert StopsAt(attempts, 2);
    }
  }

  /**
   * A unit of work whose own outcome does not depend on the attempt (the
   * store is unchanged by a failed attempt) yields its value exactly when the
   * database lets one attempt run within the bound.
   */
  lemma RunEachRetry<T>(env: Environment, work: Attempt<T>)
    requires MAX_RETRIES <= |env|
    requires !work.Locked?
    ensures RunWithRetry(RunEach(env, work)) == if RunWithRetry(env).Some? && work.Ok? then Some(work.value) else None
  {
    StopsSomewhere(env);
    var i :| StopsAt(env, i);
    var r := RunEach(env, work);
    assert StopsAt(r, i);
    RunWithRetryMeans(env, i);
    RunWithRetryMeans(r, i);
  }

  /**
   * The loop of the source. `tries` is the number of attempts made;
   * `interruptFlag` tells whether the thread's interrupt status was set again
   * after an interrupted sleep.
   */
  method ExecuteWithRetry<T>(attempts: seq<Attempt<T>>) returns (r: Option<T>, tries: nat, interruptFlag: bool)
    requires MAX_RETRIES <= |attempts|
    ensures 1 <= tries <= MAX_RETRIES
    ensures forall j :: 0 <= j < tries - 1 ==> attempts[j].Locked?
    ensures r.Some? <==> attempts[tries - 1].Ok?
    ensures r.Some? ==> r.value == attempts[tries - 1].value
    ensures tries < MAX_RETRIES ==> !attempts[tries - 1].Locked?
    ensures interruptFlag <==> tries < MAX_RETRIES && attempts[tries - 1].Interrupted?
    ensures r == RunWithRetry(attempts)
  {
    var retries: nat := 0;
    r := None;
    tries := 0;
    interruptFlag := false;
    while retries < MAX_RETRIES
      invariant retries <= MAX_RETRIES && tries == retries
      invariant forall j :: 0 <= j < retries ==> attempts[j].Locked?
      invariant retries < MAX_RETRIES ==> RunWithRetry(attempts) == RetryFrom(attempts, retries)
      invariant !interruptFlag && r == None
      decreases MAX_RETRIES - retries
    {
      tries := tries + 1;
      match attempts[retries] {
        case Ok(v) =>
          r := Some(v);
          return;
        case Locked =>
          if retries < MAX_RETRIES - 1 {
            retries := retries + 1;
          } else {
            return;
          }
        case Interrupted =>
          if retries < MAX_RETRIES - 1 {
            retries := retries + 1;
            interruptFlag := true;
            return;
          } else {
            return;
          }
        case OtherError =>
          return;
      }
    }
  }
}
