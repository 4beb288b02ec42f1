/**
 The wait for the refresh lock: try, and while somebody else holds it sleep and try again until the wait times out.
 Durations are whole nanoseconds. The clock, the sleeper and the operating system's answers are arbitrary, except that
 the clock never runs backwards and a sleep lasts at least as long as it was asked to.
 */
module RefreshLock {
  import opened Wrappers

  datatype LockError = Busy | Unavailable

  datatype Attempt = Acquired | WouldBlock | Broken

  const WAIT_TIMEOUT: nat := 65 * 1_000_000_000
  const POLL_INTERVAL: nat := 50 * 1_000_000

  /** `ready`: the private directory could be prepared and the lock file opened. `late` is how much longer than asked
      each sleep lasts, `drift` what passes between a try and reading the clock. */
  datatype Schedule = Schedule(ready: bool, attempt: nat -> Attempt, late: nat -> nat, drift: nat -> nat)

  ghost predicate Punctual(schedule: Schedule) {
    forall i: nat :: schedule.late(i) == 0 && schedule.drift(i) == 0
  }

  class LockFile {
    const schedule: Schedule
    var time: nat
    var tries: nat
    var sleeps: nat

    constructor (schedule: Schedule, time: nat)
      ensures this.schedule == schedule && this.time == time && tries == 0 && sleeps == 0
    {
      this.schedule, this.time, this.tries, this.sleeps := schedule, time, 0, 0;
    }

    method TryLock() returns (attempt: Attempt)
      modifies this
      ensures attempt == schedule.attempt(old(tries)) && tries == old(tries) + 1
      ensures sleeps == old(sleeps) && time == old(time) + schedule.drift(old(tries))
    {
      attempt := schedule.attempt(tries);
      time := time + schedule.drift(tries);
      tries := tries + 1;
    }

    method Sleep(duration: nat)
      modifies this
      ensures time == old(time) + duration + schedule.late(old(sleeps))
      ensures sleeps == old(sleeps) + 1 && tries == old(tries)
    {
      time := time + duration + schedule.late(sleeps);
      sleeps := sleeps + 1;
    }

    /** Without a lock file there is no wait. Otherwise it ends after at most ceil(timeout / interval) sleeps; it
        reports the first answer other than "somebody else has it", and gives up only once the timeout has passed and
        the lock was still taken at every try. */
    method Acquire(waitTimeout: nat, pollInterval: nat) returns (r: Result<(), LockError>)
      requires pollInterval > 0 && tries == 0 && sleeps == 0
      modifies this
      ensures !schedule.ready ==> r == Err(Unavailable) && tries == 0 && sleeps == 0 && time == old(time)
      ensures sleeps <= CeilDiv(waitTimeout, pollInterval)
      ensures schedule.ready ==> tries == sleeps + 1
      ensures forall i: nat | i < tries - 1 :: schedule.attempt(i) == WouldBlock
      ensures schedule.ready ==>
              match r
              case Ok(_) => schedule.attempt(tries - 1) == Acquired
              case Err(Unavailable) => schedule.attempt(tries - 1) == Broken
              case Err(Busy) => schedule.attempt(tries - 1) == WouldBlock && time - old(time) >= waitTimeout
      // the bound is reached: on a punctual schedule, giving up takes exactly that many sleeps
      ensures r == Err(Busy) && Punctual(schedule) ==> sleeps == CeilDiv(waitTimeout, pollInterval)
    {
      if !schedule.ready {
        return Err(Unavailable);
      }
      var started := time;
      while true
        invariant tries == sleeps && started == old(time) <= time
        invariant forall i: nat | i < tries :: schedule.attempt(i) == WouldBlock
        invariant sleeps * pollInterval <= time - started
        invariant Punctual(schedule) ==> sleeps * pollInterval == time - started
        invariant sleeps > 0 ==> (sleeps - 1) * pollInterval < waitTimeout
        decreases waitTimeout - sleeps * pollInterval
      {
        var attempt := TryLock();
        if attempt == Acquired {
          SleepBound(sleeps, pollInterval, waitTimeout);
          return Ok(());
        } else if attempt == WouldBlock {
          var elapsed := time - started;
          if elapsed >= waitTimeout {
            SleepBound(sleeps, pollInterval, waitTimeout);
            if Punctual(schedule) {
              SleepsReached(sleeps, pollInterval, waitTimeout);
            }
            return Err(Busy);
          }
          Distribute(sleeps, 1, pollInterval);
          Sleep(pollInterval);
        } else {
          SleepBound(sleeps, pollInterval, waitTimeout);
          return Err(Unavailable);
        }
      }
    }
  }

  function CeilDiv(a: nat, b: nat): (n: nat)
    requires b > 0
    ensures a <= n * b < a + b
  {
    (a + b - 1) / b
  }

  lemma Distribute(a: int, b: int, k: nat)
    ensures (a + b) * k == a * k + b * k
  {
  }

  lemma Monotone(a: int, b: int, k: nat)
    requires a >= b
    ensures a * k >= b * k
  {
    Distribute(b, a - b, k);
  }

  lemma SleepBound(sleeps: nat, interval: nat, timeout: nat)
    requires interval > 0 && (sleeps > 0 ==> (sleeps - 1) * interval < timeout)
    ensures sleeps <= CeilDiv(timeout, interval)
  {
    if sleeps > CeilDiv(timeout, interval) {
      Monotone(sleeps - 1, CeilDiv(timeout, interval), interval);
    }
  }

  lemma SleepsReached(sleeps: nat, interval: nat, timeout: nat)
    requires interval > 0 && sleeps * interval >= timeout
    ensures sleeps >= CeilDiv(timeout, interval)
  {
    var n: int := CeilDiv(timeout, interval);
    Distribute(n, -1, interval);
    if sleeps <= n - 1 {
      Monotone(n - 1, sleeps, interval);
    }
  }

  lemma ProductionWaitsAtMost1300Sleeps()
    ensures CeilDiv(WAIT_TIMEOUT, POLL_INTERVAL) == 1300
  {
  }
}
