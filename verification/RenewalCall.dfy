/**
 The call itself, written in the order of the program, in a world where every other caller and every login or logout
 may act between any two of its steps. It is shown to take exactly the steps of the protocol, so everything proved
 of runs holds of it.
 */
module RenewalCall {
  import opened Wrappers
  import opened Bytes
  import opened Integers
  import opened Credential
  import opened Renewal
  import opened RenewalSafety
  import opened RenewalDue

  /** Everything the caller does not decide, as functions of the time of asking: what others do before its next step,
      the clock, and how the store, the lock, the endpoint and the operation answer. Nothing is assumed of it. */
  datatype Environment = Environment(
    others: nat -> seq<Action>,
    fault: nat -> bool,
    clock: nat -> U64,
    refusal: nat -> Option<LockError>,
    reply: nat -> Result<RefreshResponse, RefreshError>,
    outcome: nat -> Outcome)

  /** What all callers share. `trace` is the run that led here. */
  class World {
    const lib: Library
    const env: Environment
    var tick: nat
    ghost const first: Option<Bytes>
    var now: State
    ghost var trace: seq<Action>

    ghost predicate Valid()
      reads this
    {
      Reachable(lib, first, trace, now)
    }

    // Where a caller stands, its counters apart.
    ghost predicate At(
      pid: Pid, pc: Pc, attempted: Option<Snapshot>, contacted: bool, outcome: Option<Outcome>,
      chosen: Option<Snapshot>)
      reads this
    {
      pid in now.callers &&
      var c := now.callers[pid];
      c == Caller(pc, attempted, contacted, outcome, chosen, c.tally)
    }

    // Nobody else acts, and the store never fails.
    ghost predicate Alone()
      reads this
    {
      forall t :: env.others(t) == []
    }

    ghost predicate StoreWorks()
      reads this
    {
      forall t :: !env.fault(t)
    }

    constructor (lib: Library, env: Environment, store: Option<Bytes>)
      ensures Valid() && this.lib == lib && this.env == env
      ensures first == store && now == Initial(store) && trace == []
    {
      this.lib, this.env, this.first, this.tick := lib, env, store, 0;
      this.now, this.trace := Initial(store), [];
    }

    method Take(a: Action)
      requires Valid() && Step(lib, now, a).Some?
      modifies this
      ensures Valid() && trace == old(trace) + [a] && Some(now) == Step(lib, old(now), a)
    {
      RunThen(lib, Initial(first), trace, a);
      now := Step(lib, now, a).value;
      trace := trace + [a];
    }

    // Any number of steps of others, other callers, logins and logouts, and the passing of time.
    method Interfere(pid: Pid)
      requires Valid() && pid in now.callers
      modifies this
      ensures Valid() && old(trace) <= trace
      ensures pid in now.callers && now.callers[pid] == old(now.callers[pid])
      ensures Alone() ==> now == old(now)
    {
      var others := env.others(tick);
      tick := tick + 1;
      for i := 0 to |others|
        invariant Valid() && old(trace) <= trace
        invariant pid in now.callers && now.callers[pid] == old(now.callers[pid])
        invariant Alone() ==> now == old(now)
      {
        var a := others[i];
        if (!IsCallerAction(a) || a.pid != pid) && Step(lib, now, a).Some? {
          OthersLeaveAlone(lib, now, a, Step(lib, now, a).value, pid);
          Take(a);
        }
      }
    }

    method ReadStore(pid: Pid) returns (r: Result<Snapshot, UseError>)
      requires Valid() && pid in now.callers && now.callers[pid] == FRESH
      modifies this
      ensures Valid() && old(trace) <= trace
      ensures r.Ok? ==> At(pid, Loaded, Some(r.value), false, None, None)
      ensures r.Err? ==> At(pid, Finished(Failed(r.error)), None, false, None, None)
      ensures Alone() && StoreWorks() ==> r == ReadRenewable(lib, old(now.store), false)
    {
      Interfere(pid);
      var fault := env.fault(tick);
      r := ReadRenewable(lib, now.store, fault);
      TakesEffect(lib, now, Read(pid, fault), ReadEffect(lib, now.callers[pid], now.store, fault));
      Take(Read(pid, fault));
    }

    method CheckDue(pid: Pid, held: Snapshot) returns (due: bool)
      requires Valid() && At(pid, Loaded, Some(held), false, None, None)
      modifies this
      ensures Valid() && old(trace) <= trace
      ensures At(pid, if due then Locking else Operating, Some(held), false, None, None)
      ensures exists t :: due <==> held.record.expiresAt.None? || held.record.expiresAt.value <= env.clock(t) + 300
    {
      Interfere(pid);
      var clock := env.clock(tick);
      due := RefreshDue(held.record, clock);
      TakesEffect(lib, now, Check(pid, clock), CheckEffect(now.callers[pid], held.record, clock));
      Take(Check(pid, clock));
    }

    method AcquireLock(pid: Pid, held: Snapshot, contacted: bool, outcome: Option<Outcome>)
      returns (refusal: Option<LockError>)
      requires Valid() && At(pid, Locking, Some(held), contacted, outcome, None)
      modifies this
      ensures Valid() && old(trace) <= trace
      ensures refusal.None? ==> At(pid, Rereading, Some(held), contacted, outcome, None)
      ensures refusal.Some? ==>
                At(pid, Finished(Failed(MapLock(refusal.value))), Some(held), contacted, outcome, None)
      ensures Alone() && old(now.lock).None? ==> exists t :: refusal == env.refusal(t)
    {
      Interfere(pid);
      refusal := env.refusal(tick);
      if now.lock.Some? && refusal.None? {
        refusal := Some(Busy);
      }
      TakesEffect(lib, now, Acquire(pid, refusal), AcquireEffect(now.callers[pid], refusal));
      Take(Acquire(pid, refusal));
    }

    method RereadStore(pid: Pid, held: Snapshot, contacted: bool, outcome: Option<Outcome>)
      returns (r: Result<Snapshot, UseError>)
      requires Valid() && At(pid, Rereading, Some(held), contacted, outcome, None)
      modifies this
      ensures Valid() && old(trace) <= trace
      ensures r.Err? ==> At(pid, Releasing(Some(Failed(r.error))), Some(held), contacted, outcome, None)
      ensures r.Ok? && r.value.bytes != held.bytes && outcome.None? ==>
                At(pid, Releasing(None), Some(r.value), contacted, outcome, None)
      ensures r.Ok? && r.value.bytes != held.bytes && outcome.Some? ==>
                At(pid, Releasing(None), Some(held), contacted, outcome, Some(r.value))
      ensures r.Ok? && r.value.bytes == held.bytes ==>
                At(pid, if outcome.Some? && contacted then Releasing(Some(Returned(outcome.value))) else Sending,
                   Some(held), contacted, outcome, None)
      ensures Alone() && StoreWorks() ==> r == ReadRenewable(lib, old(now.store), false)
    {
      Interfere(pid);
      var fault := env.fault(tick);
      r := ReadRenewable(lib, now.store, fault);
      TakesEffect(lib, now, Reread(pid, fault), RereadEffect(lib, now.callers[pid], held, now.store, fault));
      Take(Reread(pid, fault));
    }

    method SendRefresh(pid: Pid, held: Snapshot, outcome: Option<Outcome>)
      requires Valid() && At(pid, Sending, Some(held), false, outcome, None)
      modifies this
      ensures Valid() && old(trace) <= trace
      ensures At(pid, Awaiting, Some(held), outcome.None?, outcome, None)
    {
      Interfere(pid);
      TakesEffect(lib, now, Send(pid), SendEffect(now.callers[pid], held));
      Take(Send(pid));
    }

    method AwaitReply(pid: Pid, held: Snapshot, contacted: bool, outcome: Option<Outcome>)
      returns (reply: Result<RefreshResponse, RefreshError>, clock: U64)
      requires Valid() && At(pid, Awaiting, Some(held), contacted, outcome, None)
      modifies this
      ensures Valid() && old(trace) <= trace
      ensures var next := Refreshed(lib, held.record, reply, clock);
              At(pid, if next.Ok? then Replacing(next.value) else Releasing(Some(Failed(next.error))),
                 Some(held), contacted, outcome, None)
      ensures exists t :: reply == env.reply(t) && clock == env.clock(t)
    {
      Interfere(pid);
      reply, clock := env.reply(tick), env.clock(tick);
      TakesEffect(lib, now, Reply(pid, reply, clock), ReplyEffect(lib, now.callers[pid], held, reply, clock));
      Take(Reply(pid, reply, clock));
    }

    method ReplaceStore(pid: Pid, held: Snapshot, next: Snapshot, contacted: bool, outcome: Option<Outcome>)
      returns (stored: bool)
      requires Valid() && At(pid, Replacing(next), Some(held), contacted, outcome, None)
      modifies this
      ensures Valid() && old(trace) <= trace
      ensures stored && outcome.None? ==> At(pid, Releasing(None), Some(next), contacted, outcome, None)
      ensures stored && outcome.Some? ==> At(pid, Releasing(None), Some(held), contacted, outcome, Some(next))
      ensures !stored ==>
                At(pid, Releasing(Some(Failed(StoreUnavailable))), Some(held), contacted, outcome, None)
      ensures StoreWorks() ==> stored
    {
      Interfere(pid);
      stored := !env.fault(tick);
      TakesEffect(lib, now, Replace(pid, !stored), ReplaceEffect(now.callers[pid], next, !stored));
      Take(Replace(pid, !stored));
    }

    method ReleaseLock(
      pid: Pid, exit: Option<CallResult>, ghost attempted: Option<Snapshot>, ghost contacted: bool,
      ghost outcome: Option<Outcome>, ghost chosen: Option<Snapshot>)
      requires Valid() && At(pid, Releasing(exit), attempted, contacted, outcome, chosen)
      modifies this
      ensures Valid() && old(trace) <= trace
      ensures At(pid, if exit.Some? then Finished(exit.value) else Operating, attempted, contacted, outcome, chosen)
    {
      Interfere(pid);
      TakesEffect(lib, now, Release(pid), ReleaseEffect(now.callers[pid], exit));
      Take(Release(pid));
    }

    // The operation is given the record of `handed` and returns anything.
    method RunOperation(
      pid: Pid, handed: Snapshot, ghost attempted: Option<Snapshot>, ghost contacted: bool, first: Option<Outcome>,
      ghost chosen: Option<Snapshot>)
      returns (outcome: Outcome)
      requires Valid() && At(pid, Operating, attempted, contacted, first, chosen)
      requires (if first.None? then attempted else chosen) == Some(handed)
      modifies this
      ensures Valid() && old(trace) <= trace
      ensures if first.None? && outcome.Rejected? && outcome.unauthorized
              then At(pid, Locking, attempted, contacted, Some(outcome), chosen)
              else At(pid, Finished(Returned(outcome)), attempted, contacted, first, chosen)
      ensures exists t :: outcome == env.outcome(t)
    {
      Interfere(pid);
      outcome := env.outcome(tick);
      TakesEffect(lib, now, Operate(pid, outcome), OperateEffect(now.callers[pid], outcome));
      Take(Operate(pid, outcome));
    }

    // Spends the refresh token of the held record and stores what comes back; the lock is still held.
    method RefreshAndStore(pid: Pid, held: Snapshot, outcome: Option<Outcome>) returns (r: Result<Snapshot, UseError>)
      requires Valid() && At(pid, Sending, Some(held), false, outcome, None)
      modifies this
      ensures Valid() && old(trace) <= trace
      ensures r.Err? ==> At(pid, Releasing(Some(Failed(r.error))), Some(held), outcome.None?, outcome, None)
      ensures r.Ok? && outcome.None? ==> At(pid, Releasing(None), Some(r.value), true, outcome, None)
      ensures r.Ok? && outcome.Some? ==> At(pid, Releasing(None), Some(held), false, outcome, Some(r.value))
      ensures StoreWorks() ==> exists t :: r == Refreshed(lib, held.record, env.reply(t), env.clock(t))
    {
      SendRefresh(pid, held, outcome);
      var reply, clock := AwaitReply(pid, held, outcome.None?, outcome);
      if reply.Err? {
        return Err(MapRefresh(reply.error));
      }
      var replacement := ApplyRefresh(lib, held.record, reply.value, clock);
      if replacement.Err? {
        return Err(InvalidCredential);
      }
      var serialized := lib.encode(replacement.value);
      if serialized.None? {
        return Err(InvalidCredential);
      }
      var next := Snapshot(serialized.value, replacement.value);
      var stored := ReplaceStore(pid, held, next, outcome.None?, outcome);
      if !stored {
        return Err(StoreUnavailable);
      }
      return Ok(next);
    }

    /** One call of the renewal entry point, from a caller's first step to its result. With more than five minutes left
        on the credential it read, and no unauthorized outcome, it neither locks nor refreshes. */
    method WithRenewableCredential(pid: Pid) returns (result: CallResult)
      requires Valid() && pid !in now.callers
      modifies this
      ensures Valid() && old(trace) <= trace
      ensures pid in now.callers && now.callers[pid].pc == Finished(result)
      ensures var check := CheckOf(lib, first, trace, pid);
              && (result.Returned? ==> check.Some?)
              && (check.Some? && HasTime(check.value) && now.callers[pid].first.None? ==>
                    && result.Returned? && Counts(trace, pid).lockings == 0 && Counts(trace, pid).requests == 0)
              && (check.Some? && !HasTime(check.value) && result.Returned? ==> Counts(trace, pid).lockings > 0)
    {
      result := RunCall(pid);
      CallersFollow(lib, first, trace, now, pid);
      TalliesCount(lib, first, trace, now, pid);
    }

    method RunCall(pid: Pid) returns (result: CallResult)
      requires Valid() && pid !in now.callers
      modifies this
      ensures Valid() && old(trace) <= trace
      ensures pid in now.callers && now.callers[pid].pc == Finished(result)
    {
      Take(Start(pid));
      var read := ReadStore(pid);
      if read.Err? {
        return Failed(read.error);
      }
      var due := CheckDue(pid, read.value);
      var attempted, contacted := read.value, false;
      if due {
        var renewed := Renew(pid, read.value);
        if renewed.Err? {
          return Failed(renewed.error);
        }
        attempted, contacted := renewed.value.0, renewed.value.1;
      }
      var first := RunOperation(pid, attempted, Some(attempted), contacted, None, None);
      if first.Succeeded? || !first.unauthorized {
        return Returned(first);
      }
      result := Replay(pid, attempted, contacted, first);
    }

    // The half of the call that precedes the operation where the record is about to expire.
    method Renew(pid: Pid, attempted: Snapshot) returns (r: Result<(Snapshot, bool), UseError>)
      requires Valid() && At(pid, Locking, Some(attempted), false, None, None)
      modifies this
      ensures Valid() && old(trace) <= trace
      ensures r.Ok? ==> At(pid, Operating, Some(r.value.0), r.value.1, None, None)
      ensures r.Err? ==> pid in now.callers && now.callers[pid].pc == Finished(Failed(r.error))
    {
      var refusal := AcquireLock(pid, attempted, false, None);
      if refusal.Some? {
        return Err(MapLock(refusal.value));
      }
      var reread := RereadStore(pid, attempted, false, None);
      if reread.Err? {
        ReleaseLock(pid, Some(Failed(reread.error)), Some(attempted), false, None, None);
        return Err(reread.error);
      }
      if reread.value.bytes != attempted.bytes {
        ReleaseLock(pid, None, Some(reread.value), false, None, None);
        return Ok((reread.value, false));
      }
      var next := RefreshAndStore(pid, attempted, None);
      if next.Err? {
        ReleaseLock(pid, Some(Failed(next.error)), Some(attempted), true, None, None);
        return Err(next.error);
      }
      ReleaseLock(pid, None, Some(next.value), true, None, None);
      return Ok((next.value, true));
    }

    // The half of the call that follows an unauthorized first outcome.
    method Replay(pid: Pid, attempted: Snapshot, contacted: bool, first: Outcome) returns (result: CallResult)
      requires Valid() && At(pid, Locking, Some(attempted), contacted, Some(first), None)
      modifies this
      ensures Valid() && old(trace) <= trace
      ensures pid in now.callers && now.callers[pid].pc == Finished(result)
    {
      var refusal := AcquireLock(pid, attempted, contacted, Some(first));
      if refusal.Some? {
        return Failed(MapLock(refusal.value));
      }
      var reread := RereadStore(pid, attempted, contacted, Some(first));
      if reread.Err? {
        ReleaseLock(pid, Some(Failed(reread.error)), Some(attempted), contacted, Some(first), None);
        return Failed(reread.error);
      }
      var replayed := reread.value;
      if reread.value.bytes == attempted.bytes {
        if contacted {
          ReleaseLock(pid, Some(Returned(first)), Some(attempted), contacted, Some(first), None);
          return Returned(first);
        }
        var next := RefreshAndStore(pid, attempted, Some(first));
        if next.Err? {
          ReleaseLock(pid, Some(Failed(next.error)), Some(attempted), contacted, Some(first), None);
          return Failed(next.error);
        }
        replayed := next.value;
      }
      ReleaseLock(pid, None, Some(attempted), contacted, Some(first), Some(replayed));
      var outcome := RunOperation(pid, replayed, Some(attempted), contacted, Some(first), Some(replayed));
      return Returned(outcome);
    }
  }

  lemma OthersLeaveAlone(lib: Library, s: State, a: Action, t: State, pid: Pid)
    requires Step(lib, s, a) == Some(t) && pid in s.callers && (!IsCallerAction(a) || a.pid != pid)
    ensures pid in t.callers && t.callers[pid] == s.callers[pid]
  {
  }

  lemma TakesEffect(lib: Library, s: State, a: Action, e: Effect)
    requires IsCallerAction(a) && a.pid in s.callers
    requires EffectOf(lib, s.callers[a.pid], s.store, s.lock.None?, a) == Some(e)
    ensures Step(lib, s, a) == Some(Perform(s, a.pid, e)) && Perform(s, a.pid, e).callers[a.pid] == e.caller
  {
  }
}
