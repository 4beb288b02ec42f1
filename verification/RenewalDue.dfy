/**
 When a call refreshes: not before its first operation if the credential it read has more than five minutes left, and
 never without the lock.
 */
module RenewalDue {
  import opened Wrappers
  import opened Bytes
  import opened Integers
  import opened Credential
  import opened Renewal
  import opened RenewalSafety

  /** The record a caller read and the time at which it looked at the clock, once it has. */
  ghost function CheckOf(lib: Library, store: Option<Bytes>, actions: seq<Action>, pid: Pid): Option<(Record, U64)> {
    if actions == [] then None
    else
      var front, a := actions[..|actions| - 1], actions[|actions| - 1];
      var before := Run(lib, Initial(store), front);
      if a.Check? && a.pid == pid && before.Some? && pid in before.value.callers
         && before.value.callers[pid].attempted.Some?
      then Some((before.value.callers[pid].attempted.value.record, a.now))
      else CheckOf(lib, store, front, pid)
  }

  /** More than five minutes are left. */
  predicate HasTime(check: (Record, U64)) {
    check.0.expiresAt.Some? && check.0.expiresAt.value > check.1 + 300
  }

  // What is known of a caller from its look at the clock.
  ghost predicate Follows(c: Caller, check: Option<(Record, U64)>) {
    match check
    case None =>
      && c.first.None? && c.tally.lockings == 0 && c.tally.requests == 0 && c.tally.writes == 0
      && c.tally.operations == 0
      && (match c.pc
          case Begin => c.tally.lookups == 0
          case Loaded => c.tally.lookups == 1
          case Finished(result) => result.Failed?
          case Crashed => true
          case _ => false)
    case Some((record, now)) =>
      && !c.pc.Begin? && !c.pc.Loaded?
      && if HasTime((record, now)) then
        c.first.None? ==>
          && c.tally.lookups == 1 && c.tally.lockings == 0 && c.tally.requests == 0 && c.tally.writes == 0
          && c.attempted.Some? && c.attempted.value.record == record
          && (match c.pc
              case Operating => c.tally.operations == 0
              case Finished(result) => c.tally.operations == 1 && result.Returned?
              case Crashed => c.tally.operations <= 1
              case _ => false)
      else
        c.tally.lockings == 0 ==>
          c.first.None? && c.tally.operations == 0 && c.tally.requests == 0 && (c.pc.Locking? || c.pc.Crashed?)
  }

  lemma EffectFollows(
    lib: Library, c: Caller, store: Option<Bytes>, free: bool, a: Action, e: Effect, check: Option<(Record, U64)>)
    requires Follows(c, check) && IsCallerAction(a) && EffectOf(lib, c, store, free, a) == Some(e)
    requires c.pc.Begin? ==> check.None?
    requires c.pc.Loaded? ==> check.None?
    ensures if a.Check? then c.attempted.Some? && Follows(e.caller, Some((c.attempted.value.record, a.now)))
            else Follows(e.caller, check)
  {
    match a
    case Reread(_, fault) => RereadFollows(lib, c, c.attempted.value, store, fault, check);
    case Operate(_, outcome) => OperateFollows(c, outcome, check);
    case _ =>
  }

  lemma RereadFollows(
    lib: Library, c: Caller, attempted: Snapshot, store: Option<Bytes>, fault: bool, check: Option<(Record, U64)>)
    requires Follows(c, check) && c.pc.Rereading? && c.attempted == Some(attempted)
    ensures Follows(RereadEffect(lib, c, attempted, store, fault).caller, check)
  {
  }

  lemma OperateFollows(c: Caller, outcome: Outcome, check: Option<(Record, U64)>)
    requires Follows(c, check) && c.pc.Operating?
    ensures Follows(OperateEffect(c, outcome).caller, check)
  {
  }

  lemma {:induction false} CallersFollow(
    lib: Library, store: Option<Bytes>, actions: seq<Action>, s: State, pid: Pid)
    requires Reachable(lib, store, actions, s)
    ensures pid in s.callers ==> Follows(s.callers[pid], CheckOf(lib, store, actions, pid))
    ensures pid !in s.callers ==> CheckOf(lib, store, actions, pid).None?
    decreases |actions|
  {
    if actions != [] {
      var front, a := actions[..|actions| - 1], actions[|actions| - 1];
      var before := Run(lib, Initial(store), front).value;
      CallersFollow(lib, store, front, before, pid);
      if IsCallerAction(a) && a.pid == pid {
        var e := EffectOf(lib, before.callers[pid], before.store, before.lock.None?, a).value;
        EffectFollows(lib, before.callers[pid], before.store, before.lock.None?, a, e,
                      CheckOf(lib, store, front, pid));
      }
    }
  }

  /** A call whose credential had more than five minutes left when it looked at the clock reads the store once and runs
      its operation with that credential, without asking for the lock or contacting the endpoint: that is all it does
      until an operation comes back unauthorized. */
  lemma CredentialsWithTimeAreUsedAtOnce(
    lib: Library, store: Option<Bytes>, actions: seq<Action>, s: State, pid: Pid)
    requires Reachable(lib, store, actions, s) && CheckOf(lib, store, actions, pid).Some?
    requires HasTime(CheckOf(lib, store, actions, pid).value)
    ensures pid in s.callers
    ensures var n := Counts(actions, pid);
            s.callers[pid].first.None? ==>
              && n.lookups == 1 && n.lockings == 0 && n.requests == 0 && n.writes == 0 && n.operations <= 1
              && (n.operations == 0 && !s.callers[pid].pc.Crashed? ==>
                    && s.callers[pid].pc == Operating && Handed(s.callers[pid]).Some?
                    && Handed(s.callers[pid]).value.record == CheckOf(lib, store, actions, pid).value.0)
  {
    CallersFollow(lib, store, actions, s, pid);
    TalliesCount(lib, store, actions, s, pid);
  }

  /** And with no more than that left, or none known, no operation is run before the lock was asked for. */
  lemma DueCredentialsAreLockedFirst(
    lib: Library, store: Option<Bytes>, actions: seq<Action>, s: State, pid: Pid)
    requires Reachable(lib, store, actions, s) && CheckOf(lib, store, actions, pid).Some?
    requires var (record, now) := CheckOf(lib, store, actions, pid).value;
             record.expiresAt.None? || record.expiresAt.value <= now + 300
    ensures var n := Counts(actions, pid); n.operations > 0 || n.requests > 0 ==> n.lockings > 0
  {
    CallersFollow(lib, store, actions, s, pid);
    TalliesCount(lib, store, actions, s, pid);
  }
}
