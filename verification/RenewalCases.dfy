/** What a call comes to in each case: what it adopts, what it stores and uses, and which failure is told as which. */
module RenewalCases {
  import opened Wrappers
  import opened Bytes
  import opened Integers
  import opened Credential
  import opened Renewal
  import opened RenewalGaps

  // The step is possible and leaves the caller there.
  ghost predicate Becomes(lib: Library, s: State, a: Action, pid: Pid, pc: Pc) {
    && Step(lib, s, a).Some?
    && pid in Step(lib, s, a).value.callers && Step(lib, s, a).value.callers[pid].pc == pc
  }

  // What looking at the store gives, a failure as it is told.
  ghost predicate Finds(lib: Library, store: Option<Bytes>, found: Result<Snapshot, UseError>) {
    match store
    case None => found == Err(NotConnected)
    case Some(bytes) =>
      match DeserializeStructural(lib, bytes)
      case Ok(record) => found == Ok(Snapshot(bytes, record))
      case Err(error) =>
        found == Err(if error == StoredError.UnsupportedVersion then StoredVersionUnsupported else InvalidCredential)
  }

  lemma Reading(lib: Library, s: State, pid: Pid, found: Result<Snapshot, UseError>)
    requires pid in s.callers && s.callers[pid].pc == Begin && Finds(lib, s.store, found)
    ensures Becomes(lib, s, Read(pid, true), pid, Finished(Failed(StoreUnavailable)))
    ensures found.Err? ==> Becomes(lib, s, Read(pid, false), pid, Finished(Failed(found.error)))
    ensures found.Ok? ==> && Becomes(lib, s, Read(pid, false), pid, Loaded)
                          && Step(lib, s, Read(pid, false)).value.callers[pid].attempted == Some(found.value)
  {
  }

  lemma LockingSteps(lib: Library, s: State, pid: Pid)
    requires pid in s.callers && s.callers[pid].pc == Locking
    ensures Becomes(lib, s, Acquire(pid, Some(Busy)), pid, Finished(Failed(RefreshCoordinationBusy)))
    ensures Becomes(lib, s, Acquire(pid, Some(LockError.Unavailable)), pid, Finished(Failed(StoreUnavailable)))
    ensures s.lock.None? ==> && Becomes(lib, s, Acquire(pid, None), pid, Rereading)
                             && Step(lib, s, Acquire(pid, None)).value.lock == Some(pid)
    ensures s.lock.Some? ==> Step(lib, s, Acquire(pid, None)).None?
  {
  }

  /** Where the lock is held. */
  ghost predicate In(s: State, pid: Pid, pc: Pc) {
    pid in s.callers && s.callers[pid].pc == pc && s.callers[pid].attempted.Some?
  }

  // Letting go of the lock is all that is left to do.
  lemma Leaves(lib: Library, s: State, pid: Pid, exit: Option<CallResult>) returns (t: State)
    requires In(s, pid, Releasing(exit))
    ensures Step(lib, s, Release(pid)) == Some(t)
    ensures t == State(s.store, None, s.callers[pid := s.callers[pid].(
                         pc := if exit.Some? then Finished(exit.value) else Operating)], s.ever, s.sent)
  {
    t := Step(lib, s, Release(pid)).value;
  }

  /** A reread that fails, or finds nothing it can use, ends the call with the same failures as a read, and the lock is
      let go. */
  lemma FailedRereads(lib: Library, s: State, pid: Pid, fault: bool, found: Result<Snapshot, UseError>)
    returns (t: State)
    requires In(s, pid, Rereading) && Finds(lib, s.store, found) && (fault || found.Err?)
    ensures Leads(lib, s, [Reread(pid, fault), Release(pid)], t)
    ensures t.callers[pid].pc == Finished(Failed(if fault then StoreUnavailable else found.error))
    ensures t.lock.None? && t.store == s.store && t.sent == s.sent
  {
    var mid := Step(lib, s, Reread(pid, fault)).value;
    t := Leaves(lib, mid, pid, mid.callers[pid].pc.exit);
    TwoSteps(lib, s, Reread(pid, fault), mid, Release(pid), t);
  }

  lemma TwoSteps(lib: Library, s: State, a: Action, mid: State, b: Action, t: State)
    requires Step(lib, s, a) == Some(mid) && Step(lib, mid, b) == Some(t)
    ensures Leads(lib, s, [a, b], t)
  {
    Then(lib, s, [], s, a, mid);
    Then(lib, s, [] + [a], mid, b, t);
    assert [] + [a] + [b] == [a, b];
  }

  /** A record that somebody else has stored meanwhile is adopted, without a request: the operation that follows is
      given it and nothing else. */
  lemma WinnersAreAdopted(lib: Library, s: State, pid: Pid, winner: Snapshot) returns (t: State)
    requires In(s, pid, Rereading) && s.store == Some(winner.bytes)
    requires DeserializeStructural(lib, winner.bytes) == Ok(winner.record)
    requires winner.bytes != s.callers[pid].attempted.value.bytes
    ensures Leads(lib, s, [Reread(pid, false), Release(pid)], t)
    ensures pid in t.callers && t.callers[pid].pc == Operating && Handed(t.callers[pid]) == Some(winner)
    ensures t.lock.None? && t.store == s.store && t.sent == s.sent
  {
    var mid := Step(lib, s, Reread(pid, false)).value;
    t := Leaves(lib, mid, pid, None);
    TwoSteps(lib, s, Reread(pid, false), mid, Release(pid), t);
  }

  /** After its own refresh a call does not refresh again: a second refusal of the same bytes is its result. */
  lemma OwnRefreshesAreNotRepeated(lib: Library, s: State, pid: Pid) returns (t: State)
    requires In(s, pid, Rereading) && s.callers[pid].contacted && s.callers[pid].first.Some?
    requires s.store == Some(s.callers[pid].attempted.value.bytes)
    requires DeserializeStructural(lib, s.store.value).Ok?
    ensures Leads(lib, s, [Reread(pid, false), Release(pid)], t)
    ensures pid in t.callers && t.callers[pid].pc == Finished(Returned(s.callers[pid].first.value))
    ensures t.lock.None? && t.store == s.store && t.sent == s.sent
  {
    var mid := Step(lib, s, Reread(pid, false)).value;
    t := Leaves(lib, mid, pid, mid.callers[pid].pc.exit);
    TwoSteps(lib, s, Reread(pid, false), mid, Release(pid), t);
  }

  /** Otherwise the token of the record it holds is sent. */
  lemma HeldTokensAreSent(lib: Library, s: State, pid: Pid) returns (t: State)
    requires In(s, pid, Rereading) && !(s.callers[pid].contacted && s.callers[pid].first.Some?)
    requires s.store == Some(s.callers[pid].attempted.value.bytes)
    requires DeserializeStructural(lib, s.store.value).Ok?
    ensures Leads(lib, s, [Reread(pid, false), Send(pid)], t)
    ensures In(t, pid, Awaiting) && t.callers[pid].attempted == s.callers[pid].attempted
    ensures t.callers[pid].first == s.callers[pid].first && t.store == s.store && t.lock == s.lock
    ensures t.sent == s.sent + [Sent(pid, s.callers[pid].attempted.value.record.refreshToken, s.store)]
  {
    var mid := Step(lib, s, Reread(pid, false)).value;
    t := Step(lib, mid, Send(pid)).value;
    TwoSteps(lib, s, Reread(pid, false), mid, Send(pid), t);
  }

  /** An answer that is refused, or cannot be applied or stored as a record, ends the call with its own failure and
      leaves the store as it was. */
  lemma FailedAnswers(lib: Library, s: State, pid: Pid, reply: Result<RefreshResponse, RefreshError>, now: U64)
    returns (t: State)
    requires In(s, pid, Awaiting)
    requires var held := s.callers[pid].attempted.value.record;
             reply.Ok? ==> var next := ApplyRefresh(lib, held, reply.value, now);
                           next.Err? || lib.encode(next.value).None?
    ensures Leads(lib, s, [Reply(pid, reply, now), Release(pid)], t)
    ensures t.callers[pid].pc
            == Finished(Failed(match reply
                               case Err(Refused) => ReauthenticationRequired
                               case Err(Unreachable) => RefreshTemporarilyUnavailable
                               case Ok(_) => InvalidCredential))
    ensures t.lock.None? && t.store == s.store && t.sent == s.sent
  {
    var mid := Step(lib, s, Reply(pid, reply, now)).value;
    t := Leaves(lib, mid, pid, mid.callers[pid].pc.exit);
    TwoSteps(lib, s, Reply(pid, reply, now), mid, Release(pid), t);
  }

  lemma GoodAnswers(lib: Library, s: State, pid: Pid, response: RefreshResponse, now: U64, next: Record)
    returns (t: State)
    requires In(s, pid, Awaiting) && ApplyRefresh(lib, s.callers[pid].attempted.value.record, response, now) == Ok(next)
    requires lib.encode(next).Some?
    ensures Step(lib, s, Reply(pid, Ok(response), now)) == Some(t)
    ensures In(t, pid, Replacing(Snapshot(lib.encode(next).value, next)))
    ensures t.store == s.store && t.sent == s.sent && t.callers[pid].first == s.callers[pid].first
  {
    t := Step(lib, s, Reply(pid, Ok(response), now)).value;
  }

  /** A record that was stored is the one the operation is given; one that could not be stored is used by nobody. */
  lemma StoredAnswersAreUsed(lib: Library, s: State, pid: Pid, next: Snapshot, fault: bool) returns (t: State)
    requires In(s, pid, Replacing(next))
    ensures Leads(lib, s, [Replace(pid, fault), Release(pid)], t)
    ensures pid in t.callers && t.lock.None? && t.sent == s.sent
    ensures fault ==> t.callers[pid].pc == Finished(Failed(StoreUnavailable)) && t.store == s.store
    ensures !fault ==>
              t.callers[pid].pc == Operating && Handed(t.callers[pid]) == Some(next) && t.store == Some(next.bytes)
  {
    var mid := Step(lib, s, Replace(pid, fault)).value;
    t := Leaves(lib, mid, pid, mid.callers[pid].pc.exit);
    TwoSteps(lib, s, Replace(pid, fault), mid, Release(pid), t);
  }

  /** The first outcome is the result unless it is an unauthorized rejection, which is tried again under the lock; the
      second is the result whatever it is. */
  lemma OutcomesAreReturned(lib: Library, s: State, pid: Pid, outcome: Outcome)
    requires pid in s.callers && s.callers[pid].pc == Operating && Handed(s.callers[pid]).Some?
    ensures var again := s.callers[pid].first.None? && outcome.Rejected? && outcome.unauthorized;
            && Becomes(lib, s, Operate(pid, outcome), pid, if again then Locking else Finished(Returned(outcome)))
            && (again ==> Step(lib, s, Operate(pid, outcome)).value.callers[pid].first == Some(outcome))
  {
  }
}
