/**
 Why each property of `RenewalSafety` needs its hypothesis. Without `FreshAnswers` a token is sent twice: after a lost
 reply, one that does not rotate the token, and a login that brings back a spent one. Without `QuietSending` a token is
 sent that the store does not hold. Without `QuietWriting` a write replaces what was not spent, and undoes it.
 */
module RenewalGaps {
  import opened Wrappers
  import opened Bytes
  import opened Integers
  import opened Credential
  import opened Renewal
  import opened RenewalSafety

  ghost predicate Leads(lib: Library, s: State, actions: seq<Action>, t: State) {
    Run(lib, s, actions) == Some(t)
  }

  lemma Then(lib: Library, s: State, actions: seq<Action>, t: State, a: Action, u: State)
    requires Leads(lib, s, actions, t) && Step(lib, t, a) == Some(u)
    ensures Leads(lib, s, actions + [a], u)
  {
    RunThen(lib, s, actions, a);
  }

  // The caller's request was answered or not, but the new credential did not reach the store.
  ghost predicate LosesTheReply(lib: Library, s: State, a: Action) {
    IsCallerAction(a) && a.pid in s.callers && InFlight(s.callers[a.pid]) &&
    match a
    case Crash(_) => true
    case Replace(_, fault) => fault && s.callers[a.pid].pc.Replacing?
    case Reply(_, reply, now) =>
      && s.callers[a.pid].pc.Awaiting? && s.callers[a.pid].attempted.Some?
      && Refreshed(lib, s.callers[a.pid].attempted.value.record, reply, now).Err?
    case _ => false
  }

  lemma LossEffect(lib: Library, c: Caller, store: Option<Bytes>, free: bool, a: Action, s: State)
    requires LosesTheReply(lib, s, a) && c == s.callers[a.pid]
    ensures EffectOf(lib, c, store, free, a).Some?
    ensures var e := EffectOf(lib, c, store, free, a).value;
            && e.write.None? && e.spends.None?
            && (if a.Crash? then e.lock == Drop else e.lock == Keep && e.caller.pc.Releasing?)
  {
  }

  lemma LossStep(lib: Library, s: State, a: Action) returns (lost: State)
    requires Sound(lib, s) && LosesTheReply(lib, s, a)
    ensures Step(lib, s, a) == Some(lost)
    ensures lost.store == s.store && lost.sent == s.sent && lost.callers.Keys == s.callers.Keys
    ensures if a.Crash? then lost.lock.None? else lost.callers[a.pid].pc.Releasing?
  {
    LossEffect(lib, s.callers[a.pid], s.store, s.lock.None?, a, s);
    lost := Perform(s, a.pid, EffectOf(lib, s.callers[a.pid], s.store, s.lock.None?, a).value);
  }

  lemma LosingFreesTheLock(lib: Library, s: State, a: Action) returns (actions: seq<Action>, t: State)
    requires Sound(lib, s) && LosesTheReply(lib, s, a)
    ensures Leads(lib, s, [a] + actions, t)
    ensures t.lock.None? && t.store == s.store && t.sent == s.sent && t.callers.Keys == s.callers.Keys
  {
    var lost := LossStep(lib, s, a);
    Then(lib, s, [], s, a, lost);
    assert [] + [a] == [a];
    if a.Crash? {
      actions, t := [], lost;
      assert [a] + [] == [a];
    } else {
      actions := [Release(a.pid)];
      t := Released(lib, lost, a.pid);
      Then(lib, s, [a], lost, Release(a.pid), t);
    }
  }

  lemma Released(lib: Library, s: State, pid: Pid) returns (t: State)
    requires pid in s.callers && s.callers[pid].pc.Releasing?
    ensures Step(lib, s, Release(pid)) == Some(t)
    ensures t.lock.None? && t.store == s.store && t.sent == s.sent && t.callers.Keys == s.callers.Keys
  {
    t := Perform(s, pid, ReleaseEffect(s.callers[pid], s.callers[pid].pc.exit));
  }

  function With(s: State, pid: Pid, c: Caller): State {
    s.(callers := s.callers[pid := c])
  }

  lemma SilentStep(lib: Library, s: State, pid: Pid, c: Caller, a: Action, d: Caller)
    requires IsCallerAction(a) && a.pid == pid
    requires EffectOf(lib, c, s.store, s.lock.None?, a) == Some(Silent(d))
    ensures Step(lib, With(s, pid, c), a) == Some(With(s, pid, d))
  {
    assert s.callers[pid := c][pid := d] == s.callers[pid := d];
  }

  // A new caller that reads the stored bytes late enough finds its token due, takes the lock and sends it.
  lemma NewCallerWaits(lib: Library, s: State, held: Snapshot, pid: Pid) returns (actions: seq<Action>, c: Caller)
    requires s.store == Some(held.bytes) && pid !in s.callers
    requires DeserializeStructural(lib, held.bytes) == Ok(held.record)
    ensures Leads(lib, s, actions, With(s, pid, c))
    ensures c == Caller(Locking, Some(held), false, None, None, Tally(1, 0, 0, 0, 0))
  {
    var d := FRESH.(pc := Loaded, attempted := Some(held), tally := Tally(1, 0, 0, 0, 0));
    c := d.(pc := Locking);
    Then(lib, s, [], s, Start(pid), With(s, pid, FRESH));
    SilentStep(lib, s, pid, FRESH, Read(pid, false), d);
    Then(lib, s, [] + [Start(pid)], With(s, pid, FRESH), Read(pid, false), With(s, pid, d));
    assert RefreshDue(held.record, U64_MAX);
    SilentStep(lib, s, pid, d, Check(pid, U64_MAX), c);
    actions := [] + [Start(pid)] + [Read(pid, false)];
    Then(lib, s, actions, With(s, pid, d), Check(pid, U64_MAX), With(s, pid, c));
    actions := actions + [Check(pid, U64_MAX)];
  }

  lemma WaiterSends(lib: Library, s: State, held: Snapshot, pid: Pid, c: Caller)
    returns (actions: seq<Action>, t: State)
    requires s.lock.None? && s.store == Some(held.bytes)
    requires DeserializeStructural(lib, held.bytes) == Ok(held.record)
    requires c == Caller(Locking, Some(held), false, None, None, Tally(1, 0, 0, 0, 0))
    ensures Leads(lib, With(s, pid, c), actions, t)
    ensures t.sent == s.sent + [Sent(pid, held.record.refreshToken, s.store)] && t.store == s.store
    ensures pid in t.callers && t.callers[pid].pc.Awaiting?
  {
    var d := c.(pc := Rereading, tally := Tally(1, 1, 0, 0, 0));
    var e := c.(pc := Sending, tally := Tally(2, 1, 0, 0, 0));
    var held' := s.(lock := Some(pid));
    assert s.callers[pid := c][pid := d] == s.callers[pid := d];
    Then(lib, With(s, pid, c), [], With(s, pid, c), Acquire(pid, None), With(held', pid, d));
    SilentStep(lib, held', pid, d, Reread(pid, false), e);
    Then(lib, With(s, pid, c), [] + [Acquire(pid, None)], With(held', pid, d), Reread(pid, false), With(held', pid, e));
    actions := [] + [Acquire(pid, None)] + [Reread(pid, false)];
    t := Perform(With(held', pid, e), pid, SendEffect(e, held));
    Then(lib, With(s, pid, c), actions, With(held', pid, e), Send(pid), t);
    actions := actions + [Send(pid)];
  }

  lemma {:induction false} LeadsOn(
    lib: Library, s: State, first: seq<Action>, t: State, second: seq<Action>, u: State)
    requires Leads(lib, s, first, t) && Leads(lib, t, second, u)
    ensures Leads(lib, s, first + second, u)
    decreases |second|
  {
    if second == [] {
      assert first + second == first;
    } else {
      var last := |second| - 1;
      LeadsOn(lib, s, first, t, second[..last], Run(lib, t, second[..last]).value);
      assert (first + second)[..|first + second| - 1] == first + second[..last];
    }
  }

  lemma StoredTokenIsSent(lib: Library, s: State, held: Snapshot)
    returns (actions: seq<Action>, t: State, next: Sent)
    requires s.lock.None? && s.store == Some(held.bytes)
    requires DeserializeStructural(lib, held.bytes) == Ok(held.record)
    ensures Leads(lib, s, actions, t)
    ensures t.sent == s.sent + [next] && next.token == held.record.refreshToken
    ensures t.store == s.store && next.pid in t.callers && t.callers[next.pid].pc.Awaiting?
  {
    var pid := NewPid(s.callers.Keys);
    var join, waiter := NewCallerWaits(lib, s, held, pid);
    var again;
    again, t := WaiterSends(lib, s, held, pid, waiter);
    LeadsOn(lib, s, join, With(s, pid, waiter), again, t);
    actions := join + again;
    next := Sent(pid, held.record.refreshToken, s.store);
  }

  lemma LeadsAfter(
    lib: Library, s: State, a: Action, first: seq<Action>, t: State, second: seq<Action>, u: State)
    requires Leads(lib, s, [a] + first, t) && Leads(lib, t, second, u)
    ensures Leads(lib, s, [a] + (first + second), u)
  {
    LeadsOn(lib, s, [a] + first, t, second, u);
    assert [a] + (first + second) == [a] + first + second;
  }

  ghost predicate SentTwice(sent: seq<Sent>) {
    exists i, j :: 0 <= i < j < |sent| && sent[i].token == sent[j].token
  }

  /** From every state with a request in flight, the store still holding what it spent: if the reply is lost, by a
      crash, a failed write or a failed refresh, the run can go on to spend the same token again. */
  lemma LostReplySpendsTwice(lib: Library, s: State, a: Action) returns (actions: seq<Action>, t: State)
    requires Lawful(lib) && Sound(lib, s) && LosesTheReply(lib, s, a) && SpendsStore(s, a.pid)
    ensures Leads(lib, s, [a] + actions, t) && SentTwice(t.sent)
  {
    var held := s.callers[a.pid].attempted.value;
    assert CallerSound(lib, s.ever, s.callers[a.pid]);
    var release, freed := LosingFreesTheLock(lib, s, a);
    var again;
    again, t := SpentTokenIsSentAgain(lib, freed, held);
    LeadsAfter(lib, s, a, release, freed, again, t);
    actions := release + again;
  }

  lemma SpentAgain(sent: seq<Sent>, token: string, next: Sent)
    requires WasSent(sent, token) && next.token == token
    ensures SentTwice(sent + [next])
  {
    var i :| 0 <= i < |sent| && sent[i].token == token;
    var all := sent + [next];
    assert 0 <= i < |sent| < |all| && all[i].token == all[|sent|].token;
  }

  lemma {:induction false} NewPid(pids: set<Pid>) returns (pid: Pid)
    ensures pid !in pids
  {
    var rest := pids;
    var bound: nat := 0;
    while rest != {}
      invariant rest <= pids
      invariant forall p <- pids :: p in rest || p < bound
      decreases |rest|
    {
      var p :| p in rest;
      rest := rest - {p};
      bound := if p < bound then bound else p + 1;
    }
    pid := bound;
  }

  /** And such a run there is for every record that can be read: a caller that dies between its request and the reply
      is enough. */
  lemma OneCrashSpendsTwice(lib: Library, held: Snapshot) returns (actions: seq<Action>, t: State)
    requires DeserializeStructural(lib, held.bytes) == Ok(held.record)
    ensures Reachable(lib, Some(held.bytes), actions, t)
    ensures |t.sent| == 2 && t.sent[0].token == t.sent[1].token == held.record.refreshToken
  {
    var s := Initial(Some(held.bytes));
    var first, mid, sent := StoredTokenIsSent(lib, s, held);
    var freed := CrashFrees(lib, mid, sent.pid);
    Then(lib, s, first, mid, Crash(sent.pid), freed);
    var second, again;
    second, t, again := StoredTokenIsSent(lib, freed, held);
    actions := first + [Crash(sent.pid)] + second;
    LeadsOn(lib, s, first + [Crash(sent.pid)], freed, second, t);
  }

  lemma CrashFrees(lib: Library, s: State, pid: Pid) returns (freed: State)
    requires pid in s.callers && s.callers[pid].pc.Awaiting?
    ensures Step(lib, s, Crash(pid)) == Some(freed)
    ensures freed.lock.None? && freed.store == s.store && freed.sent == s.sent
  {
    freed := Perform(s, pid, CrashEffect(s.callers[pid]));
  }

  // A free store that holds a spent token is enough.
  lemma SpentTokenIsSentAgain(lib: Library, s: State, held: Snapshot) returns (actions: seq<Action>, t: State)
    requires s.lock.None? && s.store == Some(held.bytes)
    requires DeserializeStructural(lib, held.bytes) == Ok(held.record) && WasSent(s.sent, held.record.refreshToken)
    ensures Leads(lib, s, actions, t) && SentTwice(t.sent)
  {
    var next;
    actions, t, next := StoredTokenIsSent(lib, s, held);
    SpentAgain(s.sent, held.record.refreshToken, next);
  }

  /** A login that brings back a spent token, even while the lock is free, lets it be spent again. */
  lemma RestoredTokenIsSpentTwice(lib: Library, s: State, held: Snapshot) returns (actions: seq<Action>, t: State)
    requires s.lock.None?
    requires DeserializeStructural(lib, held.bytes) == Ok(held.record) && WasSent(s.sent, held.record.refreshToken)
    ensures Leads(lib, s, [Login(held.bytes)] + actions, t) && SentTwice(t.sent)
  {
    var mid := Step(lib, s, Login(held.bytes)).value;
    Then(lib, s, [], s, Login(held.bytes), mid);
    assert [] + [Login(held.bytes)] == [Login(held.bytes)];
    actions, t := SpentTokenIsSentAgain(lib, mid, held);
    LeadsOn(lib, s, [Login(held.bytes)], mid, actions, t);
  }

  /** So does a reply whose refresh token was spent before, the one just sent included, however well it is stored. */
  lemma UnrotatedTokenIsSpentTwice(
    lib: Library, s: State, pid: Pid, reply: Result<RefreshResponse, RefreshError>, now: U64)
    returns (actions: seq<Action>, t: State)
    requires Lawful(lib) && Sound(lib, s) && pid in s.callers && s.callers[pid].pc.Awaiting?
    requires s.callers[pid].attempted.Some?
    requires var next := Refreshed(lib, s.callers[pid].attempted.value.record, reply, now);
             next.Ok? && WasSent(s.sent, next.value.record.refreshToken)
    ensures Leads(lib, s, [Reply(pid, reply, now), Replace(pid, false), Release(pid)] + actions, t) && SentTwice(t.sent)
  {
    var attempted := s.callers[pid].attempted.value;
    var next := Refreshed(lib, attempted.record, reply, now).value;
    assert CallerSound(lib, s.ever, s.callers[pid]);
    RefreshedIsReadable(lib, attempted, reply, now);
    var freed := ReplyIsStored(lib, s, pid, reply, now, next);
    actions, t := SpentTokenIsSentAgain(lib, freed, next);
    LeadsOn(lib, s, [Reply(pid, reply, now), Replace(pid, false), Release(pid)], freed, actions, t);
  }

  lemma ReplyIsStored(
    lib: Library, s: State, pid: Pid, reply: Result<RefreshResponse, RefreshError>, now: U64, next: Snapshot)
    returns (freed: State)
    requires pid in s.callers && s.callers[pid].pc.Awaiting? && s.callers[pid].attempted.Some?
    requires Refreshed(lib, s.callers[pid].attempted.value.record, reply, now) == Ok(next)
    ensures Leads(lib, s, [Reply(pid, reply, now), Replace(pid, false), Release(pid)], freed)
    ensures freed.lock.None? && freed.store == Some(next.bytes) && freed.sent == s.sent
  {
    var c := s.callers[pid];
    var replied := Perform(s, pid, ReplyEffect(lib, c, c.attempted.value, reply, now));
    Then(lib, s, [], s, Reply(pid, reply, now), replied);
    var stored := Perform(replied, pid, ReplaceEffect(replied.callers[pid], next, false));
    Then(lib, s, [] + [Reply(pid, reply, now)], replied, Replace(pid, false), stored);
    freed := Released(lib, stored, pid);
    Then(lib, s, [] + [Reply(pid, reply, now)] + [Replace(pid, false)], stored, Release(pid), freed);
    assert [] + [Reply(pid, reply, now)] + [Replace(pid, false)] + [Release(pid)]
           == [Reply(pid, reply, now), Replace(pid, false), Release(pid)];
  }

  // Whatever writes the store between a caller's reread and its request, the caller spends what it reread.
  lemma OverlookedWrite(lib: Library, s: State, pid: Pid, write: Action) returns (t: State)
    requires write.Login? || write.Logout?
    requires pid in s.callers && s.callers[pid].pc.Sending? && s.callers[pid].attempted.Some?
    ensures Leads(lib, s, [write, Send(pid)], t)
    ensures t.sent == s.sent + [Sent(pid, s.callers[pid].attempted.value.record.refreshToken,
                                     if write.Login? then Some(write.bytes) else None)]
  {
    var mid := Step(lib, s, write).value;
    t := Step(lib, mid, Send(pid)).value;
    Then(lib, s, [], s, write, mid);
    Then(lib, s, [] + [write], mid, Send(pid), t);
    assert [] + [write] + [Send(pid)] == [write, Send(pid)];
  }

  /** A login with another token, or one that cannot be read, between a caller's reread and its request makes the caller
      spend a token that is not the stored one. */
  lemma UnlockedLoginIsOverlooked(lib: Library, s: State, pid: Pid, bytes: Bytes) returns (t: State)
    requires pid in s.callers && s.callers[pid].pc.Sending? && s.callers[pid].attempted.Some?
    requires var stored := DeserializeStructural(lib, bytes);
             stored.Ok? ==> stored.value.refreshToken != s.callers[pid].attempted.value.record.refreshToken
    ensures Leads(lib, s, [Login(bytes), Send(pid)], t)
    ensures |t.sent| == |s.sent| + 1 && t.sent[|s.sent|].stored == Some(bytes) && t.store == Some(bytes)
    ensures t.sent[|s.sent|].token == s.callers[pid].attempted.value.record.refreshToken
    ensures !SpentWasStored(lib, t.sent[|s.sent|])
  {
    t := OverlookedWrite(lib, s, pid, Login(bytes));
  }

  /** And so does a logout: its token is spent after it is gone. */
  lemma UnlockedLogoutIsOverlooked(lib: Library, s: State, pid: Pid) returns (t: State)
    requires pid in s.callers && s.callers[pid].pc.Sending? && s.callers[pid].attempted.Some?
    ensures Leads(lib, s, [Logout, Send(pid)], t)
    ensures |t.sent| == |s.sent| + 1 && t.sent[|s.sent|].stored == None
    ensures t.sent[|s.sent|].token == s.callers[pid].attempted.value.record.refreshToken
    ensures !SpentWasStored(lib, t.sent[|s.sent|])
  {
    t := OverlookedWrite(lib, s, pid, Logout);
  }

  /** Any login or logout while the answer waits to be stored is undone by storing it: the write replaces bytes, or
      their absence, that nobody spent. */
  lemma UnlockedWriteIsUndone(lib: Library, s: State, pid: Pid, write: Action) returns (t: State)
    requires write.Login? || write.Logout?
    requires pid in s.callers && s.callers[pid].pc.Replacing?
    ensures Leads(lib, s, [write, Replace(pid, false)], t)
    ensures t.store == Some(s.callers[pid].pc.next.bytes)
  {
    var mid := Step(lib, s, write).value;
    t := Step(lib, mid, Replace(pid, false)).value;
    Then(lib, s, [], s, write, mid);
    Then(lib, s, [] + [write], mid, Replace(pid, false), t);
    assert [] + [write] + [Replace(pid, false)] == [write, Replace(pid, false)];
  }

  /** So is one while the answer has yet to come. */
  lemma AwaitedWriteIsUndone(
    lib: Library, s: State, pid: Pid, write: Action, reply: Result<RefreshResponse, RefreshError>, now: U64)
    returns (t: State)
    requires write.Login? || write.Logout?
    requires pid in s.callers && s.callers[pid].pc.Awaiting? && s.callers[pid].attempted.Some?
    requires Refreshed(lib, s.callers[pid].attempted.value.record, reply, now).Ok?
    ensures Leads(lib, s, [write, Reply(pid, reply, now), Replace(pid, false), Release(pid)], t)
    ensures t.store == Some(Refreshed(lib, s.callers[pid].attempted.value.record, reply, now).value.bytes)
  {
    var mid := OutsideWrite(lib, s, write);
    var next := Refreshed(lib, s.callers[pid].attempted.value.record, reply, now).value;
    t := ReplyIsStored(lib, mid, pid, reply, now, next);
    var steps := [Reply(pid, reply, now), Replace(pid, false), Release(pid)];
    LeadsOn(lib, s, [write], mid, steps, t);
    assert [write] + steps == [write, Reply(pid, reply, now), Replace(pid, false), Release(pid)];
  }

  lemma OutsideWrite(lib: Library, s: State, write: Action) returns (mid: State)
    requires write.Login? || write.Logout?
    ensures Leads(lib, s, [write], mid) && mid.callers == s.callers
  {
    mid := Step(lib, s, write).value;
    Then(lib, s, [], s, write, mid);
    assert [] + [write] == [write];
  }
}
