/** What every run of the renewal protocol guarantees, and which guarantees need the store to have no other writer. */
module RenewalSafety {
  import opened Wrappers
  import opened Bytes
  import opened Integers
  import opened Credential
  import opened Renewal

  // ---- bounds on one call, counted on the run itself ----

  function Plus(t: Tally, a: Action, pid: Pid): Tally {
    if !IsCallerAction(a) || a.pid != pid then t
    else match a
      case Read(_, _) => t.(lookups := t.lookups + 1)
      case Reread(_, _) => t.(lookups := t.lookups + 1)
      case Acquire(_, _) => t.(lockings := t.lockings + 1)
      case Send(_) => t.(requests := t.requests + 1)
      case Replace(_, _) => t.(writes := t.writes + 1)
      case Operate(_, _) => t.(operations := t.operations + 1)
      case _ => t
  }

  /** How often a caller reads the store, asks for the lock, contacts the endpoint, writes, and runs its operation. */
  function Counts(actions: seq<Action>, pid: Pid): Tally {
    if actions == [] then Tally(0, 0, 0, 0, 0)
    else Plus(Counts(actions[..|actions| - 1], pid), actions[|actions| - 1], pid)
  }

  function TallyAt(s: State, pid: Pid): Tally {
    if pid in s.callers then s.callers[pid].tally else Tally(0, 0, 0, 0, 0)
  }

  lemma EffectTally(lib: Library, c: Caller, store: Option<Bytes>, free: bool, a: Action, e: Effect)
    requires IsCallerAction(a) && EffectOf(lib, c, store, free, a) == Some(e)
    ensures e.caller.tally == Plus(c.tally, a, a.pid)
  {
  }

  lemma StepTally(lib: Library, s: State, a: Action, t: State, pid: Pid)
    requires Step(lib, s, a) == Some(t)
    ensures TallyAt(t, pid) == Plus(TallyAt(s, pid), a, pid)
  {
    if IsCallerAction(a) {
      var e := EffectOf(lib, s.callers[a.pid], s.store, s.lock.None?, a).value;
      EffectTally(lib, s.callers[a.pid], s.store, s.lock.None?, a, e);
    }
  }

  lemma {:induction false} TalliesCount(
    lib: Library, store: Option<Bytes>, actions: seq<Action>, s: State, pid: Pid)
    requires Reachable(lib, store, actions, s)
    ensures Counts(actions, pid) == TallyAt(s, pid)
    decreases |actions|
  {
    if actions != [] {
      var last := |actions| - 1;
      var before := Run(lib, Initial(store), actions[..last]).value;
      TalliesCount(lib, store, actions[..last], before, pid);
      StepTally(lib, before, actions[last], s, pid);
    }
  }

  lemma EveryCallIsBounded(lib: Library, store: Option<Bytes>, actions: seq<Action>, s: State, pid: Pid)
    requires Lawful(lib) && Reachable(lib, store, actions, s)
    ensures var n := Counts(actions, pid);
            n.lookups <= 3 && n.lockings <= 2 && n.requests <= 1 && n.writes <= n.requests && n.operations <= 2
  {
    TalliesCount(lib, store, actions, s, pid);
    RunsAreSound(lib, store, actions, s);
    assert pid in s.callers ==> CallerSound(lib, s.ever, s.callers[pid]);
  }

  /** Where a caller is about to run its operation it does not hold the lock; and a replay follows an unauthorized
      first outcome, with bytes other than the attempted ones if the endpoint had already been contacted. */
  lemma OperationsRunUnlocked(lib: Library, store: Option<Bytes>, actions: seq<Action>, s: State, pid: Pid)
    requires Lawful(lib) && Reachable(lib, store, actions, s)
    requires pid in s.callers && s.callers[pid].pc.Operating?
    ensures s.lock != Some(pid)
    ensures var c := s.callers[pid];
            && Handed(c).Some? && c.attempted.Some?
            && (c.first.Some? <==> Counts(actions, pid).operations == 1)
            && (c.first.Some? ==>
                  && c.first.value.Rejected? && c.first.value.unauthorized
                  && (c.contacted ==> Handed(c).value.bytes != c.attempted.value.bytes))
            && (c.first.None? ==> (c.contacted <==> Counts(actions, pid).requests == 1))
  {
    TalliesCount(lib, store, actions, s, pid);
    RunsAreSound(lib, store, actions, s);
    assert CallerSound(lib, s.ever, s.callers[pid]);
  }

  // ---- nothing unpersisted is ever used ----

  ghost predicate HeldBytes(lib: Library, store: Option<Bytes>, actions: seq<Action>, k: nat, bytes: Bytes) {
    && k <= |actions|
    && Run(lib, Initial(store), actions[..k]).Some?
    && Run(lib, Initial(store), actions[..k]).value.store == Some(bytes)
  }

  lemma {:induction false} EverMeansHeld(
    lib: Library, store: Option<Bytes>, actions: seq<Action>, s: State, bytes: Bytes) returns (k: nat)
    requires Reachable(lib, store, actions, s) && bytes in s.ever
    ensures HeldBytes(lib, store, actions, k, bytes)
    decreases |actions|
  {
    assert actions[..|actions|] == actions;
    if actions == [] {
      k := 0;
    } else {
      var last := |actions| - 1;
      var before := Run(lib, Initial(store), actions[..last]).value;
      if bytes in before.ever {
        k := EverMeansHeld(lib, store, actions[..last], before, bytes);
        assert actions[..last][..k] == actions[..k];
      } else {
        k := |actions|;
      }
    }
  }

  /** In every run, logins and logouts included, the record handed to an operation was read from, or written as, bytes
      that the store held at the end of some earlier prefix of the run. */
  lemma OnlyPersistedCredentialsAreUsed(
    lib: Library, store: Option<Bytes>, actions: seq<Action>, s: State, pid: Pid)
    returns (k: nat)
    requires Lawful(lib) && Reachable(lib, store, actions, s)
    requires pid in s.callers && s.callers[pid].pc.Operating?
    ensures Handed(s.callers[pid]).Some?
    ensures var handed := Handed(s.callers[pid]).value;
            && HeldBytes(lib, store, actions, k, handed.bytes)
            && DeserializeStructural(lib, handed.bytes) == Ok(handed.record)
  {
    RunsAreSound(lib, store, actions, s);
    assert CallerSound(lib, s.ever, s.callers[pid]);
    k := EverMeansHeld(lib, store, actions, s, Handed(s.callers[pid]).value.bytes);
  }

  // ---- spend once ----

  predicate WasSent(sent: seq<Sent>, token: string) {
    exists i :: 0 <= i < |sent| && sent[i].token == token
  }

  // Bytes whose refresh token has not been spent; bytes that cannot be read carry none.
  ghost predicate Unspent(lib: Library, sent: seq<Sent>, bytes: Bytes) {
    var read := DeserializeStructural(lib, bytes);
    read.Ok? ==> !WasSent(sent, read.value.refreshToken)
  }

  /** What is asked of a run.
      `FreshAnswers`: a request that was sent gets an answer with a refresh token never spent before, the write that
      follows succeeds and its caller does not die in between; and a login brings back no spent token.
      `QuietSending`: nobody else writes the store while a caller is about to send the token it reread.
      `QuietWriting`: nor until that caller has stored what it got for it.
      `RenewalGaps` shows what happens without each of these. */
  datatype Discipline = FreshAnswers | QuietSending | QuietWriting

  ghost predicate Keeps(d: Discipline, lib: Library, s: State, a: Action) {
    match d
    case FreshAnswers =>
      && (a.Login? ==> Unspent(lib, s.sent, a.bytes))
      && (IsCallerAction(a) && a.pid in s.callers ==> FreshAnswer(lib, s.callers[a.pid], s.sent, a))
    case QuietSending => a.Login? || a.Logout? ==> forall pid <- s.callers :: !s.callers[pid].pc.Sending?
    case QuietWriting =>
      a.Login? || a.Logout? ==> forall pid <- s.callers :: !s.callers[pid].pc.Sending? && !InFlight(s.callers[pid])
  }

  ghost predicate FreshAnswer(lib: Library, c: Caller, sent: seq<Sent>, a: Action) {
    match a
    case Reply(_, reply, now) =>
      c.attempted.Some? ==>
        var next := Refreshed(lib, c.attempted.value.record, reply, now);
        next.Ok? && !WasSent(sent, next.value.record.refreshToken)
    case Replace(_, fault) => !fault
    case Crash(_) => !InFlight(c)
    case _ => true
  }

  // The caller has spent a refresh token and not yet stored what it got for it.
  predicate InFlight(c: Caller) {
    c.pc.Awaiting? || c.pc.Replacing?
  }

  ghost predicate KeptBy(d: Discipline, lib: Library, store: Option<Bytes>, actions: seq<Action>)
    decreases |actions|
  {
    actions == [] ||
    (var last := |actions| - 1;
     && KeptBy(d, lib, store, actions[..last])
     && (Run(lib, Initial(store), actions[..last]).Some?
         ==> Keeps(d, lib, Run(lib, Initial(store), actions[..last]).value, actions[last])))
  }

  // The holder is the only caller past its reread, so nobody else can be sending or in flight.
  lemma OnlyTheHolder(lib: Library, s: State, pid: Pid, other: Pid)
    requires Sound(lib, s) && pid in s.callers && other in s.callers && pid != other && Holding(s.callers[pid].pc)
    ensures !Holding(s.callers[other].pc)
  {
  }

  lemma NobodyElseHolds(lib: Library, s: State, pid: Pid)
    requires Sound(lib, s) && pid in s.callers && Holding(s.callers[pid].pc)
    ensures forall other <- s.callers | other != pid :: !Holding(s.callers[other].pc)
  {
    forall other <- s.callers | other != pid ensures !Holding(s.callers[other].pc) {
      OnlyTheHolder(lib, s, pid, other);
    }
  }

  // ---- no token is sent twice ----

  // What a caller past its reread knows of its token: unspent until it is sent, and so is the one it gets for it.
  ghost predicate Knows(c: Caller, sent: seq<Sent>) {
    && (c.pc.Sending? ==> c.attempted.Some? && !WasSent(sent, c.attempted.value.record.refreshToken))
    && (c.pc.Replacing? ==> !WasSent(sent, c.pc.next.record.refreshToken))
  }

  predicate AllDistinct(sent: seq<Sent>) {
    forall i, j | 0 <= i < j < |sent| :: sent[i].token != sent[j].token
  }

  ghost predicate Frugal(lib: Library, s: State) {
    && AllDistinct(s.sent)
    && (forall pid <- s.callers :: Knows(s.callers[pid], s.sent))
    && (s.store.Some? && (forall pid <- s.callers :: !InFlight(s.callers[pid]))
        ==> Unspent(lib, s.sent, s.store.value))
  }

  // What a caller's own step does to the tokens, apart from sending one.
  lemma QuietEffect(
    lib: Library, ever: set<Bytes>, c: Caller, store: Option<Bytes>, free: bool, a: Action, e: Effect, sent: seq<Sent>)
    requires CallerSound(lib, ever, c) && Knows(c, sent) && FreshAnswer(lib, c, sent, a)
    requires IsCallerAction(a) && !a.Send? && EffectOf(lib, c, store, free, a) == Some(e)
    requires a.Reread? && store.Some? ==> Unspent(lib, sent, store.value)
    ensures e.spends.None? && Knows(e.caller, sent)
    ensures InFlight(c) && !InFlight(e.caller) ==> e.write.Some?
    ensures InFlight(e.caller) ==> InFlight(c)
    ensures e.write.Some? ==> Unspent(lib, sent, e.write.value)
  {
    match a
    case Reread(_, fault) => QuietReread(lib, ever, c, c.attempted.value, store, fault, sent);
    case Reply(_, reply, now) => QuietReply(lib, c, c.attempted.value, reply, now, sent);
    case _ =>
  }

  lemma QuietReread(
    lib: Library, ever: set<Bytes>, c: Caller, attempted: Snapshot, store: Option<Bytes>, fault: bool, sent: seq<Sent>)
    requires CallerSound(lib, ever, c) && c.pc.Rereading? && c.attempted == Some(attempted)
    requires store.Some? ==> Unspent(lib, sent, store.value)
    ensures var e := RereadEffect(lib, c, attempted, store, fault);
            e.spends.None? && e.write.None? && !InFlight(e.caller) && Knows(e.caller, sent)
  {
  }

  lemma QuietReply(
    lib: Library, c: Caller, attempted: Snapshot, reply: Result<RefreshResponse, RefreshError>, now: U64,
    sent: seq<Sent>)
    requires c.pc.Awaiting? && c.attempted == Some(attempted)
    requires var next := Refreshed(lib, attempted.record, reply, now);
             next.Ok? && !WasSent(sent, next.value.record.refreshToken)
    ensures var e := ReplyEffect(lib, c, attempted, reply, now);
            e.spends.None? && e.write.None? && InFlight(e.caller) && Knows(e.caller, sent)
  {
  }

  lemma SpendAnother(sent: seq<Sent>, next: Sent)
    requires AllDistinct(sent) && !WasSent(sent, next.token)
    ensures AllDistinct(sent + [next])
  {
    var all := sent + [next];
    forall i, j | 0 <= i < j < |all| ensures all[i].token != all[j].token {
      assert all[i] == sent[i];
    }
  }

  lemma SendKeepsFrugal(lib: Library, s: State, pid: Pid, e: Effect, t: State)
    requires Sound(lib, s) && Frugal(lib, s) && pid in s.callers && t == Perform(s, pid, e)
    requires Holding(s.callers[pid].pc) && e.caller.pc.Awaiting?
    requires e.spends.Some? && !WasSent(s.sent, e.spends.value)
    ensures Frugal(lib, t)
  {
    NobodyElseHolds(lib, s, pid);
    SpendAnother(s.sent, Sent(pid, e.spends.value, s.store));
    assert InFlight(t.callers[pid]);
  }

  lemma QuietKeepsFrugal(lib: Library, s: State, pid: Pid, e: Effect, t: State)
    requires Frugal(lib, s) && pid in s.callers && t == Perform(s, pid, e)
    requires e.spends.None? && Knows(e.caller, s.sent)
    requires InFlight(s.callers[pid]) && !InFlight(e.caller) ==> e.write.Some?
    requires InFlight(e.caller) ==> InFlight(s.callers[pid])
    requires e.write.Some? ==> Unspent(lib, s.sent, e.write.value)
    ensures Frugal(lib, t)
  {
    assert forall other <- t.callers | other != pid :: t.callers[other] == s.callers[other];
    if e.write.None? && forall other <- t.callers :: !InFlight(t.callers[other]) {
      forall other <- s.callers ensures !InFlight(s.callers[other]) {
        assert !InFlight(t.callers[other]);
      }
    }
  }

  lemma OutsiderKeepsFrugal(lib: Library, s: State, a: Action, t: State)
    requires Frugal(lib, s) && Keeps(FreshAnswers, lib, s, a) && !IsCallerAction(a) && Step(lib, s, a) == Some(t)
    ensures Frugal(lib, t)
  {
    if a.Start? && forall other <- t.callers :: !InFlight(t.callers[other]) {
      forall other <- s.callers ensures !InFlight(s.callers[other]) {
        assert t.callers[other] == s.callers[other];
      }
    }
  }

  // Nobody is in flight while a caller rereads, so what it rereads is unspent.
  lemma RereadIsUnspent(lib: Library, s: State, pid: Pid)
    requires Sound(lib, s) && Frugal(lib, s) && pid in s.callers && s.callers[pid].pc.Rereading?
    ensures s.store.Some? ==> Unspent(lib, s.sent, s.store.value)
  {
    NobodyElseHolds(lib, s, pid);
  }

  lemma StepKeepsFrugal(lib: Library, s: State, a: Action, t: State)
    requires Sound(lib, s) && Frugal(lib, s) && Keeps(FreshAnswers, lib, s, a) && Step(lib, s, a) == Some(t)
    ensures Frugal(lib, t)
  {
    if IsCallerAction(a) {
      var c := s.callers[a.pid];
      var e := EffectOf(lib, c, s.store, s.lock.None?, a).value;
      assert CallerSound(lib, s.ever, c) && Knows(c, s.sent);
      if a.Send? {
        SendKeepsFrugal(lib, s, a.pid, e, t);
      } else {
        if a.Reread? {
          RereadIsUnspent(lib, s, a.pid);
        }
        QuietEffect(lib, s.ever, c, s.store, s.lock.None?, a, e, s.sent);
        QuietKeepsFrugal(lib, s, a.pid, e, t);
      }
    } else {
      OutsiderKeepsFrugal(lib, s, a, t);
    }
  }

  /** No refresh token is sent twice, wherever logins and logouts fall: it is enough that every request is answered with
      a token never spent before and the answer stored, and that no login brings back a spent token. */
  lemma {:induction false} RefreshTokensAreSpentOnce(
    lib: Library, store: Option<Bytes>, actions: seq<Action>, s: State)
    requires Lawful(lib) && Reachable(lib, store, actions, s) && KeptBy(FreshAnswers, lib, store, actions)
    ensures forall i, j | 0 <= i < j < |s.sent| :: s.sent[i].token != s.sent[j].token
    ensures Frugal(lib, s)
    decreases |actions|
  {
    if actions != [] {
      var last := |actions| - 1;
      var before := Run(lib, Initial(store), actions[..last]).value;
      RefreshTokensAreSpentOnce(lib, store, actions[..last], before);
      RunsAreSound(lib, store, actions[..last], before);
      StepKeepsFrugal(lib, before, actions[last], s);
    }
  }

  // ---- the token sent is the stored one ----

  ghost predicate SpentWasStored(lib: Library, sent: Sent) {
    && sent.stored.Some?
    && DeserializeStructural(lib, sent.stored.value).Ok?
    && DeserializeStructural(lib, sent.stored.value).value.refreshToken == sent.token
  }

  ghost predicate AllStored(lib: Library, sent: seq<Sent>) {
    forall i | 0 <= i < |sent| :: SpentWasStored(lib, sent[i])
  }

  // What the store holds while a caller is about to send, or waits to store an answer.
  predicate StoreIsOwn(c: Caller, store: Option<Bytes>) {
    c.attempted.Some? && store == Some(c.attempted.value.bytes)
  }

  ghost predicate SendsStored(lib: Library, s: State) {
    && AllStored(lib, s.sent)
    && forall pid <- s.callers | s.callers[pid].pc.Sending? :: StoreIsOwn(s.callers[pid], s.store)
  }

  // A caller that comes to be sending has just reread, only the holder writes, and it sends what it reread.
  ghost predicate OnStore(c: Caller, store: Option<Bytes>, e: Effect) {
    && (e.caller.pc.Sending? ==> StoreIsOwn(e.caller, store) && e.write.None? && Holding(c.pc))
    && (e.write.Some? ==> Holding(c.pc) && !InFlight(e.caller))
    && (e.spends.Some? ==>
          && c.pc.Sending? && c.attempted.Some? && e.spends == Some(c.attempted.value.record.refreshToken)
          && e.caller.attempted == c.attempted && e.write.None?)
    && (InFlight(e.caller) && e.spends.None? ==> InFlight(c) && e.caller.attempted == c.attempted)
  }

  lemma EffectOnStore(lib: Library, c: Caller, store: Option<Bytes>, free: bool, a: Action, e: Effect)
    requires IsCallerAction(a) && EffectOf(lib, c, store, free, a) == Some(e)
    ensures OnStore(c, store, e)
  {
  }

  lemma PerformKeepsSendsStored(lib: Library, s: State, pid: Pid, e: Effect)
    requires Sound(lib, s) && SendsStored(lib, s) && pid in s.callers && OnStore(s.callers[pid], s.store, e)
    requires CallerSound(lib, s.ever, s.callers[pid])
    ensures SendsStored(lib, Perform(s, pid, e))
  {
    if e.write.Some? {
      NobodyElseHolds(lib, s, pid);
    }
    var t := Perform(s, pid, e);
    assert forall other <- t.callers | other != pid :: t.callers[other] == s.callers[other];
  }

  lemma StepKeepsSendsStored(lib: Library, s: State, a: Action, t: State)
    requires Sound(lib, s) && SendsStored(lib, s) && Keeps(QuietSending, lib, s, a) && Step(lib, s, a) == Some(t)
    ensures SendsStored(lib, t)
  {
    if IsCallerAction(a) {
      var e := EffectOf(lib, s.callers[a.pid], s.store, s.lock.None?, a).value;
      EffectOnStore(lib, s.callers[a.pid], s.store, s.lock.None?, a, e);
      PerformKeepsSendsStored(lib, s, a.pid, e);
    }
  }

  /** Each refresh token sent is the one that the store held at that moment, if nobody else writes between a caller's
      reread and its request; whatever the answers are and whatever fails. */
  lemma {:induction false} SpentTokensAreStored(
    lib: Library, store: Option<Bytes>, actions: seq<Action>, s: State)
    requires Lawful(lib) && Reachable(lib, store, actions, s) && KeptBy(QuietSending, lib, store, actions)
    ensures forall i | 0 <= i < |s.sent| :: SpentWasStored(lib, s.sent[i])
    ensures SendsStored(lib, s)
    decreases |actions|
  {
    if actions != [] {
      var last := |actions| - 1;
      var before := Run(lib, Initial(store), actions[..last]).value;
      SpentTokensAreStored(lib, store, actions[..last], before);
      RunsAreSound(lib, store, actions[..last], before);
      StepKeepsSendsStored(lib, before, actions[last], s);
    }
  }

  // ---- a write replaces what was spent ----

  /** The last token sent is this caller's, and the store still holds the bytes it came from. */
  predicate SpendsStore(s: State, pid: Pid)
    requires pid in s.callers
  {
    && StoreIsOwn(s.callers[pid], s.store) && s.sent != []
    && s.sent[|s.sent| - 1] == Sent(pid, s.callers[pid].attempted.value.record.refreshToken, s.store)
  }

  ghost predicate WritesReplaceSpent(s: State) {
    && (forall pid <- s.callers | s.callers[pid].pc.Sending? :: StoreIsOwn(s.callers[pid], s.store))
    && (forall pid <- s.callers | InFlight(s.callers[pid]) :: SpendsStore(s, pid))
  }

  // The holder's own step: nobody else is past its reread.
  lemma HolderKeepsWrites(s: State, pid: Pid, e: Effect)
    requires WritesReplaceSpent(s) && pid in s.callers && OnStore(s.callers[pid], s.store, e)
    requires forall other <- s.callers | other != pid :: !Holding(s.callers[other].pc)
    ensures WritesReplaceSpent(Perform(s, pid, e))
  {
    var t := Perform(s, pid, e);
    assert forall other <- t.callers | other != pid :: t.callers[other] == s.callers[other];
    if InFlight(e.caller) {
      assert InFlight(s.callers[pid]) ==> SpendsStore(s, pid);
      assert SpendsStore(t, pid);
    }
  }

  // A step of anybody else leaves the store and the tokens alone.
  lemma OtherKeepsWrites(s: State, pid: Pid, e: Effect)
    requires WritesReplaceSpent(s) && pid in s.callers && e.write.None? && e.spends.None?
    requires !e.caller.pc.Sending? && !InFlight(e.caller)
    ensures WritesReplaceSpent(Perform(s, pid, e))
  {
    var t := Perform(s, pid, e);
    forall other <- t.callers | InFlight(t.callers[other]) ensures SpendsStore(t, other) {
      assert SpendsStore(s, other);
    }
  }

  lemma PerformKeepsWrites(lib: Library, s: State, pid: Pid, e: Effect)
    requires Sound(lib, s) && WritesReplaceSpent(s) && pid in s.callers && OnStore(s.callers[pid], s.store, e)
    ensures WritesReplaceSpent(Perform(s, pid, e))
  {
    if Holding(s.callers[pid].pc) {
      NobodyElseHolds(lib, s, pid);
      HolderKeepsWrites(s, pid, e);
    } else {
      OtherKeepsWrites(s, pid, e);
    }
  }

  lemma OutsiderKeepsWrites(lib: Library, s: State, a: Action, t: State)
    requires WritesReplaceSpent(s) && Keeps(QuietWriting, lib, s, a) && !IsCallerAction(a) && Step(lib, s, a) == Some(t)
    ensures WritesReplaceSpent(t)
  {
    forall pid <- t.callers | InFlight(t.callers[pid]) ensures SpendsStore(t, pid) {
      assert pid in s.callers && SpendsStore(s, pid);
    }
  }

  lemma StepKeepsWrites(lib: Library, s: State, a: Action, t: State)
    requires Sound(lib, s) && WritesReplaceSpent(s) && Keeps(QuietWriting, lib, s, a) && Step(lib, s, a) == Some(t)
    ensures WritesReplaceSpent(t)
  {
    if IsCallerAction(a) {
      var e := EffectOf(lib, s.callers[a.pid], s.store, s.lock.None?, a).value;
      EffectOnStore(lib, s.callers[a.pid], s.store, s.lock.None?, a, e);
      PerformKeepsWrites(lib, s, a.pid, e);
    } else {
      OutsiderKeepsWrites(lib, s, a, t);
    }
  }

  /** From its request until it has stored the answer, a caller's token is the last one spent and the store still holds
      the bytes it came from, if nobody else writes from its reread on: a write replaces exactly what was spent. */
  lemma {:induction false} WritesReplaceWhatWasSpent(
    lib: Library, store: Option<Bytes>, actions: seq<Action>, s: State)
    requires Lawful(lib) && Reachable(lib, store, actions, s) && KeptBy(QuietWriting, lib, store, actions)
    ensures forall pid <- s.callers | InFlight(s.callers[pid]) :: SpendsStore(s, pid)
    ensures WritesReplaceSpent(s)
    decreases |actions|
  {
    if actions != [] {
      var last := |actions| - 1;
      var before := Run(lib, Initial(store), actions[..last]).value;
      WritesReplaceWhatWasSpent(lib, store, actions[..last], before);
      RunsAreSound(lib, store, actions[..last], before);
      StepKeepsWrites(lib, before, actions[last], s);
    }
  }

  // ---- the store stays readable and keeps one account ----

  ghost predicate NoForeignWriter(actions: seq<Action>) {
    forall i | 0 <= i < |actions| :: !actions[i].Login? && !actions[i].Logout?
  }

  ghost predicate Belongs(lib: Library, bytes: Bytes, account: string) {
    DeserializeStructural(lib, bytes).Ok? && DeserializeStructural(lib, bytes).value.accountId == account
  }

  lemma EffectKeepsAccount(
    lib: Library, ever: set<Bytes>, c: Caller, store: Option<Bytes>, free: bool, a: Action, e: Effect, account: string)
    requires CallerSound(lib, ever, c) && IsCallerAction(a) && EffectOf(lib, c, store, free, a) == Some(e)
    requires forall bytes <- ever :: Belongs(lib, bytes, account)
    ensures e.write.Some? ==> Belongs(lib, e.write.value, account)
  {
    if a.Replace? {
      assert Belongs(lib, c.attempted.value.bytes, account);
    }
  }

  lemma StepKeepsAccount(lib: Library, s: State, a: Action, t: State, account: string)
    requires Sound(lib, s) && Step(lib, s, a) == Some(t) && !a.Login? && !a.Logout?
    requires s.store.Some? && forall bytes <- s.ever :: Belongs(lib, bytes, account)
    ensures t.store.Some? && forall bytes <- t.ever :: Belongs(lib, bytes, account)
  {
    if IsCallerAction(a) {
      var c := s.callers[a.pid];
      var e := EffectOf(lib, c, s.store, s.lock.None?, a).value;
      assert CallerSound(lib, s.ever, c);
      EffectKeepsAccount(lib, s.ever, c, s.store, s.lock.None?, a, e, account);
    }
  }

  /** Whatever fails, times out or crashes: as long as callers are the only writers, the store is never empty and every
      content it ever has is readable and belongs to the account it started with. */
  lemma {:induction false} CallersKeepTheAccount(
    lib: Library, first: Bytes, account: string, actions: seq<Action>, s: State)
    requires Lawful(lib) && Belongs(lib, first, account)
    requires Reachable(lib, Some(first), actions, s) && NoForeignWriter(actions)
    ensures s.store.Some? && s.store.value in s.ever
    ensures forall bytes <- s.ever :: Belongs(lib, bytes, account)
    decreases |actions|
  {
    RunsAreSound(lib, Some(first), actions, s);
    if actions != [] {
      var last := |actions| - 1;
      var before := Run(lib, Initial(Some(first)), actions[..last]).value;
      CallersKeepTheAccount(lib, first, account, actions[..last], before);
      RunsAreSound(lib, Some(first), actions[..last], before);
      StepKeepsAccount(lib, before, actions[last], s, account);
    }
  }
}
