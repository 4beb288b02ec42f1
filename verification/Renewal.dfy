/**
 Credential renewal as a protocol: any number of callers share one stored credential, one file lock and one refresh
 endpoint, and their steps interleave freely. A run is a sequence of actions; `Step` says what one action does.
 Logins and logouts write the store without taking the lock and appear as actions of the environment.
 */
module Renewal {
  import opened Wrappers
  import opened Bytes
  import opened Integers
  import opened Credential

  type Pid = nat

  datatype UseError =
    | NotConnected | StoreUnavailable | StoredVersionUnsupported | InvalidCredential
    | RefreshCoordinationBusy | RefreshTemporarilyUnavailable | ReauthenticationRequired

  datatype LockError = Busy | Unavailable

  datatype RefreshError = Refused | Unreachable

  // What the caller's operation returned: its own success or error.
  datatype Outcome = Succeeded(value: nat) | Rejected(error: nat, unauthorized: bool)

  datatype CallResult = Returned(outcome: Outcome) | Failed(error: UseError)

  // Stored bytes together with the record read from them.
  datatype Snapshot = Snapshot(bytes: Bytes, record: Record)

  datatype Pc =
    | Begin
    | Loaded
    | Locking
    | Rereading
    | Sending
    | Awaiting
    | Replacing(next: Snapshot)
    | Releasing(exit: Option<CallResult>)
    | Operating
    | Finished(result: CallResult)
    | Crashed

  datatype Tally = Tally(lookups: nat, lockings: nat, requests: nat, writes: nat, operations: nat)

  /** One call. `attempted` is the pair `attempted_bytes` and `record`; `first` is the unauthorized first outcome,
      present exactly in the replay half of the call; `chosen` is the record that half replays with. */
  datatype Caller = Caller(
    pc: Pc,
    attempted: Option<Snapshot>,
    contacted: bool,
    first: Option<Outcome>,
    chosen: Option<Snapshot>,
    tally: Tally)

  const FRESH := Caller(Begin, None, false, None, None, Tally(0, 0, 0, 0, 0))

  // A refresh request: the token spent, and what the store held when it was sent.
  datatype Sent = Sent(pid: Pid, token: string, stored: Option<Bytes>)

  /** `ever` and `sent` are history: every content the store has had, and every refresh token spent. */
  datatype State = State(
    store: Option<Bytes>,
    lock: Option<Pid>,
    callers: map<Pid, Caller>,
    ever: set<Bytes>,
    sent: seq<Sent>)

  datatype Action =
    | Start(pid: Pid)
    | Read(pid: Pid, fault: bool)
    | Check(pid: Pid, now: U64)
    | Acquire(pid: Pid, refusal: Option<LockError>)
    | Reread(pid: Pid, fault: bool)
    | Send(pid: Pid)
    | Reply(pid: Pid, reply: Result<RefreshResponse, RefreshError>, now: U64)
    | Replace(pid: Pid, fault: bool)
    | Release(pid: Pid)
    | Operate(pid: Pid, outcome: Outcome)
    | Crash(pid: Pid)
    | Login(bytes: Bytes)
    | Logout

  // ---- error maps and the read shared by both places that look at the store ----

  function MapStored(error: StoredError): UseError {
    if error.UnsupportedVersion? then StoredVersionUnsupported else InvalidCredential
  }

  function MapLock(error: LockError): UseError {
    if error.Busy? then RefreshCoordinationBusy else StoreUnavailable
  }

  function MapRefresh(error: RefreshError): UseError {
    if error.Refused? then ReauthenticationRequired else RefreshTemporarilyUnavailable
  }

  function ReadRenewable(lib: Library, store: Option<Bytes>, fault: bool): Result<Snapshot, UseError> {
    if fault then Err(StoreUnavailable)
    else if store.None? then Err(NotConnected)
    else match DeserializeStructural(lib, store.value)
      case Err(error) => Err(MapStored(error))
      case Ok(record) => Ok(Snapshot(store.value, record))
  }

  function Refreshed(lib: Library, record: Record, reply: Result<RefreshResponse, RefreshError>, now: U64)
    : Result<Snapshot, UseError>
  {
    match reply
    case Err(error) => Err(MapRefresh(error))
    case Ok(response) =>
      match ApplyRefresh(lib, record, response, now)
      case Err(_) => Err(InvalidCredential)
      case Ok(next) =>
        if lib.encode(next).None? then Err(InvalidCredential) else Ok(Snapshot(lib.encode(next).value, next))
  }

  // ---- one action ----

  predicate Holding(pc: Pc) {
    pc.Rereading? || pc.Sending? || pc.Awaiting? || pc.Replacing? || pc.Releasing?
  }

  // Takes the snapshot for the half of the call that is running.
  function Adopt(c: Caller, snapshot: Snapshot): Caller {
    if c.first.None? then c.(attempted := Some(snapshot)) else c.(chosen := Some(snapshot))
  }

  /** What a step of a caller does to itself and to what it shares with the others. */
  datatype Effect = Effect(caller: Caller, lock: LockChange, write: Option<Bytes>, spends: Option<string>)

  datatype LockChange = Keep | Take | Drop

  function Silent(c: Caller): Effect {
    Effect(c, Keep, None, None)
  }

  function ReadEffect(lib: Library, c: Caller, store: Option<Bytes>, fault: bool): Effect {
    var d := c.(tally := c.tally.(lookups := c.tally.lookups + 1));
    match ReadRenewable(lib, store, fault)
    case Err(error) => Silent(d.(pc := Finished(Failed(error))))
    case Ok(snapshot) => Silent(d.(pc := Loaded, attempted := Some(snapshot)))
  }

  function CheckEffect(c: Caller, record: Record, now: U64): Effect {
    Silent(c.(pc := if RefreshDue(record, now) then Locking else Operating))
  }

  function AcquireEffect(c: Caller, refusal: Option<LockError>): Effect {
    var d := c.(tally := c.tally.(lockings := c.tally.lockings + 1));
    if refusal.Some? then Silent(d.(pc := Finished(Failed(MapLock(refusal.value)))))
    else Effect(d.(pc := Rereading), Take, None, None)
  }

  function RereadEffect(lib: Library, c: Caller, attempted: Snapshot, store: Option<Bytes>, fault: bool): Effect {
    var d := c.(tally := c.tally.(lookups := c.tally.lookups + 1));
    match ReadRenewable(lib, store, fault)
    case Err(error) => Silent(d.(pc := Releasing(Some(Failed(error)))))
    case Ok(snapshot) =>
      if snapshot.bytes != attempted.bytes then Silent(Adopt(d, snapshot).(pc := Releasing(None)))
      else if c.first.Some? && c.contacted then Silent(d.(pc := Releasing(Some(Returned(c.first.value)))))
      else Silent(d.(pc := Sending))
  }

  function SendEffect(c: Caller, attempted: Snapshot): Effect {
    var d := c.(pc := Awaiting, contacted := c.contacted || c.first.None?,
                tally := c.tally.(requests := c.tally.requests + 1));
    Effect(d, Keep, None, Some(attempted.record.refreshToken))
  }

  function ReplyEffect(
    lib: Library, c: Caller, attempted: Snapshot, reply: Result<RefreshResponse, RefreshError>, now: U64): Effect
  {
    match Refreshed(lib, attempted.record, reply, now)
    case Err(error) => Silent(c.(pc := Releasing(Some(Failed(error)))))
    case Ok(next) => Silent(c.(pc := Replacing(next)))
  }

  function ReplaceEffect(c: Caller, next: Snapshot, fault: bool): Effect {
    var d := c.(tally := c.tally.(writes := c.tally.writes + 1));
    if fault then Silent(d.(pc := Releasing(Some(Failed(StoreUnavailable)))))
    else Effect(Adopt(d, next).(pc := Releasing(None)), Keep, Some(next.bytes), None)
  }

  function ReleaseEffect(c: Caller, exit: Option<CallResult>): Effect {
    Effect(c.(pc := if exit.Some? then Finished(exit.value) else Operating), Drop, None, None)
  }

  // The record handed to the operation: the attempted one first, the chosen one on replay.
  function Handed(c: Caller): Option<Snapshot> {
    if c.first.None? then c.attempted else c.chosen
  }

  function OperateEffect(c: Caller, outcome: Outcome): Effect {
    var d := c.(tally := c.tally.(operations := c.tally.operations + 1));
    if c.first.None? && outcome.Rejected? && outcome.unauthorized
    then Silent(d.(pc := Locking, first := Some(outcome)))
    else Silent(d.(pc := Finished(Returned(outcome))))
  }

  // The operating system drops the lock of a process that dies.
  function CrashEffect(c: Caller): Effect {
    Effect(c.(pc := Crashed), if Holding(c.pc) then Drop else Keep, None, None)
  }

  predicate IsCallerAction(a: Action) {
    !a.Start? && !a.Login? && !a.Logout?
  }

  /** The effect of a caller's action, or None where its program counter is elsewhere. A lock is only granted when it
      is free: that is the exclusion the operating system provides. */
  function EffectOf(lib: Library, c: Caller, store: Option<Bytes>, free: bool, a: Action): Option<Effect>
    requires IsCallerAction(a)
  {
    match a
    case Read(_, fault) => if c.pc.Begin? then Some(ReadEffect(lib, c, store, fault)) else None
    case Check(_, now) =>
      if c.pc.Loaded? && c.attempted.Some? then Some(CheckEffect(c, c.attempted.value.record, now)) else None
    case Acquire(_, refusal) =>
      if c.pc.Locking? && (refusal.Some? || free) then Some(AcquireEffect(c, refusal)) else None
    case Reread(_, fault) =>
      if c.pc.Rereading? && c.attempted.Some?
      then Some(RereadEffect(lib, c, c.attempted.value, store, fault))
      else None
    case Send(_) =>
      if c.pc.Sending? && c.attempted.Some? then Some(SendEffect(c, c.attempted.value)) else None
    case Reply(_, reply, now) =>
      if c.pc.Awaiting? && c.attempted.Some?
      then Some(ReplyEffect(lib, c, c.attempted.value, reply, now))
      else None
    case Replace(_, fault) => if c.pc.Replacing? then Some(ReplaceEffect(c, c.pc.next, fault)) else None
    case Release(_) => if c.pc.Releasing? then Some(ReleaseEffect(c, c.pc.exit)) else None
    case Operate(_, outcome) =>
      if c.pc.Operating? && Handed(c).Some? then Some(OperateEffect(c, outcome)) else None
    case Crash(_) => if c.pc.Finished? || c.pc.Crashed? then None else Some(CrashEffect(c))
  }

  function Perform(s: State, pid: Pid, e: Effect): State
    requires pid in s.callers
  {
    State(
      if e.write.Some? then e.write else s.store,
      match e.lock { case Keep => s.lock case Take => Some(pid) case Drop => None },
      s.callers[pid := e.caller],
      if e.write.Some? then s.ever + {e.write.value} else s.ever,
      if e.spends.Some? then s.sent + [Sent(pid, e.spends.value, s.store)] else s.sent)
  }

  /** What an action does, or None where it is not enabled. */
  function Step(lib: Library, s: State, a: Action): Option<State> {
    match a
    case Start(pid) => if pid in s.callers then None else Some(s.(callers := s.callers[pid := FRESH]))
    case Login(bytes) => Some(s.(store := Some(bytes), ever := s.ever + {bytes}))
    case Logout => Some(s.(store := None))
    case _ =>
      if a.pid !in s.callers then None
      else match EffectOf(lib, s.callers[a.pid], s.store, s.lock.None?, a)
        case None => None
        case Some(effect) => Some(Perform(s, a.pid, effect))
  }

  // ---- runs ----

  function Initial(store: Option<Bytes>): State {
    State(store, None, map[], if store.Some? then {store.value} else {}, [])
  }

  function Run(lib: Library, s: State, actions: seq<Action>): Option<State>
    decreases |actions|
  {
    if actions == [] then Some(s)
    else
      var last := |actions| - 1;
      match Run(lib, s, actions[..last])
      case None => None
      case Some(before) => Step(lib, before, actions[last])
  }

  lemma RunThen(lib: Library, s: State, actions: seq<Action>, a: Action)
    ensures Run(lib, s, actions + [a]) ==
            match Run(lib, s, actions) case None => None case Some(before) => Step(lib, before, a)
  {
    assert (actions + [a])[..|actions|] == actions;
  }

  ghost predicate Reachable(lib: Library, store: Option<Bytes>, actions: seq<Action>, s: State) {
    Run(lib, Initial(store), actions) == Some(s)
  }

  lemma {:induction false} PrefixRuns(lib: Library, s: State, actions: seq<Action>, k: nat)
    requires k <= |actions| && Run(lib, s, actions).Some?
    ensures Run(lib, s, actions[..k]).Some?
    decreases |actions|
  {
    if k < |actions| {
      var last := |actions| - 1;
      assert actions[..last][..k] == actions[..k];
      PrefixRuns(lib, s, actions[..last], k);
    } else {
      assert actions[..k] == actions;
    }
  }

  // ---- the invariant of every run, whoever writes the store ----

  // The bytes were stored at some time and the record is what the renewal path reads from them.
  ghost predicate Genuine(lib: Library, ever: set<Bytes>, snapshot: Snapshot) {
    snapshot.bytes in ever && DeserializeStructural(lib, snapshot.bytes) == Ok(snapshot.record)
  }

  ghost predicate GenuineIfPresent(lib: Library, ever: set<Bytes>, snapshot: Option<Snapshot>) {
    snapshot.Some? ==> Genuine(lib, ever, snapshot.value)
  }

  // What a caller about to write will store: readable bytes, made from the attempted record.
  ghost predicate Replacement(lib: Library, c: Caller, next: Snapshot) {
    && c.attempted.Some?
    && DeserializeStructural(lib, next.bytes) == Ok(next.record)
    && next.record.accountId == c.attempted.value.record.accountId
  }

  ghost predicate CallerSound(lib: Library, ever: set<Bytes>, c: Caller) {
    && GenuineIfPresent(lib, ever, c.attempted)
    && GenuineIfPresent(lib, ever, c.chosen)
    && (c.pc.Replacing? ==> Replacement(lib, c, c.pc.next))
    && Budget(c)
  }

  /** The budget of a call at each program point, and what each point knows about the path that led there. */
  ghost predicate Budget(c: Caller) {
    var t := c.tally;
    var replay := c.first.Some?;
    && (replay ==> c.first.value.Rejected? && c.first.value.unauthorized)
    && (match c.pc
        case Begin => c == FRESH
        case Loaded => !replay && c.chosen.None? && !c.contacted && t == Tally(1, 0, 0, 0, 0)
        case Locking => HalfBudget(c, 0, 0) && (c.contacted ==> replay)
        case Rereading => HalfBudget(c, 0, 1) && (c.contacted ==> replay)
        case Sending => HalfBudget(c, 1, 1) && !c.contacted
        case Awaiting => HalfBudget(c, 1, 1) && t.requests == 1 && t.writes == 0 && c.contacted == !replay
        case Replacing(_) => HalfBudget(c, 1, 1) && t.requests == 1 && t.writes == 0 && c.contacted == !replay
        case Releasing(exit) =>
          HalfBudget(c, 1, 1) && (exit.None? ==> ReadyToOperate(c))
          && (exit.Some? && exit.value.Returned? ==> replay && exit.value.outcome == c.first.value)
        case Operating => HalfBudget(c, 1, 1) && ReadyToOperate(c)
        case Finished(_) => WithinBounds(t)
        case Crashed => WithinBounds(t))
  }

  predicate WithinBounds(t: Tally) {
    t.lookups <= 3 && t.lockings <= 2 && t.writes <= t.requests <= 1 && t.operations <= 2
  }

  // `lookups` and `lockings` are what the running half may have used so far; the first half adds its initial read.
  ghost predicate HalfBudget(c: Caller, lookups: nat, lockings: nat) {
    var t := c.tally;
    && c.attempted.Some?
    && t.writes <= t.requests <= 1
    && (c.pc.Locking? || c.pc.Rereading? || c.pc.Sending? ==> (t.requests == 1 <==> c.contacted))
    && t.operations == (if c.first.Some? then 1 else 0)
    && t.lookups <= (if c.first.Some? then 2 else 1) + lookups
    && t.lockings <= (if c.first.Some? then 1 else 0) + lockings
    && (c.first.None? ==> c.chosen.None? && (t.requests == 1 <==> c.contacted))
  }

  ghost predicate ReadyToOperate(c: Caller) {
    && Handed(c).Some?
    && (c.first.Some? && c.contacted && c.attempted.Some? ==> c.chosen.value.bytes != c.attempted.value.bytes)
  }

  ghost predicate Sound(lib: Library, s: State) {
    && (s.store.Some? ==> s.store.value in s.ever)
    && (forall pid <- s.callers :: CallerSound(lib, s.ever, s.callers[pid]))
    && (forall pid <- s.callers :: Holding(s.callers[pid].pc) <==> s.lock == Some(pid))
    && (s.lock.Some? ==> s.lock.value in s.callers)
  }

  lemma RefreshedIsReadable(
    lib: Library, attempted: Snapshot, reply: Result<RefreshResponse, RefreshError>, now: U64)
    requires Lawful(lib) && DeserializeStructural(lib, attempted.bytes) == Ok(attempted.record)
    requires Refreshed(lib, attempted.record, reply, now).Ok?
    ensures var next := Refreshed(lib, attempted.record, reply, now).value;
            && DeserializeStructural(lib, next.bytes) == Ok(next.record)
            && next.record.accountId == attempted.record.accountId
  {
    var next := Refreshed(lib, attempted.record, reply, now).value;
    ReadBackIsUsable(lib, attempted.bytes);
    RefreshKeepsUsable(lib, attempted.record, reply.value, now);
    StoredIffUsable(lib, next.record, next.bytes);
  }

  // A caller's own view of its step, whatever the others do.
  lemma EffectKeepsBudget(lib: Library, c: Caller, store: Option<Bytes>, free: bool, a: Action, e: Effect)
    requires Budget(c) && IsCallerAction(a) && EffectOf(lib, c, store, free, a) == Some(e)
    ensures Budget(e.caller)
  {
    match a
    case Reread(_, fault) => RereadKeepsBudget(lib, c, c.attempted.value, store, fault);
    case Replace(_, fault) => ReplaceKeepsBudget(c, c.pc.next, fault);
    case Operate(_, outcome) => OperateKeepsBudget(c, outcome);
    case _ =>
  }

  lemma RereadKeepsBudget(lib: Library, c: Caller, attempted: Snapshot, store: Option<Bytes>, fault: bool)
    requires Budget(c) && c.pc.Rereading? && c.attempted == Some(attempted)
    ensures Budget(RereadEffect(lib, c, attempted, store, fault).caller)
  {
  }

  lemma ReplaceKeepsBudget(c: Caller, next: Snapshot, fault: bool)
    requires Budget(c) && c.pc == Replacing(next)
    ensures Budget(ReplaceEffect(c, next, fault).caller)
  {
  }

  lemma OperateKeepsBudget(c: Caller, outcome: Outcome)
    requires Budget(c) && c.pc.Operating?
    ensures Budget(OperateEffect(c, outcome).caller)
  {
  }

  lemma RereadIsGenuine(
    lib: Library, ever: set<Bytes>, c: Caller, attempted: Snapshot, store: Option<Bytes>, fault: bool)
    requires CallerSound(lib, ever, c) && (store.Some? ==> store.value in ever)
    requires c.pc.Rereading? && c.attempted == Some(attempted)
    ensures var e := RereadEffect(lib, c, attempted, store, fault);
            && e.write.None? && !e.caller.pc.Replacing?
            && GenuineIfPresent(lib, ever, e.caller.attempted) && GenuineIfPresent(lib, ever, e.caller.chosen)
  {
  }

  lemma EffectIsGenuine(
    lib: Library, ever: set<Bytes>, c: Caller, store: Option<Bytes>, free: bool, a: Action, e: Effect)
    requires Lawful(lib) && CallerSound(lib, ever, c) && (store.Some? ==> store.value in ever)
    requires IsCallerAction(a) && EffectOf(lib, c, store, free, a) == Some(e)
    ensures var after := if e.write.Some? then ever + {e.write.value} else ever;
            && GenuineIfPresent(lib, after, e.caller.attempted)
            && GenuineIfPresent(lib, after, e.caller.chosen)
            && (e.caller.pc.Replacing? ==> Replacement(lib, e.caller, e.caller.pc.next))
  {
    match a
    case Reply(_, reply, now) =>
      if Refreshed(lib, c.attempted.value.record, reply, now).Ok? {
        RefreshedIsReadable(lib, c.attempted.value, reply, now);
      }
    case Reread(_, fault) => RereadIsGenuine(lib, ever, c, c.attempted.value, store, fault);
    case _ =>
  }

  // A caller takes the lock only when it is free and holds it exactly in the critical section.
  lemma EffectOnLock(lib: Library, c: Caller, store: Option<Bytes>, free: bool, a: Action, e: Effect)
    requires IsCallerAction(a) && EffectOf(lib, c, store, free, a) == Some(e)
    ensures match e.lock
            case Keep => Holding(e.caller.pc) == Holding(c.pc)
            case Take => free && !Holding(c.pc) && Holding(e.caller.pc)
            case Drop => Holding(c.pc) && !Holding(e.caller.pc)
  {
  }

  lemma StepKeepsSound(lib: Library, s: State, a: Action, t: State)
    requires Lawful(lib) && Sound(lib, s) && Step(lib, s, a) == Some(t)
    ensures Sound(lib, t)
  {
    if a.Start? || a.Login? || a.Logout? {
      forall pid <- t.callers ensures CallerSound(lib, t.ever, t.callers[pid]) {
        assert pid in s.callers ==> CallerSound(lib, s.ever, s.callers[pid]);
      }
    } else {
      var e := EffectOf(lib, s.callers[a.pid], s.store, s.lock.None?, a).value;
      assert CallerSound(lib, s.ever, s.callers[a.pid]);
      EffectIsGenuine(lib, s.ever, s.callers[a.pid], s.store, s.lock.None?, a, e);
      EffectOnLock(lib, s.callers[a.pid], s.store, s.lock.None?, a, e);
      EffectKeepsBudget(lib, s.callers[a.pid], s.store, s.lock.None?, a, e);
      PerformKeepsSound(lib, s, a.pid, e);
    }
  }

  lemma PerformKeepsSound(lib: Library, s: State, pid: Pid, e: Effect)
    requires Sound(lib, s) && pid in s.callers
    requires CallerSound(lib, if e.write.Some? then s.ever + {e.write.value} else s.ever, e.caller)
    requires match e.lock
             case Keep => Holding(e.caller.pc) == Holding(s.callers[pid].pc)
             case Take => s.lock.None? && Holding(e.caller.pc)
             case Drop => Holding(s.callers[pid].pc) && !Holding(e.caller.pc)
    ensures Sound(lib, Perform(s, pid, e))
  {
    var t := Perform(s, pid, e);
    forall other <- t.callers
      ensures CallerSound(lib, t.ever, t.callers[other])
      ensures Holding(t.callers[other].pc) <==> t.lock == Some(other)
    {
      assert CallerSound(lib, s.ever, s.callers[other]);
      assert Holding(s.callers[other].pc) <==> s.lock == Some(other);
    }
  }

  lemma {:induction false} RunsAreSound(lib: Library, store: Option<Bytes>, actions: seq<Action>, s: State)
    requires Lawful(lib) && Reachable(lib, store, actions, s)
    ensures Sound(lib, s)
    decreases |actions|
  {
    if actions != [] {
      var last := |actions| - 1;
      var before := Run(lib, Initial(store), actions[..last]).value;
      RunsAreSound(lib, store, actions[..last], before);
      StepKeepsSound(lib, before, actions[last], s);
    }
  }
}
