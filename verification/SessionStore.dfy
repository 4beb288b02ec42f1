/**
 The session files as many writers see them: each writer creates one file under an exclusive lock, fills it in pieces,
 and either ends it, removes it, or dies at any byte. A reader takes a shared lock, so it sees a file only after its
 writer is gone. A run is a sequence of actions of any writers in any order.
 */
module SessionStore {
  import opened Wrappers
  import opened Bytes
  import opened SessionFormat
  import opened Projection

  type WriterId = nat

  // `owner` is history: the writer that created the file.
  datatype File = File(bytes: Bytes, owner: WriterId, locked: bool)

  /** `todo` is what a writer still has to write; a writer that is removing its file has already let go of the lock. */
  datatype Phase = Starting(todo: Bytes) | Open | Appending(todo: Bytes) | Removing | Closed

  // `started` and `ending` are history: the start succeeded, and how the writer set out to end the session.
  datatype Writer = Writer(session: Session, phase: Phase, started: bool, ending: Option<Ending>)

  datatype State = State(files: map<string, File>, writers: map<WriterId, Writer>)

  const EMPTY := State(map[], map[])

  /** Creating a file and locking it is one action. `Abandon` is the end of a writer for whatever reason, `Discard` the
      first half of taking a file back, `Remove` the second. */
  datatype Action =
    | Create(writer: WriterId, session: Session)
    | Write(writer: WriterId, count: nat)
    | FinishStart(writer: WriterId)
    | BeginAppend(writer: WriterId, ending: Ending)
    | Abandon(writer: WriterId)
    | Discard(writer: WriterId)
    | Remove(writer: WriterId)

  datatype ShowError = InvalidSessionId | Missing | Busy | UnsupportedVersion | Corrupt | StoreUnavailable

  // ---- one action ----

  // What a writer does to itself and to its file; no file means that it is removed.
  datatype Effect = Effect(writer: Writer, file: Option<File>)

  function Unlocked(f: File): Option<File> {
    Some(f.(locked := false))
  }

  function EffectOf(codec: Codec, w: Writer, f: File, a: Action): Option<Effect>
    requires !a.Create?
  {
    match a
    case Write(_, count) =>
      (match w.phase
       case Starting(todo) =>
         if 0 < count <= |todo|
         then Some(Effect(w.(phase := Starting(todo[count..])), Some(f.(bytes := f.bytes + todo[..count]))))
         else None
       case Appending(todo) =>
         if 0 < count <= |todo|
         then Some(Effect(w.(phase := Appending(todo[count..])), Some(f.(bytes := f.bytes + todo[..count]))))
         else None
       case _ => None)
    case FinishStart(_) =>
      if w.phase == Starting([]) then Some(Effect(w.(phase := Open, started := true), Some(f))) else None
    case BeginAppend(_, ending) =>
      var line := EndingLine(codec, w.session, ending);
      if w.phase.Open? && line.Some? && |f.bytes| + |line.value| <= MAX_SESSION_BYTES
      then Some(Effect(w.(phase := Appending(line.value), ending := Some(ending)), Some(f)))
      else None
    case Abandon(_) =>
      if w.phase.Closed? then None else Some(Effect(w.(phase := Closed), Unlocked(f)))
    case Discard(_) =>
      if w.phase.Starting? || w.phase.Open? then Some(Effect(w.(phase := Removing), Unlocked(f))) else None
    case Remove(_) =>
      if w.phase.Removing? then Some(Effect(w.(phase := Closed), None)) else None
  }

  function Perform(s: State, writer: WriterId, id: string, e: Effect): State {
    State(if e.file.Some? then s.files[id := e.file.value] else s.files - {id}, s.writers[writer := e.writer])
  }

  function Step(codec: Codec, s: State, a: Action): Option<State> {
    match a
    case Create(writer, session) =>
      var first := InitialLines(codec, session);
      if writer in s.writers || first.None? || session.sessionId in s.files then None
      else Some(State(
                  s.files[session.sessionId := File([], writer, true)],
                  s.writers[writer := Writer(session, Starting(first.value), false, None)]))
    case _ =>
      if a.writer !in s.writers then None
      else
        var w := s.writers[a.writer];
        if w.session.sessionId !in s.files then None
        else match EffectOf(codec, w, s.files[w.session.sessionId], a)
          case None => None
          case Some(effect) => Some(Perform(s, a.writer, w.session.sessionId, effect))
  }

  function Run(codec: Codec, s: State, actions: seq<Action>): Option<State>
    decreases |actions|
  {
    if actions == [] then Some(s)
    else
      match Run(codec, s, actions[..|actions| - 1])
      case None => None
      case Some(before) => Step(codec, before, actions[|actions| - 1])
  }

  // ---- reading ----

  function MapProjection(r: Result<ShowResult, ProjectionError>): Result<ShowResult, ShowError> {
    match r
    case Ok(shown) => Ok(shown)
    case Err(error) =>
      Err(if error.UnsupportedVersion? then ShowError.UnsupportedVersion else ShowError.Corrupt)
  }

  function Show(codec: Codec, s: State, id: string): Result<ShowResult, ShowError> {
    if !ValidId(id) then Err(InvalidSessionId)
    else if id !in s.files then Err(Missing)
    else if s.files[id].locked then Err(Busy)
    else if |s.files[id].bytes| > MAX_SESSION_BYTES then Err(ShowError.Corrupt)
    else MapProjection(Project(codec, s.files[id].bytes, id))
  }

  // ---- what every run keeps ----

  /** What a file may contain: a prefix of the lines its writer set out to write, at least the first two once the start
      has succeeded. */
  ghost predicate Contents(codec: Codec, w: Writer, bytes: Bytes) {
    var first := InitialLines(codec, w.session);
    && first.Some?
    && (w.ending.None? ==> bytes <= first.value && (w.started ==> bytes == first.value))
    && (w.ending.Some? ==>
          var last := EndingLine(codec, w.session, w.ending.value);
          && w.started && last.Some? && |first.value + last.value| <= MAX_SESSION_BYTES
          && first.value <= bytes <= first.value + last.value)
  }

  // Where a writer stands and what its file holds.
  ghost predicate InStep(codec: Codec, w: Writer, f: File) {
    && Contents(codec, w, f.bytes)
    && (f.locked <==> w.phase.Starting? || w.phase.Open? || w.phase.Appending?)
    && (match w.phase
        case Starting(todo) =>
          !w.started && w.ending.None? && f.bytes + todo == InitialLines(codec, w.session).value
        case Open => w.started && w.ending.None?
        case Appending(todo) =>
          && w.ending.Some?
          && f.bytes + todo == InitialLines(codec, w.session).value
                               + EndingLine(codec, w.session, w.ending.value).value
        case Removing => w.ending.None?
        case Closed => true)
  }

  ghost predicate Sound(codec: Codec, s: State) {
    && (forall id <- s.files ::
          var f := s.files[id];
          f.owner in s.writers && s.writers[f.owner].session.sessionId == id && InStep(codec, s.writers[f.owner], f))
    && (forall w <- s.writers | !s.writers[w].phase.Closed? ::
          var id := s.writers[w].session.sessionId; id in s.files && s.files[id].owner == w)
  }

  lemma EffectKeepsInStep(codec: Codec, w: Writer, f: File, a: Action, e: Effect)
    requires !a.Create? && InStep(codec, w, f) && EffectOf(codec, w, f, a) == Some(e)
    ensures e.writer.session == w.session
    ensures e.file.Some? ==> InStep(codec, e.writer, e.file.value) && e.file.value.owner == f.owner
    ensures e.file.Some? ==> f.bytes <= e.file.value.bytes
    ensures e.file.None? ==> e.writer.phase.Closed? && a.Remove?
  {
    var first := InitialLines(codec, w.session).value;
    match a
    case Write(_, count) =>
      var todo := w.phase.todo;
      assert f.bytes + todo == f.bytes + todo[..count] + todo[count..];
    case FinishStart(_) =>
      assert f.bytes + [] == f.bytes;
    case BeginAppend(_, ending) =>
    case _ =>
  }

  lemma OnlyLiveWritersAct(codec: Codec, w: Writer, f: File, a: Action)
    requires !a.Create? && EffectOf(codec, w, f, a).Some?
    ensures !w.phase.Closed?
  {
  }

  // A step of an existing writer is an effect on its own file.
  lemma StepShape(codec: Codec, s: State, a: Action, t: State) returns (id: string, e: Effect)
    requires Sound(codec, s) && Step(codec, s, a) == Some(t) && !a.Create?
    ensures a.writer in s.writers && s.writers[a.writer].session.sessionId == id && !s.writers[a.writer].phase.Closed?
    ensures id in s.files && s.files[id].owner == a.writer && t == Perform(s, a.writer, id, e)
    ensures e.writer.session == s.writers[a.writer].session
    ensures e.file.Some? ==> InStep(codec, e.writer, e.file.value) && e.file.value.owner == a.writer
    ensures e.file.Some? ==> s.files[id].bytes <= e.file.value.bytes
    ensures e.file.None? ==> e.writer.phase.Closed? && a.Remove?
  {
    var w := s.writers[a.writer];
    id := w.session.sessionId;
    e := EffectOf(codec, w, s.files[id], a).value;
    OnlyLiveWritersAct(codec, w, s.files[id], a);
    EffectKeepsInStep(codec, w, s.files[id], a, e);
  }

  lemma StepKeepsSound(codec: Codec, s: State, a: Action, t: State)
    requires Sound(codec, s) && Step(codec, s, a) == Some(t)
    ensures Sound(codec, t)
  {
    if a.Create? {
      assert [] + InitialLines(codec, a.session).value == InitialLines(codec, a.session).value;
    } else {
      var id, e := StepShape(codec, s, a, t);
      PerformKeepsSound(codec, s, a.writer, id, e);
    }
  }

  lemma PerformKeepsSound(codec: Codec, s: State, writer: WriterId, id: string, e: Effect)
    requires Sound(codec, s) && writer in s.writers && s.writers[writer].session.sessionId == id
    requires id in s.files && s.files[id].owner == writer
    requires e.writer.session == s.writers[writer].session
    requires e.file.Some? ==> InStep(codec, e.writer, e.file.value) && e.file.value.owner == writer
    requires e.file.None? ==> e.writer.phase.Closed?
    ensures Sound(codec, Perform(s, writer, id, e))
  {
    var t := Perform(s, writer, id, e);
    forall other <- t.files
      ensures var f := t.files[other];
              && f.owner in t.writers && t.writers[f.owner].session.sessionId == other
              && InStep(codec, t.writers[f.owner], f)
    {
      if other != id {
        assert s.files[other].owner != writer;
      }
    }
    forall w <- t.writers | !t.writers[w].phase.Closed?
      ensures var own := t.writers[w].session.sessionId; own in t.files && t.files[own].owner == w
    {
      if w != writer {
        assert s.writers[w].session.sessionId != id;
      }
    }
  }

  lemma {:induction false} RunsAreSound(codec: Codec, actions: seq<Action>, s: State)
    requires Run(codec, EMPTY, actions) == Some(s)
    ensures Sound(codec, s)
    decreases |actions|
  {
    if actions != [] {
      var before := Run(codec, EMPTY, actions[..|actions| - 1]).value;
      RunsAreSound(codec, actions[..|actions| - 1], before);
      StepKeepsSound(codec, before, actions[|actions| - 1], s);
    }
  }

  // ---- what one step may do to a file ----

  function OwnId(s: State, a: Action): string
    requires a.Create? || a.writer in s.writers
  {
    if a.Create? then a.session.sessionId else s.writers[a.writer].session.sessionId
  }

  // From one step to the next only this file changed, and if it was there before and still is, it only grew.
  ghost predicate TouchesOnly(s: State, t: State, id: string) {
    && s.files.Keys - {id} == t.files.Keys - {id}
    && (forall other <- s.files | other != id :: other in t.files && t.files[other] == s.files[other])
    && (id in s.files && id in t.files ==>
          s.files[id].bytes <= t.files[id].bytes && t.files[id].owner == s.files[id].owner)
  }

  /** A step of a writer leaves every file but its own alone; its own only grows, and disappears only when it removes
      it. */
  lemma StepsTouchTheirOwnFile(codec: Codec, s: State, a: Action, t: State)
    requires Sound(codec, s) && Step(codec, s, a) == Some(t)
    ensures TouchesOnly(s, t, OwnId(s, a))
    ensures forall id <- s.files | id !in t.files :: a == Remove(s.files[id].owner)
    ensures forall id <- t.files | id !in s.files :: a.Create? && t.files[id].owner == a.writer
  {
    if !a.Create? {
      var id, e := StepShape(codec, s, a, t);
      PerformTouches(s, a.writer, id, e);
    }
  }

  lemma PerformTouches(s: State, writer: WriterId, id: string, e: Effect)
    requires id in s.files && s.files[id].owner == writer
    requires e.file.Some? ==> e.file.value.owner == writer && s.files[id].bytes <= e.file.value.bytes
    ensures TouchesOnly(s, Perform(s, writer, id, e), id)
  {
  }

  // ---- what readers see ----

  lemma ReadPrefix(codec: Codec, session: Session, bytes: Bytes)
    requires Lawful(codec) && InitialLines(codec, session).Some? && bytes <= InitialLines(codec, session).value
    ensures var first := InitialLines(codec, session).value;
            Project(codec, bytes, session.sessionId) ==
            if bytes == first then Ok(Shown(session, None, false)) else Err(ProjectionError.Corrupt)
  {
    var first := InitialLines(codec, session).value;
    assert bytes == first[..|bytes|];
    if |bytes| < |first| {
      TornStartIsCorrupt(codec, session, |bytes|);
    } else {
      assert first + [] == first;
      TornEndingIsInterrupted(codec, session, []);
    }
  }

  lemma ReadLonger(codec: Codec, session: Session, ending: Ending, bytes: Bytes)
    requires Lawful(codec) && InitialLines(codec, session).Some? && EndingLine(codec, session, ending).Some?
    requires var first, last := InitialLines(codec, session).value, EndingLine(codec, session, ending).value;
             |first + last| <= MAX_SESSION_BYTES && first <= bytes <= first + last
    ensures var first, last := InitialLines(codec, session).value, EndingLine(codec, session, ending).value;
            Project(codec, bytes, session.sessionId) ==
            Ok(if bytes == first + last then Shown(session, Some(ending), false)
               else Shown(session, None, bytes != first))
  {
    var all := InitialLines(codec, session).value + EndingLine(codec, session, ending).value;
    assert bytes == all[..|bytes|];
    TornWritesAreRead(codec, session, ending, |bytes|);
  }

  /** In every reachable state a file reads as Busy while its writer holds it; afterwards, if the start had succeeded,
      as its own prompt, with the answer or failure that was written if that line is complete and otherwise as
      interrupted; and if the start had not succeeded, as that or as Corrupt. */
  lemma SessionsReadBack(codec: Codec, actions: seq<Action>, s: State, id: string)
    requires Lawful(codec) && Run(codec, EMPTY, actions) == Some(s) && id in s.files
    ensures s.files[id].owner in s.writers
    ensures var f := s.files[id];
            var w := s.writers[f.owner];
            var first := InitialLines(codec, w.session);
            && w.session.sessionId == id && first.Some? && (f.locked <==> !w.phase.Closed? && !w.phase.Removing?)
            && (w.ending.Some? ==> EndingLine(codec, w.session, w.ending.value).Some?)
            && Show(codec, s, id) ==
               (if f.locked then Err(Busy)
                else if f.bytes == first.value then Ok(Shown(w.session, None, false))
                else if w.ending.Some? then
                  Ok(if f.bytes == first.value + EndingLine(codec, w.session, w.ending.value).value
                     then Shown(w.session, w.ending, false)
                     else Shown(w.session, None, true))
                else Err(ShowError.Corrupt))
            && (w.started && !f.locked ==>
                  Show(codec, s, id).Ok? && Show(codec, s, id).value.projection.prompt == w.session.prompt)
  {
    RunsAreSound(codec, actions, s);
    var f := s.files[id];
    var w := s.writers[f.owner];
    assert InStep(codec, w, f);
    if w.ending.Some? {
      ReadLonger(codec, w.session, w.ending.value, f.bytes);
    } else {
      ReadPrefix(codec, w.session, f.bytes);
    }
  }

  // A line that says how its session ended.
  predicate IsTerminal(codec: Codec, line: Bytes) {
    match codec.decode(line)
    case Some(Entry(_, _, _, _, _, payload)) => !payload.UserMessage?
    case _ => false
  }

  /** No file ever gets a second terminal record, whatever its writer and the others do: it has at most three lines, and
      none but the third says how the session ended. */
  lemma AtMostOneEnding(codec: Codec, actions: seq<Action>, s: State, id: string)
    requires Lawful(codec) && Run(codec, EMPTY, actions) == Some(s) && id in s.files
    ensures |Lines(s.files[id].bytes)| <= 3
    ensures forall i | 0 <= i < |Lines(s.files[id].bytes)| :: IsTerminal(codec, Lines(s.files[id].bytes)[i]) ==> i == 2
  {
    RunsAreSound(codec, actions, s);
    var f := s.files[id];
    var w := s.writers[f.owner];
    assert InStep(codec, w, f);
    var whole := InitialLines(codec, w.session).value;
    TwoInitialLines(codec, w.session);
    if w.ending.Some? {
      whole := whole + EndingLine(codec, w.session, w.ending.value).value;
      ThreeLinesInAll(codec, w.session, w.ending.value);
    }
    LinesKeep(whole, |f.bytes|);
    assert whole[..|f.bytes|] == f.bytes;
    var lines, all := Lines(f.bytes), Lines(whole);
    assert !IsTerminal(codec, all[0]) && !IsTerminal(codec, all[1]);
    assert forall i | 0 <= i < |lines| :: lines[i] == all[i];
  }

  lemma TwoInitialLines(codec: Codec, session: Session)
    requires Lawful(codec) && InitialLines(codec, session).Some?
    ensures Lines(InitialLines(codec, session).value)
            == [codec.encode(HeaderRecord(session)), codec.encode(UserRecord(session))]
  {
    var h, u := codec.encode(HeaderRecord(session)), codec.encode(UserRecord(session));
    TerminatedLines(h, u, u);
    var first := InitialLines(codec, session).value;
    assert h + [LF] + (u + [LF]) == h + [LF] + u + [LF];
    LinesOfTerminated([h, u], []);
    assert Terminated([h, u]) + [] == first;
  }

  lemma ThreeLinesInAll(codec: Codec, session: Session, ending: Ending)
    requires Lawful(codec) && InitialLines(codec, session).Some? && EndingLine(codec, session, ending).Some?
    ensures Lines(InitialLines(codec, session).value + EndingLine(codec, session, ending).value)
            == [codec.encode(HeaderRecord(session)), codec.encode(UserRecord(session)),
                codec.encode(EndingRecord(session, ending))]
  {
    var h, u := codec.encode(HeaderRecord(session)), codec.encode(UserRecord(session));
    var t := codec.encode(EndingRecord(session, ending));
    TerminatedLines(h, u, t);
    var all := InitialLines(codec, session).value + EndingLine(codec, session, ending).value;
    assert h + [LF] + (u + [LF]) + (t + [LF]) == h + [LF] + u + [LF] + t + [LF];
    LinesOfTerminated([h, u, t], []);
    assert Terminated([h, u, t]) + [] == all;
  }

  /** Once its writer is gone, a file never changes again: what a reader sees is what every later reader sees. */
  lemma {:induction false} ClosedFilesStay(codec: Codec, s: State, id: string, more: seq<Action>, t: State)
    requires Sound(codec, s) && id in s.files && s.writers[s.files[id].owner].phase.Closed?
    requires Run(codec, s, more) == Some(t)
    ensures Sound(codec, t) && id in t.files && t.files[id] == s.files[id]
    ensures t.files[id].owner in t.writers && t.writers[t.files[id].owner] == s.writers[s.files[id].owner]
    ensures Show(codec, t, id) == Show(codec, s, id)
    decreases |more|
  {
    if more != [] {
      var a, before := more[|more| - 1], Run(codec, s, more[..|more| - 1]).value;
      ClosedFilesStay(codec, s, id, more[..|more| - 1], before);
      ClosedFileStays(codec, before, id, a, t);
    }
  }

  lemma ClosedFileStays(codec: Codec, s: State, id: string, a: Action, t: State)
    requires Sound(codec, s) && id in s.files && s.writers[s.files[id].owner].phase.Closed?
    requires Step(codec, s, a) == Some(t)
    ensures Sound(codec, t) && id in t.files && t.files[id] == s.files[id]
    ensures t.writers[t.files[id].owner] == s.writers[s.files[id].owner]
  {
    StepKeepsSound(codec, s, a, t);
    StepsTouchTheirOwnFile(codec, s, a, t);
    if !a.Create? {
      var own, e := StepShape(codec, s, a, t);
    }
  }
}
