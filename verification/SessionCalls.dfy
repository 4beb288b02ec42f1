/**
 The session operations in the order of the program, on a disk where every other writer may act between any two of
 their steps and every step may fail. They are shown to take exactly the steps of `SessionStore`.
 */
module SessionCalls {
  import opened Wrappers
  import opened Bytes
  import opened Integers
  import opened SessionFormat
  import opened Projection
  import opened SessionStore

  const CREATE_RETRIES := 8

  /** Everything the writer does not decide: what others do, which identifiers, times and directory the sources give
      (None if they fail), which steps fail, and how many bytes one write takes. Nothing is assumed of it. */
  datatype Environment = Environment(
    others: nat -> seq<Action>,
    session: nat -> Option<Session>,
    ending: nat -> Option<(string, U64)>,
    fault: nat -> bool,
    piece: nat -> nat)

  class Disk {
    const codec: Codec
    const env: Environment
    var tick: nat
    var now: State
    ghost var trace: seq<Action>

    ghost predicate Valid()
      reads this
    {
      Run(codec, EMPTY, trace) == Some(now)
    }

    // A live writer and its file.
    ghost predicate At(w: WriterId, writer: Writer, bytes: Bytes)
      reads this
    {
      && w in now.writers && now.writers[w] == writer
      && var id := writer.session.sessionId;
      && id in now.files
      && now.files[id] == File(bytes, w, !writer.phase.Removing? && !writer.phase.Closed?)
    }

    // No file is the writer's.
    ghost predicate Gone(w: WriterId)
      reads this
    {
      forall id <- now.files :: now.files[id].owner != w
    }

    ghost predicate NothingFails() {
      forall k :: !env.fault(k)
    }

    ghost predicate NobodyElseActs() {
      forall k :: env.others(k) == []
    }

    // What the sources give at a moment starts a session, unless its identifier is in use.
    predicate CanStart(at: nat, prompt: string) {
      env.session(at).Some? && InitialLines(codec, env.session(at).value.(prompt := prompt)).Some?
    }

    // The identifier that the sources give at a moment is in use.
    predicate Collides(at: nat, files: map<string, File>) {
      env.session(at).Some? && env.session(at).value.sessionId in files
    }

    // As many attempts after a moment find usable sources, or an identifier in use.
    predicate AllStart(at: nat, tries: nat, prompt: string) {
      forall k | at < k <= at + tries :: CanStart(k, prompt)
    }

    predicate AllCollide(at: nat, tries: nat, files: map<string, File>) {
      forall k | at < k <= at + tries :: Collides(k, files)
    }

    // What the sources give at a moment ends the session: the line can be written and the file has room for it.
    predicate CanEnd(at: nat, session: Session, payload: Payload) {
      && env.ending(at).Some?
      && var last := EndingLine(codec, session, Ending(env.ending(at).value.0, env.ending(at).value.1, payload));
      && InitialLines(codec, session).Some? && last.Some?
      && |InitialLines(codec, session).value| + |last.value| <= 3145728
    }

    constructor (codec: Codec, env: Environment)
      ensures Valid() && this.codec == codec && this.env == env && now == EMPTY && trace == []
    {
      this.codec, this.env, tick, now, trace := codec, env, 0, EMPTY, [];
    }

    method Take(a: Action)
      requires Valid() && Step(codec, now, a).Some?
      modifies this
      ensures Valid() && trace == old(trace) + [a] && Some(now) == Step(codec, old(now), a) && tick == old(tick)
    {
      now := Step(codec, now, a).value;
      trace := trace + [a];
      assert trace[..|trace| - 1] == old(trace);
    }

    // Any number of steps of other writers, and the passing of time.
    method Interfere(w: WriterId)
      requires Valid()
      modifies this
      ensures Valid() && old(trace) <= trace && tick == old(tick) + 1
      ensures NobodyElseActs() ==> now == old(now)
      ensures w in now.writers <==> w in old(now.writers)
      ensures w in now.writers ==> now.writers[w] == old(now.writers)[w]
      ensures forall writer, bytes :: old(At(w, writer, bytes)) ==> At(w, writer, bytes)
      ensures old(Gone(w)) ==> Gone(w)
    {
      var others := env.others(tick);
      tick := tick + 1;
      for i := 0 to |others|
        invariant Valid() && old(trace) <= trace && tick == old(tick) + 1
        invariant NobodyElseActs() ==> now == old(now)
        invariant w in now.writers <==> w in old(now.writers)
        invariant w in now.writers ==> now.writers[w] == old(now.writers)[w]
        invariant forall writer, bytes :: old(At(w, writer, bytes)) ==> At(w, writer, bytes)
        invariant old(Gone(w)) ==> Gone(w)
      {
        var a := others[i];
        if a.writer != w && Step(codec, now, a).Some? {
          RunsAreSound(codec, trace, now);
          OthersLeaveAlone(codec, now, a, Step(codec, now, a).value, w);
          Take(a);
        }
      }
    }

    // Writes the next bytes of the writer's line in pieces of any size, until they are out or a write fails.
    method WriteAll(w: WriterId, count: nat, ghost writer: Writer, ghost bytes: Bytes)
      returns (ok: bool, ghost written: nat)
      requires Valid() && At(w, writer, bytes) && (writer.phase.Starting? || writer.phase.Appending?)
      requires count <= |writer.phase.todo|
      modifies this
      ensures Valid() && old(trace) <= trace
      ensures written <= count && (ok ==> written == count) && (NothingFails() ==> ok)
      ensures At(w, Progressed(writer, written), bytes + writer.phase.todo[..written])
    {
      var left: nat := count;
      written := 0;
      assert bytes + writer.phase.todo[..0] == bytes;
      while left > 0
        invariant Valid() && old(trace) <= trace && written + left == count
        invariant At(w, Progressed(writer, written), bytes + writer.phase.todo[..written])
      {
        Interfere(w);
        if env.fault(tick) {
          return false, written;
        }
        var size := if env.piece(tick) < 1 then 1 else if env.piece(tick) > left then left else env.piece(tick);
        WritePiece(w, size, writer, bytes, written);
        left, written := left - size, written + size;
      }
      return true, written;
    }

    // One write, of as many bytes as the system takes.
    method WritePiece(w: WriterId, size: nat, ghost writer: Writer, ghost bytes: Bytes, ghost written: nat)
      requires Valid() && (writer.phase.Starting? || writer.phase.Appending?)
      requires 0 < size && written + size <= |writer.phase.todo|
      requires At(w, Progressed(writer, written), bytes + writer.phase.todo[..written])
      modifies this
      ensures Valid() && old(trace) <= trace
      ensures At(w, Progressed(writer, written + size), bytes + writer.phase.todo[..written + size])
    {
      WriteTakes(codec, now, w, writer, bytes, written, size);
      Take(Write(w, size));
    }

    // Drops the file, and with it the lock.
    method Close(w: WriterId, ghost writer: Writer, ghost bytes: Bytes)
      requires Valid() && At(w, writer, bytes) && !writer.phase.Closed?
      modifies this
      ensures Valid() && old(trace) <= trace
      ensures At(w, writer.(phase := Closed), bytes)
    {
      Take(Abandon(w));
    }

    // Takes back a file: if it is still the writer's own, lets go of it and removes it.
    method TakeBack(w: WriterId, ghost writer: Writer, ghost bytes: Bytes) returns (removed: bool)
      requires Valid() && At(w, writer, bytes) && (writer.phase.Starting? || writer.phase.Open?)
      modifies this
      ensures Valid() && old(trace) <= trace
      ensures w in now.writers && now.writers[w] == writer.(phase := Closed)
      ensures removed ==> Remove(w) in trace && Gone(w)
      ensures !removed ==> At(w, writer.(phase := Closed), bytes)
      ensures NothingFails() ==> removed
    {
      Interfere(w);
      if env.fault(tick) {
        Close(w, writer, bytes);
        return false;
      }
      Take(Discard(w));
      assert At(w, writer.(phase := Removing), bytes);
      removed := Unlink(w, writer.(phase := Removing), bytes);
    }

    // Removes the file that the writer has let go of.
    method Unlink(w: WriterId, ghost writer: Writer, ghost bytes: Bytes) returns (removed: bool)
      requires Valid() && At(w, writer, bytes) && writer.phase.Removing?
      modifies this
      ensures Valid() && old(trace) <= trace
      ensures w in now.writers && now.writers[w] == writer.(phase := Closed)
      ensures removed ==> Remove(w) in trace && Gone(w)
      ensures !removed ==> At(w, writer.(phase := Closed), bytes)
      ensures NothingFails() ==> removed
    {
      Interfere(w);
      if env.fault(tick) {
        Close(w, writer, bytes);
        return false;
      }
      RunsAreSound(codec, trace, now);
      RemoveLeavesNone(codec, now, w);
      Take(Remove(w));
      assert trace[|trace| - 1] == Remove(w);
      return true;
    }

    /** Starts a session: at most eight identifiers are tried. A session that starts holds its file locked with exactly
        its two lines in it; one that does not leaves no live writer behind. Where nothing fails, only a source that
        gives nothing usable or eight identifiers in use keep a session from starting, and where nobody else acts it is
        the first identifier not in use that starts. */
    method StartFile(w: WriterId, prompt: string) returns (r: Option<Session>, ghost tries: nat)
      requires Valid() && w !in now.writers
      modifies this
      ensures Valid() && old(trace) <= trace
      ensures r.Some? ==>
                && r.value.prompt == prompt && InitialLines(codec, r.value).Some?
                && At(w, Writer(r.value, Open, true, None), InitialLines(codec, r.value).value)
      ensures r.None? ==> w in now.writers ==> now.writers[w].phase.Closed? && !now.writers[w].started
      ensures tries <= 8 && AllStart(old(tick), tries, prompt)
      ensures r.Some? ==> && tries < 8 && CanStart(old(tick) + tries + 1, prompt)
                          && r.value == env.session(old(tick) + tries + 1).value.(prompt := prompt)
      ensures NothingFails() && r.None? ==> tries == 8 || !CanStart(old(tick) + tries + 1, prompt)
      ensures NobodyElseActs() ==>
                && AllCollide(old(tick), tries, old(now.files))
                && (r.Some? ==> r.value.sessionId !in old(now.files))
    {
      var created;
      created, tries := CreateFile(w, prompt);
      if created.None? {
        return None, tries;
      }
      var started := FillFile(w, created.value.0, created.value.1);
      return if started then Some(created.value.0) else None, tries;
    }

    // Creates the file of the first identifier that is not in use, under its lock, with what is to be written to it.
    method CreateFile(w: WriterId, prompt: string) returns (r: Option<(Session, Bytes)>, ghost tries: nat)
      requires Valid() && w !in now.writers
      modifies this
      ensures Valid() && old(trace) <= trace
      ensures r.Some? ==>
                && r.value.0.prompt == prompt && InitialLines(codec, r.value.0) == Some(r.value.1)
                && At(w, Writer(r.value.0, Starting(r.value.1), false, None), [])
      ensures r.None? ==> w !in now.writers
      ensures tries <= 8 && AllStart(old(tick), tries, prompt)
      ensures r.Some? ==> && tries < 8 && CanStart(old(tick) + tries + 1, prompt)
                          && r.value.0 == env.session(old(tick) + tries + 1).value.(prompt := prompt)
      ensures NothingFails() && r.None? ==> tries == 8 || !CanStart(old(tick) + tries + 1, prompt)
      ensures NobodyElseActs() ==>
                && AllCollide(old(tick), tries, old(now.files))
                && (r.Some? ==> r.value.0.sessionId !in old(now.files))
    {
      tries := 0;
      for i := 0 to CREATE_RETRIES
        invariant Valid() && old(trace) <= trace && w !in now.writers
        invariant tries == i && tick == old(tick) + i
        invariant AllStart(old(tick), tries, prompt)
        invariant NobodyElseActs() ==> now == old(now) && AllCollide(old(tick), tries, old(now.files))
      {
        var again;
        r, again := TryOnce(w, prompt);
        if !again {
          return r, tries;
        }
        tries := tries + 1;
      }
      return None, tries;
    }

    // One identifier: created, in use, or the end of the attempt.
    method TryOnce(w: WriterId, prompt: string) returns (r: Option<(Session, Bytes)>, again: bool)
      requires Valid() && w !in now.writers
      modifies this
      ensures Valid() && old(trace) <= trace && tick == old(tick) + 1
      ensures r.Some? ==>
                && !again && r.value.0.prompt == prompt && InitialLines(codec, r.value.0) == Some(r.value.1)
                && At(w, Writer(r.value.0, Starting(r.value.1), false, None), [])
                && CanStart(tick, prompt) && r.value.0 == env.session(tick).value.(prompt := prompt)
      ensures r.None? ==> w !in now.writers
      ensures again ==> CanStart(tick, prompt)
      ensures NothingFails() && r.None? && !again ==> !CanStart(tick, prompt)
      ensures NobodyElseActs() ==>
                && (r.None? ==> now == old(now))
                && (r.Some? ==> r.value.0.sessionId !in old(now.files))
                && (again ==> Collides(tick, old(now.files)))
    {
      Interfere(w);
      var source := env.session(tick);
      if source.None? {
        return None, false;
      }
      var session := source.value.(prompt := prompt);
      var lines := InitialLines(codec, session);
      if lines.None? {
        return None, false;
      }
      if session.sessionId in now.files {
        return None, true;
      }
      if env.fault(tick) {
        return None, false;
      }
      Take(Create(w, session));
      return Some((session, lines.value)), false;
    }

    method FillFile(w: WriterId, session: Session, lines: Bytes) returns (started: bool)
      requires Valid() && InitialLines(codec, session) == Some(lines)
      requires At(w, Writer(session, Starting(lines), false, None), [])
      modifies this
      ensures Valid() && old(trace) <= trace
      ensures started ==> At(w, Writer(session, Open, true, None), lines)
      ensures !started ==> w in now.writers && now.writers[w] == Writer(session, Closed, false, None)
      ensures NothingFails() ==> started
    {
      var ok;
      ghost var written;
      ok, written := WriteLines(w, session, lines);
      Interfere(w);
      if !ok || env.fault(tick) {
        var removed := TakeBack(w, Writer(session, Starting(lines[written..]), false, None), lines[..written]);
        return false;
      }
      assert lines[written..] == [] && lines[..written] == lines;
      Take(FinishStart(w));
      return true;
    }

    // The two lines are written one after the other.
    method WriteLines(w: WriterId, session: Session, lines: Bytes) returns (ok: bool, ghost written: nat)
      requires Valid() && InitialLines(codec, session) == Some(lines)
      requires At(w, Writer(session, Starting(lines), false, None), [])
      modifies this
      ensures Valid() && old(trace) <= trace
      ensures written <= |lines| && (ok ==> written == |lines|) && (NothingFails() ==> ok)
      ensures At(w, Writer(session, Starting(lines[written..]), false, None), lines[..written])
    {
      ghost var fresh_ := Writer(session, Starting(lines), false, None);
      var header := |codec.encode(HeaderRecord(session))| + 1;
      ghost var second := 0;
      ok, written := WriteAll(w, header, fresh_, []);
      assert [] + lines[..written] == lines[..written];
      if ok {
        ok, second := WriteAll(w, |lines| - header, Progressed(fresh_, written), lines[..written]);
        assert lines[..written] + lines[written..][..second] == lines[..written + second];
        assert lines[written..][second..] == lines[written + second..];
        written := written + second;
      }
    }

    /** Ends a session with an answer or a failure. Whatever happens the writer is gone and its file unlocked; if the
        call succeeds the file holds exactly the three lines and a reader is shown what was written. Where nothing
        fails it succeeds exactly if a last line can be made and there is room for it. */
    method Append(w: WriterId, session: Session, payload: Payload) returns (ok: bool)
      requires Valid() && InitialLines(codec, session).Some? && EndingPayload(payload)
      requires At(w, Writer(session, Open, true, None), InitialLines(codec, session).value)
      modifies this
      ensures Valid() && old(trace) <= trace
      ensures w in now.writers && now.writers[w].phase.Closed? && now.writers[w].session == session
      ensures ok ==> && now.writers[w].ending.Some? && now.writers[w].ending.value.payload == payload
                     && var last := EndingLine(codec, session, now.writers[w].ending.value);
                     && last.Some?
                     && At(w, now.writers[w], InitialLines(codec, session).value + last.value)
      ensures ok ==> CanEnd(old(tick) + 1, session, payload)
      ensures NothingFails() && CanEnd(old(tick) + 1, session, payload) ==> ok
      ensures ok && Lawful(codec) ==>
                Show(codec, now, session.sessionId) == Ok(Shown(session, now.writers[w].ending, false))
      ensures Lawful(codec) ==>
                && Show(codec, now, session.sessionId).Ok?
                && Show(codec, now, session.sessionId).value.projection.prompt == session.prompt
    {
      ghost var first := InitialLines(codec, session).value;
      var ending := ChooseEnding(w, session, payload);
      if ending.None? {
        Close(w, Writer(session, Open, true, None), first);
        ReadsBack(w);
        return false;
      }
      Take(BeginAppend(w, ending.value));
      var line := EndingLine(codec, session, ending.value).value;
      ghost var appending := Writer(session, Appending(line), true, ending);
      ghost var written;
      ok, written := WriteAll(w, |line|, appending, first);
      assert line[..|line|] == line;
      Interfere(w);
      if ok && env.fault(tick) {
        ok := false;
      }
      Close(w, Progressed(appending, written), first + line[..written]);
      ReadsBack(w);
    }

    // Everything that can fail before the first byte of the last line is written.
    method ChooseEnding(w: WriterId, session: Session, payload: Payload) returns (r: Option<Ending>)
      requires Valid() && InitialLines(codec, session).Some? && EndingPayload(payload)
      requires At(w, Writer(session, Open, true, None), InitialLines(codec, session).value)
      modifies this
      ensures Valid() && old(trace) <= trace
      ensures At(w, Writer(session, Open, true, None), InitialLines(codec, session).value)
      ensures r.Some? ==> CanEnd(old(tick) + 1, session, payload)
      ensures NothingFails() && CanEnd(old(tick) + 1, session, payload) ==> r.Some?
      ensures r.Some? ==>
                && r.value.payload == payload
                && var last := EndingLine(codec, session, r.value);
                && last.Some? && |InitialLines(codec, session).value| + |last.value| <= MAX_SESSION_BYTES
    {
      Interfere(w);
      var source := env.ending(tick);
      if source.None? {
        return None;
      }
      var ending := Ending(source.value.0, source.value.1, payload);
      var line := EndingLine(codec, session, ending);
      if line.None? || env.fault(tick) || |now.files[session.sessionId].bytes| + |line.value| > MAX_SESSION_BYTES {
        return None;
      }
      return Some(ending);
    }

    // Takes a session back.
    method Rollback(w: WriterId, session: Session) returns (ok: bool)
      requires Valid() && InitialLines(codec, session).Some?
      requires At(w, Writer(session, Open, true, None), InitialLines(codec, session).value)
      modifies this
      ensures Valid() && old(trace) <= trace
      ensures w in now.writers && now.writers[w].phase.Closed?
      ensures ok ==> Remove(w) in trace && Gone(w)
      ensures NothingFails() ==> ok
    {
      ok := TakeBack(w, Writer(session, Open, true, None), InitialLines(codec, session).value);
      if ok {
        Interfere(w);
        if env.fault(tick) {
          ok := false;
        }
      }
    }

    // What a reader is shown of a session whose writer is gone.
    lemma ReadsBack(w: WriterId)
      requires Valid() && w in now.writers && now.writers[w].started && now.writers[w].phase.Closed?
      requires now.writers[w].session.sessionId in now.files
      requires now.files[now.writers[w].session.sessionId].owner == w
      ensures Lawful(codec) ==>
                var session := now.writers[w].session;
                var shown := Show(codec, now, session.sessionId);
                var bytes := now.files[session.sessionId].bytes;
                && shown.Ok? && shown.value.projection.prompt == session.prompt
                && InitialLines(codec, session).Some?
                && (now.writers[w].ending.Some? ==>
                      var last := EndingLine(codec, session, now.writers[w].ending.value);
                      && last.Some?
                      && (bytes == InitialLines(codec, session).value + last.value ==>
                            shown == Ok(Shown(session, now.writers[w].ending, false))))
    {
      if Lawful(codec) {
        SessionsReadBack(codec, trace, now, now.writers[w].session.sessionId);
        if now.writers[w].ending.Some? {
          LineIsNotEmpty(codec, now.writers[w].session, now.writers[w].ending.value);
        }
      }
    }
  }

  function Progressed(writer: Writer, written: nat): Writer
    requires (writer.phase.Starting? || writer.phase.Appending?) && written <= |writer.phase.todo|
  {
    writer.(phase := writer.phase.(todo := writer.phase.todo[written..]))
  }

  lemma LineIsNotEmpty(codec: Codec, session: Session, ending: Ending)
    ensures EndingLine(codec, session, ending).Some? ==> EndingLine(codec, session, ending).value != []
  {
  }

  lemma RemoveLeavesNone(codec: Codec, s: State, w: WriterId)
    requires Sound(codec, s) && w in s.writers && s.writers[w].phase.Removing?
    ensures Step(codec, s, Remove(w)).Some?
    ensures var t := Step(codec, s, Remove(w)).value;
            && w in t.writers && t.writers[w] == s.writers[w].(phase := Closed)
            && forall id <- t.files :: t.files[id].owner != w
  {
  }

  lemma WriteTakes(codec: Codec, s: State, w: WriterId, writer: Writer, bytes: Bytes, written: nat, size: nat)
    requires (writer.phase.Starting? || writer.phase.Appending?) && 0 < size && written + size <= |writer.phase.todo|
    requires w in s.writers && s.writers[w] == Progressed(writer, written)
    requires writer.session.sessionId in s.files
    requires s.files[writer.session.sessionId] == File(bytes + writer.phase.todo[..written], w, true)
    ensures Step(codec, s, Write(w, size)) == Some(State(
              s.files[writer.session.sessionId := File(bytes + writer.phase.todo[..written + size], w, true)],
              s.writers[w := Progressed(writer, written + size)]))
  {
    var todo := writer.phase.todo;
    assert todo[written..][..size] == todo[written..written + size];
    assert todo[written..][size..] == todo[written + size..];
    assert bytes + todo[..written] + todo[written..written + size] == bytes + todo[..written + size];
  }

  lemma OthersLeaveAlone(codec: Codec, s: State, a: Action, t: State, w: WriterId)
    requires Sound(codec, s) && Step(codec, s, a) == Some(t) && a.writer != w
    ensures w in t.writers <==> w in s.writers
    ensures w in s.writers ==> t.writers[w] == s.writers[w]
    ensures forall id <- s.files | s.files[id].owner == w :: id in t.files && t.files[id] == s.files[id]
    ensures (forall id <- s.files :: s.files[id].owner != w) ==> forall id <- t.files :: t.files[id].owner != w
  {
    StepsTouchTheirOwnFile(codec, s, a, t);
    if !a.Create? {
      var id, e := StepShape(codec, s, a, t);
    }
  }
}
