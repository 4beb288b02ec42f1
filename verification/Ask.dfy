/** Asking once and showing what was kept: the two commands that put a session on the terminal. */
module Ask {
  import opened Wrappers
  import opened Bytes
  import opened SessionFormat
  import opened Projection
  import opened SessionStore
  import opened SessionCalls
  import Renderer
  import Numerals

  datatype ModelReply = Answer(text: string) | InvalidPrompt | Failed(code: FailureCode)

  // How writing to the standard output went.
  datatype Output = Written | BrokenPipe | Unwritable

  // The lines on the standard error output.
  datatype Notice =
    | NotStarted | OutputFailed | NotRetained | NotTakenBack | PromptRefused
    | ModelFailed(code: FailureCode) | SessionIs(id: string)

  datatype Completion = Completion(status: nat, stdout: Option<string>, stderr: seq<Notice>)

  const SUCCESS := 0
  const FAILURE := 1
  const USAGE := 2

  function StatusName(status: SessionStatus): string {
    match status
    case Completed => "completed"
    case Failed => "failed"
    case Interrupted => "interrupted"
  }

  function Heading(id: string, status: SessionStatus): string {
    "Session: " + id + "\nStatus: " + StatusName(status) + "\nProvider: openai-codex\n\nUser:\n"
  }

  function RenderTerminal(terminal: Option<Terminal>): string {
    match terminal
    case Some(Assistant(answer)) => "\nAssistant:\n" + Renderer.Render(answer)
    case Some(Failure(code)) => "\nFailure: " + Renderer.Render(Diagnostic(code))
    case None => ""
  }

  function RenderSession(shown: ShowResult): string {
    var p := shown.projection;
    Heading(p.sessionId, p.status) + Renderer.Render(p.prompt) + RenderTerminal(p.terminal)
  }

  /** What showing the session prints, if it can be shown. */
  function ShownText(disk: Disk, id: string): Option<string>
    reads disk
  {
    var shown := Show(disk.codec, disk.now, id);
    if shown.Ok? then Some(RenderSession(shown.value)) else None
  }

  /** The session is shown with its prompt, however it ended. */
  ghost predicate ShowsPrompt(disk: Disk, session: Session)
    reads disk
  {
    exists status, terminal ::
      ShownText(disk, session.sessionId)
      == Some(Heading(session.sessionId, status) + Renderer.Render(session.prompt) + RenderTerminal(terminal))
  }

  /** The session is shown with its prompt and this ending. */
  ghost predicate ShowsEnding(disk: Disk, session: Session, terminal: Terminal)
    reads disk
  {
    ShownText(disk, session.sessionId)
    == Some(Heading(session.sessionId, StatusOf(Some(terminal))) + Renderer.Render(session.prompt)
            + RenderTerminal(Some(terminal)))
  }

  method End(disk: Disk, w: WriterId, session: Session, payload: Payload) returns (ok: bool)
    requires disk.Valid() && InitialLines(disk.codec, session).Some? && EndingPayload(payload)
    requires disk.At(w, Writer(session, Open, true, None), InitialLines(disk.codec, session).value)
    modifies disk
    ensures disk.Valid() && old(disk.trace) <= disk.trace
    ensures w in disk.now.writers && disk.now.writers[w].phase.Closed?
    ensures Lawful(disk.codec) ==> ShowsPrompt(disk, session) && (ok ==> ShowsEnding(disk, session, Says(payload)))
    ensures CanRetain(disk, session, payload) ==> ok
  {
    ok := disk.Append(w, session, payload);
    if Lawful(disk.codec) {
      RenderedParts(disk.codec, disk.now, session.sessionId);
    }
  }

  // No step fails, and whenever the writer asks for a time the line can be made and there is room for it.
  ghost predicate CanRetain(disk: Disk, session: Session, payload: Payload) {
    disk.NothingFails() && forall at :: disk.CanEnd(at, session, payload)
  }

  // No step fails, nobody else writes, and one of the next eight identifiers is not in use.
  ghost predicate CanBegin(disk: Disk, prompt: string)
    reads disk
  {
    && disk.NothingFails() && disk.NobodyElseActs()
    && (forall at | disk.tick < at <= disk.tick + 8 :: disk.CanStart(at, prompt))
    && (exists at | disk.tick < at <= disk.tick + 8 :: !disk.Collides(at, disk.now.files))
  }

  /** One ask, with every other writer at work beside it. Without a session nothing is asked; an answer is printed
      whether or not it could be retained, and the status says which. A retained answer is later shown exactly as it was
      printed, a retained failure with its diagnostic, and where the last line could not be written the prompt is still
      shown. A prompt that the model refuses leaves no session if it could be taken back. Where nothing fails a session
      is started, what it ends with is retained, and a refused prompt is taken back. */
  method RunAsk(disk: Disk, w: WriterId, prompt: string, reply: ModelReply, output: Output)
    returns (c: Completion, ghost session: Option<Session>)
    requires disk.Valid() && w !in disk.now.writers
    modifies disk
    ensures disk.Valid() && old(disk.trace) <= disk.trace
    ensures w in disk.now.writers ==> disk.now.writers[w].phase.Closed?
    ensures session.None? <==> c == Completion(FAILURE, None, [NotStarted])
    ensures session.Some? ==>
              && session.value.prompt == prompt
              && Reported(c, reply, output, session.value.sessionId)
              && (c.status == USAGE ==> disk.Gone(w))
              && (!reply.InvalidPrompt? && Lawful(disk.codec) ==>
                    && ShowsPrompt(disk, session.value)
                    && (NotRetained !in c.stderr ==>
                          ShowsEnding(disk, session.value,
                                      if reply.Answer? then Assistant(reply.text) else Failure(reply.code))))
    ensures old(CanBegin(disk, prompt)) ==> session.Some?
    ensures session.Some? ==> EndsWell(disk, session.value, reply, c)
  {
    var started, _ := disk.StartFile(w, prompt);
    session := started;
    if started.None? {
      return Completion(FAILURE, None, [NotStarted]), session;
    }
    c := Conclude(disk, w, started.value, reply, output);
  }

  // Where nothing fails, what the session ends with is retained and a refused prompt is taken back.
  ghost predicate EndsWell(disk: Disk, session: Session, reply: ModelReply, c: Completion) {
    disk.NothingFails() ==>
      match reply {
        case Answer(text) =>
          CanRetain(disk, session, AssistantMessage(text)) ==> c.status == 0 && NotRetained !in c.stderr
        case InvalidPrompt => c.status == 2
        case Failed(code) =>
          CanRetain(disk, session, TerminalFailure(code, Diagnostic(code))) ==> NotRetained !in c.stderr
      }
  }

  method Conclude(disk: Disk, w: WriterId, session: Session, reply: ModelReply, output: Output)
    returns (c: Completion)
    requires disk.Valid() && InitialLines(disk.codec, session).Some?
    requires disk.At(w, Writer(session, Open, true, None), InitialLines(disk.codec, session).value)
    modifies disk
    ensures disk.Valid() && old(disk.trace) <= disk.trace
    ensures w in disk.now.writers && disk.now.writers[w].phase.Closed?
    ensures Reported(c, reply, output, session.sessionId)
    ensures c.status == USAGE ==> disk.Gone(w)
    ensures !reply.InvalidPrompt? && Lawful(disk.codec) ==>
              && ShowsPrompt(disk, session)
              && (NotRetained !in c.stderr ==>
                    ShowsEnding(disk, session, if reply.Answer? then Assistant(reply.text) else Failure(reply.code)))
    ensures EndsWell(disk, session, reply, c)
  {
    var id := session.sessionId;
    match reply {
      case Answer(text) =>
        var appended := End(disk, w, session, AssistantMessage(text));
        var rendered := Renderer.RenderModelText(text);
        var stderr := if output.Unwritable? then [OutputFailed] else [];
        if !appended {
          stderr := stderr + [NotRetained];
        }
        c := Completion(if appended then SUCCESS else FAILURE, Some(rendered), stderr + [SessionIs(id)]);
      case InvalidPrompt =>
        var removed := disk.Rollback(w, session);
        c := if removed then Completion(USAGE, None, [PromptRefused]) else Completion(FAILURE, None, [NotTakenBack]);
      case Failed(code) =>
        var appended := End(disk, w, session, TerminalFailure(code, Diagnostic(code)));
        c := Completion(FAILURE, None,
                        [ModelFailed(code)] + (if appended then [] else [NotRetained]) + [SessionIs(id)]);
    }
  }

  // What a started session comes to on the terminal.
  predicate Reported(c: Completion, reply: ModelReply, output: Output, id: string) {
    match reply
    case Answer(text) =>
      && c.stdout == Some(Renderer.Render(text))
      && (c.status == SUCCESS || c.status == FAILURE)
      && c.stderr == (if output.Unwritable? then [OutputFailed] else [])
                     + (if c.status == FAILURE then [NotRetained] else [])
                     + [SessionIs(id)]
    case InvalidPrompt =>
      c == Completion(USAGE, None, [PromptRefused]) || c == Completion(FAILURE, None, [NotTakenBack])
    case Failed(code) =>
      && c.status == FAILURE && c.stdout == None
      && (c.stderr == [ModelFailed(code), SessionIs(id)] || c.stderr == [ModelFailed(code), NotRetained, SessionIs(id)])
  }

  lemma RenderedParts(codec: Codec, s: State, id: string)
    ensures Show(codec, s, id).Ok? ==>
              var p := Show(codec, s, id).value.projection;
              && p.sessionId == id
              && RenderSession(Show(codec, s, id).value)
                 == Heading(id, p.status) + Renderer.Render(p.prompt) + RenderTerminal(p.terminal)
  {
  }

  /** Nothing that any later step of any writer does changes what the session shows. */
  lemma ShownForGood(codec: Codec, actions: seq<Action>, s: State, id: string, more: seq<Action>, t: State)
    requires Run(codec, EMPTY, actions) == Some(s) && Run(codec, s, more) == Some(t)
    requires id in s.files && s.files[id].owner in s.writers && s.writers[s.files[id].owner].phase.Closed?
    ensures Show(codec, t, id) == Show(codec, s, id)
  {
    RunsAreSound(codec, actions, s);
    ClosedFilesStay(codec, s, id, more, t);
  }

  // ---- what is printed ----

  /** The text that shows a session: its identifier, what became of it, the prompt, and the answer or the diagnostic. */
  lemma SessionsPrint(shown: ShowResult)
    ensures var p := shown.projection;
            RenderSession(shown)
            == "Session: " + p.sessionId + "\nStatus: "
               + (if p.status.Completed? then "completed" else if p.status.Failed? then "failed" else "interrupted")
               + "\nProvider: openai-codex\n\nUser:\n" + Renderer.Render(p.prompt)
               + (if p.terminal.None? then ""
                  else if p.terminal.value.Assistant? then "\nAssistant:\n" + Renderer.Render(p.terminal.value.text)
                  else "\nFailure: " + Renderer.Render(Diagnostic(p.terminal.value.code)))
  {
  }

  // ---- what a shown session can do to a terminal ----

  lemma CleanConcat(a: string, b: string)
    requires (forall c <- a :: Renderer.Harmless(c)) && Renderer.Clean(b)
    ensures Renderer.Clean(a + b)
  {
    assert (a + b)[|a + b| - 1] == b[|b| - 1];
  }

  lemma HarmlessConcat(a: string, b: string)
    requires (forall c <- a :: Renderer.Harmless(c)) && (forall c <- b :: Renderer.Harmless(c))
    ensures forall c <- a + b :: Renderer.Harmless(c)
  {
  }

  lemma StatusIsHarmless(status: SessionStatus)
    ensures forall c <- StatusName(status) :: Renderer.Harmless(c)
  {
  }

  lemma HeadingIsHarmless(id: string, status: SessionStatus)
    requires ValidId(id)
    ensures forall c <- Heading(id, status) :: Renderer.Harmless(c)
  {
    assert forall c <- id :: Numerals.IsDigit(c);
    HarmlessConcat("Session: ", id);
    var front := "Session: " + id;
    HarmlessConcat(front, "\nStatus: ");
    StatusIsHarmless(status);
    HarmlessConcat(front + "\nStatus: ", StatusName(status));
    HarmlessConcat(front + "\nStatus: " + StatusName(status), "\nProvider: openai-codex\n\nUser:\n");
  }

  lemma LabelledIsClean(front: string, title: string, text: string)
    requires Renderer.Clean(front) && forall c <- title :: Renderer.Harmless(c)
    ensures Renderer.Clean(front + (title + Renderer.Render(text)))
  {
    Renderer.RenderCleans(text);
    CleanConcat(title, Renderer.Render(text));
    CleanConcat(front, title + Renderer.Render(text));
  }

  lemma TerminalIsClean(front: string, terminal: Option<Terminal>)
    requires Renderer.Clean(front)
    ensures Renderer.Clean(front + RenderTerminal(terminal))
  {
    match terminal {
      case None =>
        assert front + "" == front;
      case Some(Assistant(answer)) =>
        LabelledIsClean(front, "\nAssistant:\n", answer);
      case Some(Failure(code)) =>
        LabelledIsClean(front, "\nFailure: ", Diagnostic(code));
    }
  }

  lemma RenderedSessionIsClean(shown: ShowResult)
    requires ValidId(shown.projection.sessionId)
    ensures Renderer.Clean(RenderSession(shown))
  {
    var p := shown.projection;
    HeadingIsHarmless(p.sessionId, p.status);
    Renderer.RenderCleans(p.prompt);
    CleanConcat(Heading(p.sessionId, p.status), Renderer.Render(p.prompt));
    TerminalIsClean(Heading(p.sessionId, p.status) + Renderer.Render(p.prompt), p.terminal);
  }

  lemma ProjectedIdIsValid(codec: Codec, bytes: Bytes, id: string)
    requires Project(codec, bytes, id).Ok?
    ensures ValidId(id) && Project(codec, bytes, id).value.projection.sessionId == id
  {
  }

  /** Whatever bytes a session file holds, showing it prints lines without any control but LF and tab and without any
      bidirectional control. */
  lemma ShownSessionsAreClean(codec: Codec, bytes: Bytes, id: string)
    requires Project(codec, bytes, id).Ok?
    ensures Renderer.Clean(RenderSession(Project(codec, bytes, id).value))
  {
    ProjectedIdIsValid(codec, bytes, id);
    RenderedSessionIsClean(Project(codec, bytes, id).value);
  }
}
