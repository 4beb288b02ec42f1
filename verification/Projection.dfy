/** Reading a session log back: from any bytes to what the session was, or a reason why they say nothing. */
module Projection {
  import opened Wrappers
  import opened Bytes
  import opened Sequences
  import opened Integers
  import opened Text
  import opened SessionFormat

  datatype SessionStatus = Completed | Failed | Interrupted

  datatype Terminal = Assistant(text: string) | Failure(code: FailureCode)

  datatype SessionProjection = SessionProjection(
    sessionId: string, createdAt: U64, prompt: string, status: SessionStatus, terminal: Option<Terminal>)

  datatype ShowResult = ShowResult(projection: SessionProjection, trailingFragment: bool)

  datatype ProjectionError = UnsupportedVersion | Corrupt

  // ---- records ----

  predicate Readable(codec: Codec, line: Bytes) {
    line != [] && |line| <= MAX_RECORD_BYTES && codec.decode(line).Some?
  }

  predicate AllReadable(codec: Codec, lines: seq<Bytes>) {
    forall i | 0 <= i < |lines| :: Readable(codec, lines[i])
  }

  predicate Accepted(codec: Codec, lines: seq<Bytes>) {
    |lines| <= 3 && AllReadable(codec, lines)
  }

  function Decoded(codec: Codec, lines: seq<Bytes>): (records: seq<Record>)
    requires AllReadable(codec, lines)
    ensures |records| == |lines|
    ensures forall i | 0 <= i < |lines| :: codec.decode(lines[i]) == Some(records[i])
  {
    seq(|lines|, i requires 0 <= i < |lines| => codec.decode(lines[i]).value)
  }

  /** The complete lines as records and whether something follows the last of them: between one and three lines, each
      of them a record of an allowed size. */
  function Records(codec: Codec, bytes: Bytes): Option<(seq<Record>, bool)> {
    var lines := Lines(bytes);
    if |bytes| <= MAX_SESSION_BYTES && 1 <= |lines| && Accepted(codec, lines)
    then Some((Decoded(codec, lines), Rest(bytes) != []))
    else None
  }

  // Back to the last LF.
  method CompleteEnd(bytes: Bytes) returns (end: nat)
    ensures end <= |bytes| && (end > 0 ==> bytes[end - 1] == LF)
    ensures Lines(bytes[..end]) == Lines(bytes) && Rest(bytes) == bytes[end..]
  {
    end := |bytes|;
    assert bytes[..|bytes|] == bytes && bytes[|bytes|..] == [];
    while end > 0 && bytes[end - 1] != LF
      invariant 0 <= end <= |bytes|
      invariant Lines(bytes) == Lines(bytes[..end]) && Rest(bytes) == Rest(bytes[..end]) + bytes[end..]
    {
      ByteBefore(bytes, end - 1);
      end := end - 1;
    }
    assert [] + bytes[end..] == bytes[end..];
  }

  lemma ByteBefore(bytes: Bytes, k: nat)
    requires k < |bytes| && bytes[k] != LF
    ensures Lines(bytes[..k]) == Lines(bytes[..k + 1])
    ensures Rest(bytes[..k]) + bytes[k..] == Rest(bytes[..k + 1]) + bytes[k + 1..]
  {
    NextByte(bytes, k);
    Associates(Rest(bytes[..k]), [bytes[k]], bytes[k + 1..]);
    assert bytes[k..] == [bytes[k]] + bytes[k + 1..];
  }

  // Forward from line to line.
  method CutRecords(codec: Codec, complete: Bytes) returns (r: Option<seq<Record>>)
    requires complete != [] && complete[|complete| - 1] == LF
    ensures var lines := Lines(complete);
            r == if Accepted(codec, lines) then Some(Decoded(codec, lines)) else None
  {
    var records: seq<Record> := [];
    var start := 0;
    ghost var lines: seq<Bytes> := [];
    for i := 0 to |complete|
      invariant start <= i && complete[start..i] == Rest(complete[..i])
      invariant lines == Lines(complete[..i]) && Accepted(codec, lines)
      invariant records == Decoded(codec, lines)
    {
      if complete[i] == LF {
        var line := complete[start..i];
        LineEnds(codec, complete, i, lines, line);
        lines := lines + [line];
        var decoded := codec.decode(line);
        if line == [] || |line| > MAX_RECORD_BYTES || |records| == 3 || decoded.None? {
          return None;
        }
        records := records + [decoded.value];
        start := i + 1;
        assert complete[start..i + 1] == [];
      } else {
        NextByte(complete, i);
        SliceGrows(complete, start, i);
      }
    }
    assert complete[..|complete|] == complete;
    return Some(records);
  }

  // Another complete line.
  lemma LineEnds(codec: Codec, complete: Bytes, i: nat, lines: seq<Bytes>, line: Bytes)
    requires i < |complete| && complete[i] == LF && Accepted(codec, lines)
    requires lines == Lines(complete[..i]) && line == Rest(complete[..i])
    ensures Lines(complete[..i + 1]) == lines + [line] && Rest(complete[..i + 1]) == []
    ensures if |lines| < 3 && Readable(codec, line) then
              && Accepted(codec, lines + [line])
              && Decoded(codec, lines + [line]) == Decoded(codec, lines) + [codec.decode(line).value]
            else !Accepted(codec, Lines(complete))
  {
    NextByte(complete, i);
    AcceptedSnoc(codec, lines, line);
    if |lines| == 3 || !Readable(codec, line) {
      Refused(codec, complete, i + 1);
    }
  }

  lemma AcceptedSnoc(codec: Codec, lines: seq<Bytes>, line: Bytes)
    requires Accepted(codec, lines)
    ensures Accepted(codec, lines + [line]) <==> |lines| < 3 && Readable(codec, line)
    ensures Accepted(codec, lines + [line]) ==>
              Decoded(codec, lines + [line]) == Decoded(codec, lines) + [codec.decode(line).value]
  {
    ReadableSnoc(codec, lines, line);
  }

  lemma ReadableSnoc(codec: Codec, lines: seq<Bytes>, line: Bytes)
    requires AllReadable(codec, lines)
    ensures AllReadable(codec, lines + [line]) <==> Readable(codec, line)
    ensures Readable(codec, line) ==>
              Decoded(codec, lines + [line]) == Decoded(codec, lines) + [codec.decode(line).value]
  {
    var more := lines + [line];
    assert more[|lines|] == line;
    if Readable(codec, line) {
      assert AllReadable(codec, more);
    }
  }

  // Lines that cannot be accepted stay so when more follow.
  lemma Refused(codec: Codec, bytes: Bytes, k: nat)
    requires k <= |bytes| && !Accepted(codec, Lines(bytes[..k]))
    ensures !Accepted(codec, Lines(bytes))
  {
    LinesKeep(bytes, k);
    var lines, all := Lines(bytes[..k]), Lines(bytes);
    if !AllReadable(codec, lines) {
      var i :| 0 <= i < |lines| && !Readable(codec, lines[i]);
      assert all[i] == lines[i];
    }
  }

  lemma NextByte(bytes: Bytes, i: nat)
    requires i < |bytes|
    ensures Lines(bytes[..i + 1]) ==
            if bytes[i] == LF then Lines(bytes[..i]) + [Rest(bytes[..i])] else Lines(bytes[..i])
    ensures Rest(bytes[..i + 1]) == if bytes[i] == LF then [] else Rest(bytes[..i]) + [bytes[i]]
  {
    assert bytes[..i + 1][..i] == bytes[..i];
  }

  /** The program's reading of the file. */
  method ParseRecords(codec: Codec, bytes: Bytes) returns (r: Option<(seq<Record>, bool)>)
    ensures r == Records(codec, bytes)
  {
    if |bytes| > MAX_SESSION_BYTES {
      return None;
    }
    var end := CompleteEnd(bytes);
    if end == 0 {
      return None;
    }
    SomeLine(bytes[..end]);
    var records := CutRecords(codec, bytes[..end]);
    if records.None? {
      return None;
    }
    return Some((records.value, end != |bytes|));
  }

  lemma SomeLine(bytes: Bytes)
    requires bytes != [] && bytes[|bytes| - 1] == LF
    ensures Lines(bytes) != []
  {
  }

  // Complete lines stay complete lines.
  lemma {:induction false} LinesKeep(bytes: Bytes, k: nat)
    requires k <= |bytes|
    ensures Lines(bytes[..k]) <= Lines(bytes)
    decreases |bytes|
  {
    if k == |bytes| {
      assert bytes[..k] == bytes;
    } else {
      assert bytes[..|bytes| - 1][..k] == bytes[..k];
      LinesKeep(bytes[..|bytes| - 1], k);
    }
  }

  // ---- the projection ----

  function ProjectTerminal(record: Record, sessionId: string, userEntryId: string, operationId: string)
    : Result<Terminal, ProjectionError>
  {
    match record
    case Header(_, _, _, _, _) => Err(Corrupt)
    case Entry(entryId, parent, sequence, _, operation, payload) =>
      if !ValidId(entryId) || entryId == sessionId || entryId == userEntryId || entryId == operationId
         || parent != Some(userEntryId) || sequence != 2 || operation != operationId then Err(Corrupt)
      else match payload
        case AssistantMessage(text) => Ok(Assistant(text))
        case TerminalFailure(code, diagnostic) =>
          if ByteLength(diagnostic) <= MAX_DIAGNOSTIC_BYTES && diagnostic == Diagnostic(code) then Ok(Failure(code))
          else Err(Corrupt)
        case UserMessage(_) => Err(Corrupt)
  }

  function StatusOf(terminal: Option<Terminal>): SessionStatus {
    match terminal
    case Some(Assistant(_)) => Completed
    case Some(Failure(_)) => Failed
    case None => Interrupted
  }

  function ProjectRecords(records: seq<Record>, expectedId: string): Result<SessionProjection, ProjectionError>
    requires 1 <= |records| <= 3
  {
    match records[0]
    case Entry(_, _, _, _, _, _) => Err(Corrupt)
    case Header(version, sessionId, createdAt, _, _) =>
      if version != FORMAT_VERSION then Err(UnsupportedVersion)
      else if sessionId != expectedId || !ValidId(sessionId) then Err(Corrupt)
      else if |records| < 2 then Err(Corrupt)
      else match records[1]
        case Header(_, _, _, _, _) => Err(Corrupt)
        case Entry(userEntryId, parent, sequence, _, operationId, payload) =>
          if !ValidId(userEntryId) || !ValidId(operationId) || parent.Some? || sequence != 1 then Err(Corrupt)
          else if !payload.UserMessage? then Err(Corrupt)
          else if |{sessionId, userEntryId, operationId}| != 3 then Err(Corrupt)
          else if |records| < 3 then Ok(SessionProjection(sessionId, createdAt, payload.text, Interrupted, None))
          else match ProjectTerminal(records[2], sessionId, userEntryId, operationId)
            case Err(error) => Err(error)
            case Ok(terminal) =>
              Ok(SessionProjection(sessionId, createdAt, payload.text, StatusOf(Some(terminal)), Some(terminal)))
  }

  function Project(codec: Codec, bytes: Bytes, expectedId: string): Result<ShowResult, ProjectionError> {
    match Records(codec, bytes)
    case None => Err(Corrupt)
    case Some((records, trailingFragment)) =>
      match ProjectRecords(records, expectedId)
      case Err(error) => Err(error)
      case Ok(projection) => Ok(ShowResult(projection, trailingFragment))
  }

  // ---- incomplete lines ----

  /** Bytes without an LF after the last complete line change nothing but the fragment flag. */
  lemma FragmentOnlySetsTheFlag(codec: Codec, bytes: Bytes, junk: Bytes, expectedId: string)
    requires Rest(bytes) == [] && LF !in junk && |bytes + junk| <= MAX_SESSION_BYTES
    ensures Project(codec, bytes + junk, expectedId) ==
            match Project(codec, bytes, expectedId)
            case Err(error) => Err(error)
            case Ok(shown) => Ok(shown.(trailingFragment := junk != []))
  {
    LinesAreExact(bytes);
    assert Terminated(Lines(bytes)) + [] == bytes;
    assert Terminated(Lines(bytes)) == bytes;
    LinesOfTerminated(Lines(bytes), junk);
    assert Lines(bytes + junk) == Lines(bytes) && Rest(bytes + junk) == junk;
  }

  /** What a complete ending says. */
  function Says(payload: Payload): Terminal
    requires EndingPayload(payload)
  {
    match payload
    case AssistantMessage(text) => Assistant(text)
    case TerminalFailure(code, _) => Failure(code)
  }

  function Shown(s: Session, ending: Option<Ending>, trailingFragment: bool): ShowResult
    requires ending.Some? ==> EndingPayload(ending.value.payload)
  {
    var terminal := if ending.Some? then Some(Says(ending.value.payload)) else None;
    ShowResult(SessionProjection(s.sessionId, s.createdAt, s.prompt, StatusOf(terminal), terminal), trailingFragment)
  }

  lemma DiagnosticsAreShort(code: FailureCode)
    ensures ByteLength(Diagnostic(code)) <= MAX_DIAGNOSTIC_BYTES
  {
    ByteLengthBound(Diagnostic(code));
  }

  lemma {:induction false} ByteLengthBound(s: string)
    ensures |s| <= ByteLength(s) <= 4 * |s|
  {
    if s != "" {
      ByteLengthBound(s[1..]);
    }
  }

  lemma ProjectedSession(s: Session, ending: Option<Ending>)
    requires ValidSession(s) && (ending.Some? ==> ValidEnding(s, ending.value))
    ensures var last := if ending.Some? then [EndingRecord(s, ending.value)] else [];
            ProjectRecords([HeaderRecord(s), UserRecord(s)] + last, s.sessionId)
            == Ok(Shown(s, ending, false).projection)
  {
    if ending.Some? && ending.value.payload.TerminalFailure? {
      DiagnosticsAreShort(ending.value.payload.failureCode);
    }
    assert |{s.sessionId, s.userEntryId, s.operationId}| == 3;
  }

  // The lines of records of an allowed size read back as those records.
  lemma RecordsOfLines(codec: Codec, records: seq<Record>, rest: Bytes)
    requires Lawful(codec) && 1 <= |records| <= 3 && LF !in rest
    requires forall i | 0 <= i < |records| :: |codec.encode(records[i])| <= MAX_RECORD_BYTES
    requires |Terminated(Encoded(codec, records)) + rest| <= MAX_SESSION_BYTES
    ensures Records(codec, Terminated(Encoded(codec, records)) + rest) == Some((records, rest != []))
  {
    var lines := Encoded(codec, records);
    forall i | 0 <= i < |lines| ensures LF !in lines[i] && Readable(codec, lines[i]) {
      assert lines[i] == codec.encode(records[i]);
    }
    LinesOfTerminated(lines, rest);
    assert Decoded(codec, lines) == records;
  }

  function Encoded(codec: Codec, records: seq<Record>): (lines: seq<Bytes>)
    ensures |lines| == |records| && forall i | 0 <= i < |records| :: lines[i] == codec.encode(records[i])
  {
    seq(|records|, i requires 0 <= i < |records| => codec.encode(records[i]))
  }

  lemma TerminatedLines(a: Bytes, b: Bytes, c: Bytes)
    ensures Terminated([a]) == a + [LF]
    ensures Terminated([a, b]) == a + [LF] + b + [LF]
    ensures Terminated([a, b, c]) == a + [LF] + b + [LF] + c + [LF]
  {
    assert [a][..0] == [] && [a, b][..1] == [a] && [a, b, c][..2] == [a, b];
    assert [] + a == a;
  }

  /** Every torn write: however many bytes of a session reached the disk, reading them gives Corrupt before the user
      line is complete, then the interrupted session with its prompt, a fragment being reported exactly when bytes
      follow, and for the whole file exactly the answer or failure that was written. */
  lemma TornWritesAreRead(codec: Codec, s: Session, e: Ending, n: nat)
    requires Lawful(codec) && InitialLines(codec, s).Some? && EndingLine(codec, s, e).Some?
    requires var all := InitialLines(codec, s).value + EndingLine(codec, s, e).value;
             |all| <= MAX_SESSION_BYTES && n <= |all|
    ensures var first := InitialLines(codec, s).value;
            var all := first + EndingLine(codec, s, e).value;
            Project(codec, all[..n], s.sessionId) ==
            if n < |first| then Err(Corrupt)
            else if n < |all| then Ok(Shown(s, None, n > |first|))
            else Ok(Shown(s, Some(e), false))
  {
    var first, last := InitialLines(codec, s).value, EndingLine(codec, s, e).value;
    var all := first + last;
    if n < |first| {
      assert all[..n] == first[..n];
      TornStartIsCorrupt(codec, s, n);
    } else if n < |all| {
      var rest := codec.encode(EndingRecord(s, e))[..n - |first|];
      assert last[..n - |first|] == rest && all[..n] == first + rest;
      TornEndingIsInterrupted(codec, s, rest);
    } else {
      assert all[..n] == all;
      CompleteSessionIsShown(codec, s, e);
    }
  }

  lemma TornStartIsCorrupt(codec: Codec, s: Session, n: nat)
    requires Lawful(codec) && InitialLines(codec, s).Some? && n < |InitialLines(codec, s).value|
    ensures Project(codec, InitialLines(codec, s).value[..n], s.sessionId) == Err(Corrupt)
  {
    var h, u := codec.encode(HeaderRecord(s)), codec.encode(UserRecord(s));
    var torn := InitialLines(codec, s).value[..n];
    if n <= |h| {
      assert torn == h[..n];
      assert Terminated([]) + torn == torn;
      LinesOfTerminated([], torn);
    } else {
      var rest := u[..n - |h| - 1];
      assert torn == h + [LF] + rest;
      var records := [HeaderRecord(s)];
      assert Encoded(codec, records) == [h];
      TerminatedLines(h, h, h);
      RecordsOfLines(codec, records, rest);
    }
  }

  lemma TornEndingIsInterrupted(codec: Codec, s: Session, rest: Bytes)
    requires Lawful(codec) && InitialLines(codec, s).Some? && LF !in rest
    requires |InitialLines(codec, s).value + rest| <= MAX_SESSION_BYTES
    ensures Project(codec, InitialLines(codec, s).value + rest, s.sessionId) == Ok(Shown(s, None, rest != []))
  {
    var h, u := codec.encode(HeaderRecord(s)), codec.encode(UserRecord(s));
    var records := [HeaderRecord(s), UserRecord(s)];
    assert Encoded(codec, records) == [h, u];
    TerminatedLines(h, u, u);
    assert h + [LF] + u + [LF] == InitialLines(codec, s).value;
    RecordsOfLines(codec, records, rest);
    ProjectedSession(s, None);
    assert records + [] == records;
  }

  lemma CompleteSessionIsShown(codec: Codec, s: Session, e: Ending)
    requires Lawful(codec) && InitialLines(codec, s).Some? && EndingLine(codec, s, e).Some?
    requires |InitialLines(codec, s).value + EndingLine(codec, s, e).value| <= MAX_SESSION_BYTES
    ensures Project(codec, InitialLines(codec, s).value + EndingLine(codec, s, e).value, s.sessionId)
            == Ok(Shown(s, Some(e), false))
  {
    var h, u := codec.encode(HeaderRecord(s)), codec.encode(UserRecord(s));
    var t := codec.encode(EndingRecord(s, e));
    var records := [HeaderRecord(s), UserRecord(s), EndingRecord(s, e)];
    assert Encoded(codec, records) == [h, u, t];
    TerminatedLines(h, u, t);
    var all := InitialLines(codec, s).value + EndingLine(codec, s, e).value;
    assert h + [LF] + u + [LF] + t + [LF] == all;
    assert all + [] == all;
    RecordsOfLines(codec, records, []);
    ProjectedSession(s, Some(e));
    assert [HeaderRecord(s), UserRecord(s)] + [EndingRecord(s, e)] == records;
  }

  // ---- nothing else is shown ----

  /** The file starts with a header of another format version. */
  predicate OtherVersion(codec: Codec, bytes: Bytes) {
    match Records(codec, bytes)
    case Some((records, _)) => records[0].Header? && records[0].formatVersion != 1
    case None => false
  }

  /** A file is unsupported exactly for that, whatever else is in it. */
  lemma UnsupportedIff(codec: Codec, bytes: Bytes, expectedId: string)
    ensures Project(codec, bytes, expectedId) == Err(UnsupportedVersion) <==> OtherVersion(codec, bytes)
    ensures Records(codec, bytes).None? ==> Project(codec, bytes, expectedId) == Err(Corrupt)
  {
  }

  /** What may be read as records: at most 3 MiB, one to three complete lines, each of them not empty, at most 2 MiB and
      a record. */
  lemma ReadableFiles(codec: Codec, bytes: Bytes)
    ensures Records(codec, bytes).Some?
            <==> && |bytes| <= 3145728 && 1 <= |Lines(bytes)| <= 3
                 && forall line <- Lines(bytes) :: 1 <= |line| <= 2097152 && codec.decode(line).Some?
    ensures Records(codec, bytes).Some? ==>
              && (Records(codec, bytes).value.1 <==> Rest(bytes) != [])
              && |Records(codec, bytes).value.0| == |Lines(bytes)|
              && forall i | 0 <= i < |Lines(bytes)| ::
                   codec.decode(Lines(bytes)[i]) == Some(Records(codec, bytes).value.0[i])
  {
    var lines := Lines(bytes);
    assert AllReadable(codec, lines) <==> forall line <- lines :: Readable(codec, line) by {
      assert forall line <- lines :: exists i :: 0 <= i < |lines| && lines[i] == line;
    }
  }

  lemma ReadEnding(record: Record, s: Session) returns (e: Ending)
    requires ProjectTerminal(record, s.sessionId, s.userEntryId, s.operationId).Ok?
    ensures record == EndingRecord(s, e) && ValidEnding(s, e)
    ensures ProjectTerminal(record, s.sessionId, s.userEntryId, s.operationId) == Ok(Says(e.payload))
  {
    e := Ending(record.entryId, record.timestamp, record.payload);
  }

  lemma ReadStart(header: Record, user: Record, expectedId: string) returns (s: Session)
    requires ProjectRecords([header, user], expectedId).Ok?
    ensures ValidSession(s) && s.sessionId == expectedId && header == HeaderRecord(s) && user == UserRecord(s)
  {
    s := Session(header.sessionId, user.operationId, user.entryId, header.createdAt, user.timestamp,
                 header.workingDirectory, header.harnessVersion, user.payload.text);
    if s.sessionId == s.userEntryId || s.sessionId == s.operationId || s.userEntryId == s.operationId {
      SetOfTwo(s.sessionId, s.userEntryId, s.operationId);
    }
  }

  lemma SetOfTwo(a: string, b: string, c: string)
    requires a == b || a == c || b == c
    ensures |{a, b, c}| < 3
  {
    if a == b {
      assert {a, b, c} == {a} + {c};
    } else {
      assert {a, b, c} == {a} + {b};
    }
  }

  /** Whatever is shown was written: the complete lines of the file are the records of some session and, if it is shown
      with an ending, of one of its endings; and what is shown is that session. */
  lemma ShownWasWritten(codec: Codec, bytes: Bytes, expectedId: string) returns (s: Session, e: Option<Ending>)
    requires Project(codec, bytes, expectedId).Ok?
    ensures ValidSession(s) && s.sessionId == expectedId && (e.Some? ==> ValidEnding(s, e.value))
    ensures Records(codec, bytes).Some?
    ensures var (records, fragment) := Records(codec, bytes).value;
            && records == [HeaderRecord(s), UserRecord(s)] + (if e.Some? then [EndingRecord(s, e.value)] else [])
            && Project(codec, bytes, expectedId) == Ok(Shown(s, e, fragment))
  {
    var (records, fragment) := Records(codec, bytes).value;
    assert |records| >= 2;
    s := ReadStart(records[0], records[1], expectedId);
    e := None;
    if |records| == 3 {
      var ending := ReadEnding(records[2], s);
      e := Some(ending);
      assert records == [records[0], records[1]] + [records[2]];
    } else {
      assert records == [records[0], records[1]] + [];
    }
  }
}
