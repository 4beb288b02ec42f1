/** The JSON objects that a session's lines are, as lists of names and values. */
module RecordFields {
  import opened Wrappers
  import opened Integers
  import opened Numerals
  import opened SessionFormat
  import opened JsonText

  function Fields(m: Members): seq<(string, Json)> {
    match m
    case End => []
    case Member(name, value, rest) => [(name, value)] + Fields(rest)
  }

  predicate Has(v: Json, fields: seq<(string, Json)>) {
    v.Object? && Fields(v.members) == fields
  }

  lemma ThreeFields(a: (string, Json), b: (string, Json), c: (string, Json))
    ensures Fields(Member(a.0, a.1, Member(b.0, b.1, Member(c.0, c.1, End)))) == [a, b, c]
  {
    assert Fields(Member(c.0, c.1, End)) == [c] + Fields(End);
    assert Fields(Member(b.0, b.1, Member(c.0, c.1, End))) == [b] + [c];
  }

  lemma FourFields(a: (string, Json), b: (string, Json), c: (string, Json), d: (string, Json))
    ensures Fields(Member(a.0, a.1, Member(b.0, b.1, Member(c.0, c.1, Member(d.0, d.1, End))))) == [a, b, c, d]
  {
    ThreeFields(b, c, d);
  }

  lemma FiveFields(a: (string, Json), b: (string, Json), c: (string, Json), d: (string, Json), e: (string, Json))
    ensures Fields(Member(a.0, a.1, Member(b.0, b.1, Member(c.0, c.1, Member(d.0, d.1, Member(e.0, e.1, End))))))
            == [a, b, c, d, e]
  {
    FourFields(b, c, d, e);
  }

  function Place(directory: Option<string>): Json {
    if directory.Some? then Text(directory.value) else Null
  }

  /** The first line of a session: what it is, the version, who and when, where it was asked and by which program. */
  lemma HeaderLine(s: Session)
    ensures Has(RecordValue(HeaderRecord(s)),
                [("record_type", Text("session_header")), ("format_version", Number(1)),
                 ("session_id", Text(s.sessionId)), ("created_at_unix_ms", Number(s.createdAt)),
                 ("working_directory", Place(s.workingDirectory)), ("harness_version", Text(s.harnessVersion))])
  {
    FiveFields(("format_version", Number(1)), ("session_id", Text(s.sessionId)),
               ("created_at_unix_ms", Number(s.createdAt)), ("working_directory", Place(s.workingDirectory)),
               ("harness_version", Text(s.harnessVersion)));
  }

  // The other lines.
  lemma EntryLine(record: Record)
    requires record.Entry?
    ensures Has(RecordValue(record),
                [("record_type", Text("entry")), ("entry_id", Text(record.entryId)),
                 ("parent_entry_id", Place(record.parentEntryId)), ("sequence", Number(record.sequence)),
                 ("timestamp_unix_ms", Number(record.timestamp)), ("operation_id", Text(record.operationId)),
                 ("payload", PayloadValue(record.payload))])
  {
    FiveFields(("parent_entry_id", Place(record.parentEntryId)), ("sequence", Number(record.sequence)),
               ("timestamp_unix_ms", Number(record.timestamp)), ("operation_id", Text(record.operationId)),
               ("payload", PayloadValue(record.payload)));
    var m := RecordValue(record).members;
    assert Fields(m.rest) == [("entry_id", Text(record.entryId))] + Fields(m.rest.rest);
    assert Fields(m) == [("record_type", Text("entry"))] + Fields(m.rest);
  }

  /** The second line: the prompt, first and without a parent. */
  lemma UserLine(s: Session)
    ensures Has(RecordValue(UserRecord(s)),
                [("record_type", Text("entry")), ("entry_id", Text(s.userEntryId)), ("parent_entry_id", Null),
                 ("sequence", Number(1)), ("timestamp_unix_ms", Number(s.userTimestamp)),
                 ("operation_id", Text(s.operationId)), ("payload", PayloadValue(UserMessage(s.prompt)))])
    ensures Has(PayloadValue(UserMessage(s.prompt)),
                [("type", Text("user_message")), ("provider", Text("openai-codex")), ("text", Text(s.prompt))])
  {
    EntryLine(UserRecord(s));
    ThreeFields(("type", Text("user_message")), ("provider", Text("openai-codex")), ("text", Text(s.prompt)));
  }

  /** The third line: second, after the prompt. */
  lemma LastLine(s: Session, e: Ending)
    ensures Has(RecordValue(EndingRecord(s, e)),
                [("record_type", Text("entry")), ("entry_id", Text(e.entryId)),
                 ("parent_entry_id", Text(s.userEntryId)), ("sequence", Number(2)),
                 ("timestamp_unix_ms", Number(e.timestamp)), ("operation_id", Text(s.operationId)),
                 ("payload", PayloadValue(e.payload))])
  {
    EntryLine(EndingRecord(s, e));
  }

  /** An answer has completed, a failure has failed and says which and why. */
  lemma LastPayload(text: string, code: FailureCode, diagnostic: string)
    ensures Has(PayloadValue(AssistantMessage(text)),
                [("type", Text("assistant_message")), ("provider", Text("openai-codex")), ("text", Text(text)),
                 ("operation_outcome", Text("completed"))])
    ensures Has(PayloadValue(TerminalFailure(code, diagnostic)),
                [("type", Text("terminal_failure")), ("provider", Text("openai-codex")),
                 ("failure_code", Text(FailureName(code))), ("diagnostic", Text(diagnostic)),
                 ("operation_outcome", Text("failed"))])
  {
    FourFields(("type", Text("assistant_message")), ("provider", Text("openai-codex")), ("text", Text(text)),
               ("operation_outcome", Text("completed")));
    FiveFields(("type", Text("terminal_failure")), ("provider", Text("openai-codex")),
               ("failure_code", Text(FailureName(code))), ("diagnostic", Text(diagnostic)),
               ("operation_outcome", Text("failed")));
  }

  // ---- how an object is printed ----

  function FieldTexts(fields: seq<(string, Json)>): (texts: seq<string>)
    ensures |texts| == |fields|
    ensures forall i | 0 <= i < |fields| :: texts[i] == Quoted(fields[i].0) + (":" + Print(fields[i].1))
  {
    seq(|fields|, i requires 0 <= i < |fields| => Quoted(fields[i].0) + (":" + Print(fields[i].1)))
  }

  function Commas(texts: seq<string>): string {
    if texts == [] then "" else if |texts| == 1 then texts[0] else texts[0] + ("," + Commas(texts[1..]))
  }

  /** An object is printed in braces as its members in order, each as its name, a colon and its value, with commas
      between them; nothing as `null`; and a number as its digits. */
  lemma ObjectsArePrinted(m: Members)
    ensures Print(Object(m)) == "{" + (Commas(FieldTexts(Fields(m))) + "}")
    ensures Print(Null) == "null"
    ensures forall k: U64 :: Value(Print(Number(k)), 10) == k
  {
    MembersArePrinted(m);
    forall k: U64 ensures Value(Print(Number(k)), 10) == k {
      NumeralValue(k, 10);
    }
  }

  lemma {:induction false} MembersArePrinted(m: Members)
    ensures PrintMembers(m, "") == Commas(FieldTexts(Fields(m))) + "}"
    ensures PrintMembers(m, ",") == (if m.End? then "" else ",") + PrintMembers(m, "")
    decreases m
  {
    if m.Member? {
      MembersArePrinted(m.rest);
      var first, rest := Quoted(m.name) + (":" + Print(m.value)), FieldTexts(Fields(m.rest));
      assert FieldTexts(Fields(m)) == [first] + rest && ([first] + rest)[1..] == rest;
      var tail := PrintMembers(m.rest, ",");
      FirstIsPrinted(m);
      if m.rest.End? {
        assert first + "}" == first + tail;
      } else {
        assert tail == "," + (Commas(rest) + "}");
        assert first + ("," + Commas(rest)) + "}" == first + ("," + (Commas(rest) + "}"));
      }
    }
  }

  lemma FirstIsPrinted(m: Members)
    requires m.Member?
    ensures PrintMembers(m, "") == Quoted(m.name) + (":" + Print(m.value)) + PrintMembers(m.rest, ",")
    ensures PrintMembers(m, ",") == "," + PrintMembers(m, "")
  {
    var tail := PrintMembers(m.rest, ",");
    assert Quoted(m.name) + (":" + (Print(m.value) + tail)) == Quoted(m.name) + (":" + Print(m.value)) + tail;
  }
}
