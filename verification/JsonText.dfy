/**
 The text of a record: its JSON value, printed without white space as serde_json does, with the string escapes of
 section 7 of RFC 8259. The printed form has the properties that the session log asks of its codec, and bounds on its
 size show that every ask within its limits can be retained.
 */
module JsonText {
  import opened Wrappers
  import opened Bytes
  import opened Integers
  import opened Text
  import opened Sequences
  import opened Numerals
  import Utf8
  import opened SessionFormat

  // ---- strings ----

  function EscapeChar(c: char): (r: string)
    ensures 1 <= |r| <= 6 * CharBytes(c) && forall d <- r :: ' ' <= d
  {
    if c == '"' then "\\\""
    else if c == '\\' then "\\\\"
    else if c == '\U{8}' then "\\b"
    else if c == '\t' then "\\t"
    else if c == '\n' then "\\n"
    else if c == '\U{c}' then "\\f"
    else if c == '\r' then "\\r"
    else if c < ' ' then ['\\', 'u', '0', '0', DIGITS[c as int / 16], DIGITS[c as int % 16]]
    else [c]
  }

  function Escape(s: string): string {
    if s == "" then "" else EscapeChar(s[0]) + Escape(s[1..])
  }

  function Quoted(s: string): string {
    "\"" + Escape(s) + "\""
  }

  /** Escaping makes a text at most six times as long. */
  lemma {:induction false} EscapeExpandsAtMostSixfold(s: string)
    ensures ByteLength(s) <= ByteLength(Escape(s)) <= 6 * ByteLength(s)
  {
    if s != "" {
      EscapeExpandsAtMostSixfold(s[1..]);
      ByteLengthConcat(EscapeChar(s[0]), Escape(s[1..]));
      EscapedChar(s[0]);
    }
  }

  lemma EscapedChar(c: char)
    ensures CharBytes(c) <= ByteLength(EscapeChar(c)) <= 6 * CharBytes(c)
  {
    var r := EscapeChar(c);
    if r == [c] {
      assert r[1..] == "";
    } else {
      AsciiByteLength(r);
    }
  }

  // ---- reading strings ----

  function CodeUnit(s: string): (r: Option<nat>)
    ensures r.Some? ==> r.value < 0x10000
  {
    if |s| < 4 then None
    else
      var a, b, c, d := HexValue(s[0]), HexValue(s[1]), HexValue(s[2]), HexValue(s[3]);
      if a.Some? && b.Some? && c.Some? && d.Some?
      then Some(a.value * 4096 + b.value * 256 + c.value * 16 + d.value)
      else None
  }

  // A character beyond 16 bits is two code units, and neither stands alone.
  function ReadCodeUnits(s: string): (r: Option<(char, nat)>)
    ensures r.Some? ==> 4 <= r.value.1 <= |s|
  {
    var first := CodeUnit(s);
    if first.None? then None
    else if first.value < 0xd800 || 0xe000 <= first.value then Some((first.value as char, 4))
    else if 0xdc00 <= first.value || |s| < 10 || s[4] != '\\' || s[5] != 'u' then None
    else
      var second := CodeUnit(s[6..]);
      if second.Some? && 0xdc00 <= second.value < 0xe000
      then Some(((0x10000 + (first.value - 0xd800) * 1024 + (second.value - 0xdc00)) as char, 10))
      else None
  }

  // What follows a backslash: the character it stands for and how much of the text it took.
  function ReadEscape(s: string): (r: Option<(char, nat)>)
    ensures r.Some? ==> 1 <= r.value.1 <= |s|
  {
    if s == "" then None
    else match s[0]
      case '"' => Some(('"', 1))
      case '\\' => Some(('\\', 1))
      case '/' => Some(('/', 1))
      case 'b' => Some(('\U{8}', 1))
      case 'f' => Some(('\U{c}', 1))
      case 'n' => Some(('\n', 1))
      case 'r' => Some(('\r', 1))
      case 't' => Some(('\t', 1))
      case 'u' =>
        (match ReadCodeUnits(s[1..])
         case None => None
         case Some((c, n)) => Some((c, n + 1)))
      case _ => None
  }

  /** The characters of a string up to its closing quotation mark, and what follows that. */
  function ReadString(s: string): Option<(string, string)>
    decreases |s|
  {
    if s == "" || s[0] < ' ' then None
    else if s[0] == '"' then Some(("", s[1..]))
    else
      var (c, n) := if s[0] != '\\' then (s[0], 1)
                    else match ReadEscape(s[1..]) {
                      case None => ('\0', 0)
                      case Some((c, n)) => (c, n + 1)
                    };
      if n == 0 then None
      else match ReadString(s[n..])
        case None => None
        case Some((text, rest)) => Some(([c] + text, rest))
  }

  lemma EscapeReadsBack(c: char, rest: string)
    requires ReadString(rest).Some?
    ensures ReadString(EscapeChar(c) + rest)
            == Some(([c] + ReadString(rest).value.0, ReadString(rest).value.1))
  {
    var e := EscapeChar(c);
    var s := e + rest;
    assert s[|e|..] == rest && s[0] == e[0];
    if e[0] == '\\' {
      assert s[1..] == e[1..] + rest;
      EscapeReads(c, rest);
    }
  }

  lemma EscapeReads(c: char, rest: string)
    requires EscapeChar(c)[0] == '\\'
    ensures ReadEscape(EscapeChar(c)[1..] + rest) == Some((c, |EscapeChar(c)| - 1))
  {
    var e := EscapeChar(c);
    if e[1] == 'u' {
      assert (e[1..] + rest)[1..] == e[2..] + rest;
      CodeUnitOfControl(c, rest);
    }
  }

  lemma CodeUnitOfControl(c: char, rest: string)
    requires c < ' '
    ensures CodeUnit(['0', '0', DIGITS[c as int / 16], DIGITS[c as int % 16]] + rest) == Some(c as int)
  {
    DigitsAreDigits(c as int / 16);
    DigitsAreDigits(c as int % 16);
  }

  lemma QuotedParts(text: string, rest: string)
    ensures Quoted(text) + rest == "\"" + (Escape(text) + "\"" + rest)
  {
  }

  /** Reading a printed string gives back the text, whatever follows it. */
  lemma {:induction false} QuotedReadsBack(text: string, rest: string)
    ensures ReadString(Escape(text) + "\"" + rest) == Some((text, rest))
  {
    if text == "" {
      assert Escape(text) + "\"" + rest == "\"" + rest;
    } else {
      QuotedReadsBack(text[1..], rest);
      var more := Escape(text[1..]) + "\"" + rest;
      assert Escape(text) + "\"" + rest == EscapeChar(text[0]) + more;
      EscapeReadsBack(text[0], more);
      assert text == [text[0]] + text[1..];
    }
  }

  lemma QuotedIsDelimited(a: string, x: string, b: string, y: string)
    requires Quoted(a) + x == Quoted(b) + y
    ensures a == b && x == y
  {
    QuotedReadsBack(a, x);
    QuotedReadsBack(b, y);
    QuotedParts(a, x);
    QuotedParts(b, y);
    SameTail("\"", Escape(a) + "\"" + x, Escape(b) + "\"" + y);
  }

  // ---- values ----

  datatype Json = Null | Number(n: U64) | Text(text: string) | Object(members: Members)

  datatype Members = End | Member(name: string, value: Json, rest: Members)

  function Print(v: Json): (r: string)
    ensures r != ""
  {
    match v
    case Null => "null"
    case Number(n) => Numeral(n, 10)
    case Text(text) => Quoted(text)
    case Object(members) => "{" + PrintMembers(members, "")
  }

  function PrintMembers(m: Members, separator: string): string {
    match m
    case End => "}"
    case Member(name, value, rest) => separator + (Quoted(name) + (":" + (Print(value) + PrintMembers(rest, ","))))
  }

  // What can follow a value.
  predicate Ends(x: string) {
    x == "" || x[0] == ',' || x[0] == '}'
  }

  lemma FirstOfPrint(v: Json, x: string)
    ensures var c := (Print(v) + x)[0];
            && (c == 'n' <==> v.Null?) && ('0' <= c <= '9' <==> v.Number?) && (c == '"' <==> v.Text?)
            && (c == '{' <==> v.Object?)
  {
    if v.Number? {
      assert Numeral(v.n, 10)[0] in Numeral(v.n, 10);
    }
  }

  lemma BracedIsDelimited(p: string, x: string, q: string, y: string)
    requires "{" + p + x == "{" + q + y
    ensures p + x == q + y
  {
    assert "{" + p + x == "{" + (p + x) && "{" + q + y == "{" + (q + y);
    SameTail("{", p + x, q + y);
  }

  /** No two values are printed alike, and a printed value shows where it ends. */
  lemma {:induction false} PrintIsDelimited(a: Json, x: string, b: Json, y: string)
    requires Print(a) + x == Print(b) + y && Ends(x) && Ends(y)
    ensures a == b && x == y
    decreases a
  {
    FirstOfPrint(a, x);
    FirstOfPrint(b, y);
    match a {
      case Null => SameTail("null", x, y);
      case Number(n) => NumeralIsDelimited(n, x, b.n, y, 10);
      case Text(text) => QuotedIsDelimited(text, x, b.text, y);
      case Object(members) =>
        BracedIsDelimited(PrintMembers(members, ""), x, PrintMembers(b.members, ""), y);
        MembersAreDelimited(members, x, b.members, y, "");
    }
  }

  lemma {:induction false} MembersAreDelimited(a: Members, x: string, b: Members, y: string, separator: string)
    requires PrintMembers(a, separator) + x == PrintMembers(b, separator) + y
    requires Ends(x) && Ends(y) && (separator == "" || separator == ",")
    ensures a == b && x == y
    decreases a
  {
    FirstOfMembers(a, x, separator);
    FirstOfMembers(b, y, separator);
    if a.End? {
      SameTail("}", x, y);
    } else {
      var p, q := PrintMembers(a.rest, ","), PrintMembers(b.rest, ",");
      MemberParts(a, x, separator);
      MemberParts(b, y, separator);
      var s, t := Print(a.value) + (p + x), Print(b.value) + (q + y);
      SameTail(separator, Quoted(a.name) + (":" + s), Quoted(b.name) + (":" + t));
      QuotedIsDelimited(a.name, ":" + s, b.name, ":" + t);
      SameTail(":", s, t);
      FirstOfMembers(a.rest, x, ",");
      FirstOfMembers(b.rest, y, ",");
      PrintIsDelimited(a.value, p + x, b.value, q + y);
      MembersAreDelimited(a.rest, x, b.rest, y, ",");
    }
  }

  lemma FirstOfMembers(m: Members, x: string, separator: string)
    ensures PrintMembers(m, separator) + x != ""
    ensures var c := (PrintMembers(m, separator) + x)[0];
            && (m.End? ==> c == '}')
            && (m.Member? ==> c == if separator == "" then '"' else separator[0])
  {
  }

  lemma MemberParts(m: Members, x: string, separator: string)
    requires m.Member?
    ensures PrintMembers(m, separator) + x
            == separator + (Quoted(m.name) + (":" + (Print(m.value) + (PrintMembers(m.rest, ",") + x))))
  {
  }

  // ---- records ----

  function FailureName(code: FailureCode): (r: string)
    ensures |r| <= 30
  {
    match code
    case UnsupportedPlatform => "unsupported_platform"
    case NotConnected => "not_connected"
    case CredentialStoreUnavailable => "credential_store_unavailable"
    case InvalidCredential => "invalid_credential"
    case ExpiredCredential => "expired_credential"
    case CredentialRefreshBusy => "credential_refresh_busy"
    case CredentialRefreshUnavailable => "credential_refresh_unavailable"
    case Unavailable => "unavailable"
    case UnexpectedProviderResponse => "unexpected_provider_response"
    case ConnectionRejected => "connection_rejected"
    case AccessDenied => "access_denied"
    case RateLimited => "rate_limited"
    case TemporarilyUnavailable => "temporarily_unavailable"
    case Rejected => "rejected"
    case InvalidProviderResponse => "invalid_provider_response"
    case CallTimedOut => "call_timed_out"
    case ResponseTooLarge => "response_too_large"
    case ModelCallFailed => "model_call_failed"
    case EmptyResponse => "empty_response"
  }

  const PROVIDER := "openai-codex"

  function Nullable(text: Option<string>): Json {
    if text.Some? then Text(text.value) else Null
  }

  function PayloadValue(p: Payload): Json {
    match p
    case UserMessage(text) =>
      Object(Member("type", Text("user_message"), Member("provider", Text(PROVIDER), Member("text", Text(text), End))))
    case AssistantMessage(text) =>
      Object(Member("type", Text("assistant_message"), Member("provider", Text(PROVIDER), Member("text", Text(text),
             Member("operation_outcome", Text("completed"), End)))))
    case TerminalFailure(code, diagnostic) =>
      Object(Member("type", Text("terminal_failure"), Member("provider", Text(PROVIDER),
             Member("failure_code", Text(FailureName(code)), Member("diagnostic", Text(diagnostic),
             Member("operation_outcome", Text("failed"), End))))))
  }

  function RecordValue(record: Record): Json {
    match record
    case Header(version, sessionId, createdAt, directory, harness) =>
      Object(Member("record_type", Text("session_header"), Member("format_version", Number(version),
             Member("session_id", Text(sessionId), Member("created_at_unix_ms", Number(createdAt),
             Member("working_directory", Nullable(directory), Member("harness_version", Text(harness), End)))))))
    case Entry(entryId, parent, sequence, timestamp, operationId, payload) =>
      Object(Member("record_type", Text("entry"), Member("entry_id", Text(entryId),
             Member("parent_entry_id", Nullable(parent), Member("sequence", Number(sequence),
             Member("timestamp_unix_ms", Number(timestamp), Member("operation_id", Text(operationId),
             Member("payload", PayloadValue(payload), End))))))))
  }

  function EncodeRecord(record: Record): Bytes {
    Utf8.Encode(Print(RecordValue(record)))
  }

  // ---- the hypotheses on the codec ----

  lemma {:induction false} PrintHasNoControl(v: Json)
    ensures forall c <- Print(v) :: ' ' <= c
    decreases v
  {
    match v {
      case Null =>
      case Number(n) =>
      case Text(text) => EscapeHasNoControl(text);
      case Object(members) => MembersHaveNoControl(members, "");
    }
  }

  lemma {:induction false} MembersHaveNoControl(m: Members, separator: string)
    requires forall c <- separator :: ' ' <= c
    ensures forall c <- PrintMembers(m, separator) :: ' ' <= c
    decreases m
  {
    if m.Member? {
      EscapeHasNoControl(m.name);
      PrintHasNoControl(m.value);
      MembersHaveNoControl(m.rest, ",");
    }
  }

  lemma {:induction false} EscapeHasNoControl(s: string)
    ensures forall c <- Escape(s) :: ' ' <= c
  {
    if s != "" {
      EscapeHasNoControl(s[1..]);
    }
  }

  lemma FailureNamesDiffer(a: FailureCode, b: FailureCode)
    requires FailureName(a) == FailureName(b)
    ensures a == b
  {
  }

  lemma RecordValuesDiffer(a: Record, b: Record)
    requires RecordValue(a) == RecordValue(b)
    ensures a == b
  {
    if a.Entry? && a.payload.TerminalFailure? && b.payload.TerminalFailure? {
      FailureNamesDiffer(a.payload.failureCode, b.payload.failureCode);
    }
  }

  /** A record is printed on one line that is not empty, and no two records are printed alike. */
  lemma RecordsArePrintedApart(a: Record, b: Record)
    ensures EncodeRecord(a) != [] && LF !in EncodeRecord(a)
    ensures EncodeRecord(a) == EncodeRecord(b) ==> a == b
  {
    var p, q := Print(RecordValue(a)), Print(RecordValue(b));
    PrintHasNoControl(RecordValue(a));
    Utf8.EncodedLf(p);
    if EncodeRecord(a) == EncodeRecord(b) {
      Utf8.EncodeIsInjective(p, q);
      assert p + "" == q + "";
      PrintIsDelimited(RecordValue(a), "", RecordValue(b), "");
      RecordValuesDiffer(a, b);
    }
  }

  ghost function PrintedRecord(line: Bytes): Option<Record> {
    if exists record :: EncodeRecord(record) == line then
      var record :| EncodeRecord(record) == line;
      Some(record)
    else None
  }

  /** Any reader that reads what the printer prints satisfies, with the printer, every hypothesis on the codec; and
      there is such a reader. */
  lemma PrinterIsLawful(decode: Bytes -> Option<Record>)
    ensures Lawful(Codec(decode, EncodeRecord)) <==> forall record :: decode(EncodeRecord(record)) == Some(record)
    ensures Lawful(Codec(PrintedRecord, EncodeRecord))
  {
    forall record ensures EncodeRecord(record) != [] && LF !in EncodeRecord(record) {
      RecordsArePrintedApart(record, record);
    }
    forall record ensures PrintedRecord(EncodeRecord(record)) == Some(record) {
      var other := PrintedRecord(EncodeRecord(record)).value;
      RecordsArePrintedApart(other, record);
    }
    var codec := Codec(decode, EncodeRecord);
    assert forall record :: codec.encode(record) == EncodeRecord(record);
    assert forall record :: codec.decode(codec.encode(record)) == decode(EncodeRecord(record));
    var printed := Codec(PrintedRecord, EncodeRecord);
    assert forall record :: printed.decode(printed.encode(record)) == PrintedRecord(EncodeRecord(record));
  }
}
