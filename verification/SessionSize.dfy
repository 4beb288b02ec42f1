/** The limits on a prompt and an answer are small enough for the limits on a record and a session. */
module SessionSize {
  import opened Wrappers
  import opened Bytes
  import opened Integers
  import opened Text
  import opened Numerals
  import Utf8
  import opened SessionFormat
  import opened Projection
  import opened JsonText
  import SseEvents

  const MAX_PROMPT_BYTES := 32 * 1024

  /** A bound on the printed size: escaping at its worst, and the longest number. */
  function Weight(v: Json): nat {
    match v
    case Null => 4
    case Number(_) => 20
    case Text(text) => TextWeight(text)
    case Object(members) => 1 + MembersWeight(members)
  }

  // Short texts are charged by their characters.
  function TextWeight(text: string): nat {
    2 + if |text| <= 100 then 24 * |text| else 6 * ByteLength(text)
  }

  function MembersWeight(m: Members): nat {
    match m
    case End => 1
    case Member(name, value, rest) => 4 + 24 * |name| + Weight(value) + MembersWeight(rest)
  }

  lemma QuotedSize(text: string)
    ensures ByteLength(Quoted(text)) <= 2 + 6 * ByteLength(text)
    ensures ByteLength(Quoted(text)) <= TextWeight(text) && ByteLength(Quoted(text)) <= 2 + 24 * |text|
  {
    ByteLengthBound(text);
    EscapeExpandsAtMostSixfold(text);
    ByteLengthConcat("\"" + Escape(text), "\"");
    ByteLengthConcat("\"", Escape(text));
  }

  lemma NumberSize(n: U64)
    ensures ByteLength(Numeral(n, 10)) <= 20
  {
    assert Power(10, 5) == 100_000;
    assert Power(10, 10) == 10_000_000_000;
    assert Power(10, 15) == 1_000_000_000_000_000;
    NumeralLength(n, 10, 20);
    AsciiByteLength(Numeral(n, 10));
  }

  lemma {:induction false} PrintedSize(v: Json)
    ensures ByteLength(Print(v)) <= Weight(v)
    decreases v
  {
    match v {
      case Null => AsciiByteLength("null");
      case Number(n) => NumberSize(n);
      case Text(text) => QuotedSize(text);
      case Object(members) =>
        MembersSize(members, "");
        ByteLengthConcat("{", PrintMembers(members, ""));
        AsciiByteLength("{");
    }
  }

  lemma {:induction false} MembersSize(m: Members, separator: string)
    requires |separator| <= 1 && forall c <- separator :: c as int < 0x80
    ensures ByteLength(PrintMembers(m, separator)) <= MembersWeight(m)
    decreases m
  {
    match m {
      case End => AsciiByteLength("}");
      case Member(name, value, rest) =>
        AsciiByteLength(separator);
        AsciiByteLength(":");
        QuotedSize(name);
        PrintedSize(value);
        MembersSize(rest, ",");
        ByteLengthConcat(Print(value), PrintMembers(rest, ","));
        ByteLengthConcat(":", Print(value) + PrintMembers(rest, ","));
        ByteLengthConcat(Quoted(name), ":" + (Print(value) + PrintMembers(rest, ",")));
        ByteLengthConcat(separator, Quoted(name) + (":" + (Print(value) + PrintMembers(rest, ","))));
    }
  }

  // The free text of a payload; the rest of a record is of bounded size.
  function FreeText(p: Payload): string {
    match p
    case UserMessage(text) => text
    case AssistantMessage(text) => text
    case TerminalFailure(_, diagnostic) => diagnostic
  }

  // One member at a time: short names, and a bound on the value.
  lemma FirstWeight(m: Members, w: nat)
    requires m.Member? && |m.name| <= 20 && Weight(m.value) <= w
    ensures MembersWeight(m) <= 484 + w + MembersWeight(m.rest)
  {
  }

  predicate Light(m: Members, w: nat) {
    m.Member? && |m.name| <= 20 && Weight(m.value) <= w
  }

  lemma ThreeWeights(m: Members, a: nat, b: nat, c: nat)
    requires Light(m, a) && Light(m.rest, b) && Light(m.rest.rest, c)
    ensures MembersWeight(m) <= 1452 + a + b + c + MembersWeight(m.rest.rest.rest)
  {
    FirstWeight(m, a);
    FirstWeight(m.rest, b);
    FirstWeight(m.rest.rest, c);
  }

  lemma PayloadWeight(p: Payload)
    ensures Weight(PayloadValue(p)) <= 6000 + 6 * ByteLength(FreeText(p))
  {
    var text := 2402 + 6 * ByteLength(FreeText(p));
    var m := PayloadValue(p).members;
    FirstWeight(m, 722);
    FirstWeight(m.rest, 722);
    if p.TerminalFailure? {
      FirstWeight(m.rest.rest, 722);
      FirstWeight(m.rest.rest.rest, text);
      FirstWeight(m.rest.rest.rest.rest, 722);
    } else {
      FirstWeight(m.rest.rest, text);
      if p.AssistantMessage? {
        FirstWeight(m.rest.rest.rest, 722);
      }
    }
  }

  lemma EncodedSize(record: Record)
    ensures |EncodeRecord(record)| <= Weight(RecordValue(record))
  {
    PrintedSize(RecordValue(record));
    Utf8.EncodedIsValid(Print(RecordValue(record)));
  }

  predicate ShortIds(record: Record)
    requires record.Entry?
  {
    |record.entryId| <= 32 && |record.operationId| <= 32
    && (record.parentEntryId.Some? ==> |record.parentEntryId.value| <= 32)
  }

  lemma EntryWeight(record: Record, payload: nat)
    requires record.Entry? && ShortIds(record) && Weight(PayloadValue(record.payload)) <= payload
    ensures Weight(RecordValue(record)) <= 7_000 + payload
  {
    var m := RecordValue(record).members;
    ThreeWeights(m, 770, 770, 770);
    var numbers := m.rest.rest.rest;
    ThreeWeights(numbers, 20, 20, 770);
    FirstWeight(numbers.rest.rest.rest, payload);
  }

  lemma EntrySize(record: Record)
    requires record.Entry? && ShortIds(record)
    ensures |EncodeRecord(record)| <= 13_000 + 6 * ByteLength(FreeText(record.payload))
  {
    PayloadWeight(record.payload);
    EntryWeight(record, 6000 + 6 * ByteLength(FreeText(record.payload)));
    EncodedSize(record);
  }

  lemma HeaderWeight(record: Record)
    requires record.Header? && |record.sessionId| <= 32
    ensures Weight(RecordValue(record)) <= 10_000 + 6 * ByteLength(record.harnessVersion)
              + (if record.workingDirectory.Some? then 6 * ByteLength(record.workingDirectory.value) else 0)
  {
    var directory := 2402 + if record.workingDirectory.Some? then 6 * ByteLength(record.workingDirectory.value) else 0;
    var m := RecordValue(record).members;
    FirstWeight(m, 770);
    FirstWeight(m.rest, 20);
    FirstWeight(m.rest.rest, 770);
    FirstWeight(m.rest.rest.rest, 20);
    FirstWeight(m.rest.rest.rest.rest, directory);
    FirstWeight(m.rest.rest.rest.rest.rest, 2402 + 6 * ByteLength(record.harnessVersion));
  }

  lemma HeaderSize(record: Record)
    requires record.Header? && |record.sessionId| <= 32
    ensures |EncodeRecord(record)| <= 10_000 + 6 * ByteLength(record.harnessVersion)
              + (if record.workingDirectory.Some? then 6 * ByteLength(record.workingDirectory.value) else 0)
  {
    EncodedSize(record);
    HeaderWeight(record);
  }

  /** An ask within its limits is never refused for its size: a prompt and an answer (or a failure) within their own
      limits meet the record limit and, with a header line of at most 1 MiB, the session limit. */
  lemma EveryValidAskFits(codec: Codec, s: Session, e: Ending)
    requires codec.encode == EncodeRecord
    requires ValidSession(s) && ByteLength(s.prompt) <= MAX_PROMPT_BYTES
    requires |EncodeRecord(HeaderRecord(s))| + 1 <= 1024 * 1024
    requires ValidEnding(s, e)
    requires e.payload.AssistantMessage? ==> ByteLength(e.payload.text) <= SseEvents.PRODUCTION.textBytes
    ensures InitialLines(codec, s).Some? && EndingLine(codec, s, e).Some?
    ensures |InitialLines(codec, s).value + EndingLine(codec, s, e).value| <= MAX_SESSION_BYTES
  {
    EntrySize(UserRecord(s));
    EntrySize(EndingRecord(s, e));
    if e.payload.TerminalFailure? {
      DiagnosticsAreShort(e.payload.failureCode);
    }
  }

  /** So an answered ask is retained and read back, whatever characters it holds: the directory is the only thing left
      to bound, and one of 128 KiB is short enough. */
  lemma EveryValidAskIsRetained(codec: Codec, s: Session, e: Ending)
    requires codec.encode == EncodeRecord && forall record :: codec.decode(EncodeRecord(record)) == Some(record)
    requires ValidSession(s) && ByteLength(s.prompt) <= MAX_PROMPT_BYTES
    requires s.workingDirectory.Some? ==> ByteLength(s.workingDirectory.value) <= 128 * 1024
    requires ByteLength(s.harnessVersion) <= 1024
    requires ValidEnding(s, e)
    requires e.payload.AssistantMessage? ==> ByteLength(e.payload.text) <= SseEvents.PRODUCTION.textBytes
    ensures InitialLines(codec, s).Some? && EndingLine(codec, s, e).Some?
    ensures Project(codec, InitialLines(codec, s).value + EndingLine(codec, s, e).value, s.sessionId)
            == Ok(Shown(s, Some(e), false))
  {
    HeaderSize(HeaderRecord(s));
    EveryValidAskFits(codec, s, e);
    PrinterIsLawful(codec.decode);
    assert codec == Codec(codec.decode, EncodeRecord);
    CompleteSessionIsShown(codec, s, e);
  }
}
