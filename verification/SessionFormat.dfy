/** The records of a session log and the lines they are written as. */
module SessionFormat {
  import opened Wrappers
  import opened Bytes
  import opened Integers
  import Numerals

  const FORMAT_VERSION: U64 := 1
  const MAX_RECORD_BYTES := 2 * 1024 * 1024
  const MAX_SESSION_BYTES := 3 * 1024 * 1024
  const MAX_DIAGNOSTIC_BYTES := 4 * 1024

  datatype FailureCode =
    | UnsupportedPlatform | NotConnected | CredentialStoreUnavailable | InvalidCredential | ExpiredCredential
    | CredentialRefreshBusy | CredentialRefreshUnavailable | Unavailable | UnexpectedProviderResponse
    | ConnectionRejected | AccessDenied | RateLimited | TemporarilyUnavailable | Rejected
    | InvalidProviderResponse | CallTimedOut | ResponseTooLarge | ModelCallFailed | EmptyResponse

  // The provider and the outcome have one value each and are left to the codec.
  datatype Payload =
    | UserMessage(text: string)
    | AssistantMessage(text: string)
    | TerminalFailure(failureCode: FailureCode, diagnostic: string)

  datatype Record =
    | Header(
        formatVersion: U64, sessionId: string, createdAt: U64, workingDirectory: Option<string>,
        harnessVersion: string)
    | Entry(
        entryId: string, parentEntryId: Option<string>, sequence: U64, timestamp: U64, operationId: string,
        payload: Payload)

  // The failures that a new login mends.
  predicate NeedsLogin(code: FailureCode) {
    code.NotConnected? || code.InvalidCredential? || code.ExpiredCredential? || code.ConnectionRejected?
  }

  // The failures that may pass.
  predicate MayPass(code: FailureCode) {
    code.CredentialRefreshBusy? || code.CredentialRefreshUnavailable? || code.Unavailable?
    || code.TemporarilyUnavailable?
  }

  function LoginDiagnostic(code: FailureCode): (text: string)
    requires NeedsLogin(code)
    ensures |text| <= 50
  {
    match code
    case NotConnected => "OpenAI Codex is not connected"
    case InvalidCredential => "the stored OpenAI Codex connection is invalid"
    case ExpiredCredential => "the OpenAI Codex connection expired"
    case ConnectionRejected => "OpenAI Codex rejected the connection"
  }

  function RetryDiagnostic(code: FailureCode): (text: string)
    requires MayPass(code)
    ensures |text| <= 80
  {
    match code
    case CredentialRefreshBusy => "OpenAI Codex credential refresh is already in progress"
    case CredentialRefreshUnavailable => "OpenAI Codex credential refresh is temporarily unavailable"
    case Unavailable => "OpenAI Codex is unavailable"
    case TemporarilyUnavailable => "OpenAI Codex is temporarily unavailable"
  }

  function FinalDiagnostic(code: FailureCode): (text: string)
    requires !NeedsLogin(code) && !MayPass(code)
    ensures |text| <= 100
  {
    match code
    case UnsupportedPlatform => "OpenAI Codex model calls are supported only on macOS"
    case CredentialStoreUnavailable => "the OpenAI Codex credential store is unavailable"
    case UnexpectedProviderResponse => "OpenAI Codex returned an unexpected response"
    case AccessDenied => "this account does not have access to the Codex model request"
    case RateLimited => "OpenAI Codex usage or rate limit reached"
    case Rejected => "OpenAI Codex rejected the model request"
    case InvalidProviderResponse => "OpenAI Codex returned an invalid response"
    case CallTimedOut => "the OpenAI Codex model call timed out"
    case ResponseTooLarge => "OpenAI Codex returned a response that exceeded harness limits"
    case ModelCallFailed => "the OpenAI Codex model call did not complete"
    case EmptyResponse => "OpenAI Codex returned no text"
  }

  function Diagnostic(code: FailureCode): (text: string)
    ensures |text| <= 100
  {
    if NeedsLogin(code) then LoginDiagnostic(code) + "; run 'harness auth login openai-codex'"
    else if MayPass(code) then RetryDiagnostic(code) + "; try again"
    else FinalDiagnostic(code)
  }

  /** The JSON codec of one record. */
  datatype Codec = Codec(decode: Bytes -> Option<Record>, encode: Record -> Bytes)

  /** The hypotheses on the codec: what is encoded decodes back, is not empty and contains no LF. */
  ghost predicate Lawful(codec: Codec) {
    forall record ::
      && codec.decode(codec.encode(record)) == Some(record)
      && codec.encode(record) != []
      && LF !in codec.encode(record)
  }

  function SerializeLine(codec: Codec, record: Record): Option<Bytes> {
    var bytes := codec.encode(record);
    if |bytes| > MAX_RECORD_BYTES then None else Some(bytes + [LF])
  }

  predicate ValidId(value: string) {
    |value| == 32 && forall c <- value :: Numerals.IsDigit(c)
  }

  /** What `start` decides before it touches the disk. */
  datatype Session = Session(
    sessionId: string, operationId: string, userEntryId: string, createdAt: U64, userTimestamp: U64,
    workingDirectory: Option<string>, harnessVersion: string, prompt: string)

  // How a session ends, with the identifier and time of the record that says so.
  datatype Ending = Ending(entryId: string, timestamp: U64, payload: Payload)

  function HeaderRecord(s: Session): Record {
    Header(FORMAT_VERSION, s.sessionId, s.createdAt, s.workingDirectory, s.harnessVersion)
  }

  function UserRecord(s: Session): Record {
    Entry(s.userEntryId, None, 1, s.userTimestamp, s.operationId, UserMessage(s.prompt))
  }

  function EndingRecord(s: Session, e: Ending): Record {
    Entry(e.entryId, Some(s.userEntryId), 2, e.timestamp, s.operationId, e.payload)
  }

  predicate ValidSession(s: Session) {
    && ValidId(s.sessionId) && ValidId(s.operationId) && ValidId(s.userEntryId)
    && s.sessionId != s.operationId && s.sessionId != s.userEntryId && s.operationId != s.userEntryId
  }

  // `append_assistant` and `append_failure` build these payloads and no other.
  predicate EndingPayload(payload: Payload) {
    payload.AssistantMessage? || (payload.TerminalFailure? && payload.diagnostic == Diagnostic(payload.failureCode))
  }

  predicate ValidEnding(s: Session, e: Ending) {
    && ValidId(e.entryId) && e.entryId != s.sessionId && e.entryId != s.userEntryId && e.entryId != s.operationId
    && EndingPayload(e.payload)
  }

  /** The two lines a session starts with, or None where an identifier or a size is refused. */
  function InitialLines(codec: Codec, s: Session): Option<Bytes> {
    var header := SerializeLine(codec, HeaderRecord(s));
    var user := SerializeLine(codec, UserRecord(s));
    if !ValidSession(s) || header.None? || user.None? then None
    else if |header.value| + |user.value| > MAX_SESSION_BYTES then None
    else Some(header.value + user.value)
  }

  /** The line that ends a session, or None where its identifier or its size is refused. */
  function EndingLine(codec: Codec, s: Session, e: Ending): Option<Bytes> {
    if !ValidEnding(s, e) then None else SerializeLine(codec, EndingRecord(s, e))
  }
}
