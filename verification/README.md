# A verified model of harness: credentials, streams and sessions

`harness` is a command-line program that keeps one OpenAI Codex login fresh across processes, asks the model one
question over a server-sent event stream, and retains every question as a session file. This project models the parts
of it in which state and time make mistakes easy, and proves what they promise, for every input, every schedule and
every point at which a process can die. It needs Dafny 4.11; `dafny verify dfyconfig.toml` checks all of it.

**Credential renewal** (`Credential`, `CredentialContents`, `Renewal`, `RenewalSafety`, `RenewalGaps`, `RenewalDue`,
`RenewalCases`, `RenewalCall`, `RefreshLock`). Any number of processes share one stored record, one file lock and one refresh endpoint. The protocol is a state machine
whose actions are the program's reads, lock requests, requests, replies, writes and operations, with crashes between any
two of them and with logins and logouts, which write the store without the lock, as outsiders. A method in the order of
the program, with every other process acting between its steps, takes exactly these actions. Proved, each under its own hypothesis: no refresh token is sent twice if every request is
answered with a fresh token that is stored and no login brings back a spent one, wherever logins and logouts fall; each
token sent is the stored one if nobody else writes between a reread and its request; and a write replaces exactly what
was spent if nobody else writes from the reread to that write. For each way to break one of these there is a run that
ends badly. Without any of them: no credential is used before it is stored, one with more than five minutes left is used
without a lock or a request and any other only after asking for the lock, and the bounds on one call. With callers as the
only writers the store stays readable and keeps its account. What a record holds is told field by field and every refusal
error by error. The JSON codec of the record, the JWT payload decoder and the header check are parameters with two hypotheses: decoding
inverts encoding, and lock exclusion is the operating system's.

**The event stream decoder** (`SseEvents`, `SseMachine`, `SseStream`, `SseReads`, `SseLimits`, `SseAnswers`, `SseDecoder`,
`SseStandard`, `SseFraming`). The decoder is a class with the program's buffers. It is shown to compute a machine that
takes one byte at a time, which refines a reading of the whole stream without buffers or limits. So how the stream is
split into reads does not matter within the limit on the response, and past it two ways of reading agree in exactly the
cases that are stated; what a stream is answered with is said in terms of its events alone; raising a limit changes no other result; and a limit is reported exactly when the stream, its
blocks or the texts of its events are too long. On text whose lines end in LF or CR LF the framing is the one of section
9.2.6 of the WHATWG HTML Standard if and only if no block has a `data` line without a colon after a value and no byte
order mark stands before a value. For text with other CRs, agreement is not characterised: only a family of streams is
given on which the two differ. The JSON of one event is an abstract parser, so nothing depends on it.

**The session log** (`SessionFormat`, `JsonText`, `RecordFields`, `SessionSize`, `Projection`, `SessionStore`,
`SessionCalls`, `SessionList`, `ListedSessions`, `Ask`). Session files are an append-only format of at most three lines. Writers are a state machine that
writes any number of bytes at a time and can die after any of them; a reader is a function of the bytes. Proved: what
every torn write is read as; that no writer touches another's file; that what is shown after a writer is gone never
changes; that the bounded listing shows each file exactly as `session show` does, in an order that does not depend on
the directory, with the status of what was written, and refuses exactly the inventories over a limit; that the text of every valid ask fits its limits
however it is escaped. The codec of a record is a parameter with three hypotheses, and the printed JSON is shown to
satisfy them. `Ask` joins the log and the renderer to what a user sees.

**Small pieces** (`Renderer`, `CallbackQuery`, `CallbackAnswers`, `SemgrepPacks`, `SemgrepLines`, `SemgrepMerged`):
terminal-safe rendering, the strict check before the lenient form parser of the authorization callback and exactly which
callbacks are answered how, and the canonical form of a rule pack.

`Wrappers`, `Integers`, `Text`, `Bytes`, `Sequences`, `Utf8`, `Numerals` and `Sorting` hold what they share.

One place where the code and its documentation differ, modelled as the code has it: the documentation says that control
characters become visible escapes and that everything else is preserved, but a CR, alone or before an LF, becomes an LF.
The rendering is the documented one exactly for the texts without a CR (`Renderer.RenderIsDocumentedIff`), and on every
text it is the documented rendering of the text with its line ends made LF; both but for a final LF, which is added where
it is missing. `Renderer.RenderIsFaithful` and the two lemmas after it say, besides, what can be concluded from a
rendering.

And one difference between two operations: a login ignores the expiry claim of its access token if that has passed and
the response gives a lifetime, so what it stores always has time left or no known deadline; a refresh takes such a claim
as the deadline, so it can store a record that the plain reader at once rejects as expired.
`Credential.PassedExpiryDiffers` and `Credential.RefreshedIsReadableIff` say exactly when.

## Model

| member | source | states |
|---|---|---|
| Credential.EarliestDeadline | crates/openai-codex-auth/src/credential.rs:287-293 | the deadline is one of the two given, no later than either, and absent only when both are |
| Credential.RefreshDue | crates/openai-codex-auth/src/credential.rs:150-153 | a record is due when its expiry is unknown or at most five minutes away, and the saturating addition never changes that answer |
| Credential.StoredIffUsable | crates/openai-codex-auth/src/credential.rs:118-148 | a stored record is accepted by the renewal path exactly when it is usable, and is then read back unchanged |
| Credential.ValidatedIsStoredIff | crates/openai-codex-auth/src/credential.rs:45-148 | a record built from a fresh login is readable by both readers exactly when its access token and account id are safe in a header |
| Credential.RefreshKeepsUsable | crates/openai-codex-auth/src/credential.rs:155-201 | a refresh of a usable record is usable, keeps the account, has a deadline, and carries the rotated refresh token or else the old one |
| Credential.RefreshRunKeepsAccount | crates/openai-codex-auth/src/credential.rs:94-201 | after any run of refreshes alone the store is readable and belongs to the account it started with |
| Credential.LoginDeadline | crates/openai-codex-auth/src/credential.rs:66-81 | the deadline of a login is in the future or absent: a passed expiry claim is ignored where the response gives a lifetime, which is then the deadline |
| Credential.PassedExpiryDiffers | crates/openai-codex-auth/src/credential.rs:66-201 | from the same access token and lifetime a login and a refresh set the same deadline unless the token's claim has passed; then the login has time left and the refresh none |
| Credential.RefreshedIsReadableIff | crates/openai-codex-auth/src/credential.rs:98-116 | the plain reader accepts a refreshed record at once exactly when the token's own expiry claim is absent or in the future |
| Credential.RefreshCanStoreAnExpiredRecord | crates/openai-codex-auth/src/credential.rs:155-201 | a concrete refresh whose stored result the plain reader rejects as expired |
| CredentialContents.LoginIsStored | crates/openai-codex-auth/src/credential.rs:45-92 | an accepted login stores each of the three tokens as what the response calls it, the account of the id token or else of the access token, the earlier of the lifetime and a claim in the future, and the id token's email and plan |
| CredentialContents.LoginsAreRefusedFor | crates/openai-codex-auth/src/credential.rs:45-81 | each error of a login, exactly when it is returned |
| CredentialContents.RefreshIsStored | crates/openai-codex-auth/src/credential.rs:155-201 | an accepted refresh stores the returned access token, the returned refresh and id tokens or else the old ones, the stored account and the earlier deadline; email and plan follow the id token |
| CredentialContents.RefreshesAreRefusedFor | crates/openai-codex-auth/src/credential.rs:155-188 | each error of a refresh, exactly when it is returned |
| CredentialContents.StoredBytesAreRead | crates/openai-codex-auth/src/credential.rs:98-148 | what each of the two readers accepts, and which error each other content gets |
| CredentialContents.AccountsAre | crates/openai-codex-auth/src/credential.rs:261-270 | a token names an account exactly when its claim holds more than white space, and it is the claim without the white space around it |
| CredentialContents.DisplayedClaims | crates/openai-codex-auth/src/credential.rs:310-340 | an email or plan is shown exactly when its trimmed text is not empty, not too long and free of control characters |
| CredentialContents.Lifetimes | crates/openai-codex-auth/src/credential.rs:67-70 | a lifetime gives a deadline exactly when it is positive and the sum does not overflow |
| CredentialContents.HeaderValues | crates/openai-codex-auth/src/credential.rs:224-229 | what may stand in a header: not empty, no white space at its ends, no control character, and a header value |
| CredentialContents.TokenParts | crates/openai-codex-auth/src/credential.rs:247-259 | the payload read of a token is its second part where it has three and none is empty |
| CredentialContents.OtherTokens | crates/openai-codex-auth/src/credential.rs:247-259 | every token with a payload has that shape |
| Renewal.EffectOnLock | crates/openai-codex-auth/src/lib.rs:359-413 | the lock is taken only when free, and is held exactly from the reread to the end of the critical section |
| Renewal.RunsAreSound | crates/openai-codex-auth/src/lib.rs:343-417 | in every run each caller's locals are genuine snapshots, the lock has exactly one holder or none, and each call is within its budget at its program counter |
| RenewalSafety.TalliesCount | crates/openai-codex-auth/src/lib.rs:343-417 | the counters of a caller are the numbers of its actions in the run |
| RenewalSafety.EveryCallIsBounded | crates/openai-codex-auth/src/lib.rs:356-416 | in every run a call makes at most three reads, two lock requests, one refresh, one write and two operations, and writes only after a refresh |
| RenewalSafety.OperationsRunUnlocked | crates/openai-codex-auth/src/lib.rs:385-416 | no operation runs under the lock; a replay follows an unauthorized first outcome only, and after a refresh only with other bytes than those attempted |
| RenewalSafety.OnlyPersistedCredentialsAreUsed | crates/openai-codex-auth/src/lib.rs:356-416 | in every run, logins and logouts included, a record handed to an operation is one whose bytes the store held at an earlier step |
| RenewalSafety.RefreshTokensAreSpentOnce | crates/openai-codex-auth/src/lib.rs:356-414 | if every refresh sent is answered with a token never seen and that answer stored, and no login brings back a spent token, no refresh token is sent twice, wherever logins and logouts fall |
| RenewalSafety.SpentTokensAreStored | crates/openai-codex-auth/src/lib.rs:361-371 | if no other writer writes between a caller's reread and its request, each token sent is the one stored at that moment, whatever the answers are and whatever fails |
| RenewalSafety.WritesReplaceWhatWasSpent | crates/openai-codex-auth/src/lib.rs:361-381 | if none writes from the reread to the write either, then from its request to its write a caller's token is the last one sent and the store still holds the bytes it came from |
| RenewalSafety.CallersKeepTheAccount | crates/openai-codex-auth/src/lib.rs:343-417 | with callers as the only writers, whatever fails or crashes, every content the store ever has is readable and of one account |
| RenewalDue.CallersFollow | crates/openai-codex-auth/src/lib.rs:356-359 | in every run, what a caller does next is decided by the record it read and the clock it then looked at |
| RenewalDue.CredentialsWithTimeAreUsedAtOnce | crates/openai-codex-auth/src/lib.rs:359-391 | a caller whose record had more than 300 seconds left makes no lock request and no refresh before its first operation, which gets that record |
| RenewalDue.DueCredentialsAreLockedFirst | crates/openai-codex-auth/src/lib.rs:359-360 | a caller whose record had no more than that left, or no known deadline, asks for the lock before any operation |
| RenewalCases.Reading | crates/openai-codex-auth/src/lib.rs:356-356 | what a first read comes to: NotConnected on an empty store, StoreUnavailable on a failure, the error of the bytes, or their record |
| RenewalCases.FailedRereads | crates/openai-codex-auth/src/lib.rs:361-361 | a failed reread ends the call with those errors and frees the lock |
| RenewalCases.WinnersAreAdopted | crates/openai-codex-auth/src/lib.rs:362-364 | a record stored meanwhile is handed to the operation and no request is made |
| RenewalCases.OwnRefreshesAreNotRepeated | crates/openai-codex-auth/src/lib.rs:398-399 | after its own refresh, a second refusal of the same bytes is the result |
| RenewalCases.HeldTokensAreSent | crates/openai-codex-auth/src/lib.rs:366-369 | otherwise the refresh token of the record held is sent |
| RenewalCases.FailedAnswers | crates/openai-codex-auth/src/lib.rs:369-377 | each failed answer ends the call with its own error and the store as it was |
| RenewalCases.StoredAnswersAreUsed | crates/openai-codex-auth/src/lib.rs:378-383 | a replacement that is stored is the record the operation gets; one that is not ends the call |
| RenewalCases.OutcomesAreReturned | crates/openai-codex-auth/src/lib.rs:385-416 | the first outcome is the result unless it is an unauthorized rejection, and the second always is |
| RenewalGaps.LostReplySpendsTwice | crates/openai-codex-auth/src/lib.rs:369-381 | from every state with a request in flight and the store still holding what it spent, a lost reply (a crash, a failed write, a failed refresh) lets the run go on to send the same token again |
| RenewalGaps.OneCrashSpendsTwice | crates/openai-codex-auth/src/lib.rs:369-371 | for every readable record there is a run in which one crash after the request makes two requests carry its token |
| RenewalGaps.RestoredTokenIsSpentTwice | crates/openai-codex-auth/src/lib.rs:572-574 | a login that brings back a spent token lets it be sent again, even while the lock is free |
| RenewalGaps.UnrotatedTokenIsSpentTwice | crates/openai-codex-auth/src/lib.rs:372-381 | so does a reply whose refresh token was spent before, the one just sent included |
| RenewalGaps.UnlockedLoginIsOverlooked | crates/openai-codex-auth/src/lib.rs:572-574 | a login with another token, or one that cannot be read, between a caller's reread and its request makes the caller spend a token that is not the stored one |
| RenewalGaps.UnlockedLogoutIsOverlooked | crates/openai-codex-auth/src/lib.rs:261-268 | a logout there makes the caller spend the token after it is gone |
| RenewalGaps.UnlockedWriteIsUndone | crates/openai-codex-auth/src/lib.rs:378-381 | a login or logout while an answer waits to be stored is undone by storing it |
| RenewalGaps.AwaitedWriteIsUndone | crates/openai-codex-auth/src/lib.rs:370-381 | so is one while the answer has yet to come |
| RenewalCall.World.WithRenewableCredential | crates/openai-codex-auth/src/lib.rs:343-417 | one whole call, with others acting between any two of its steps, takes steps of the protocol only and ends in the state that holds its result; with more than 300 seconds left when it looked at the clock, and no unauthorized outcome, it returns without a lock request or a refresh; with no more it does not return an outcome without having asked for the lock |
| RenewalCall.World.Renew | crates/openai-codex-auth/src/lib.rs:359-383 | the half before the operation ends ready to operate on the record it returns, with the lock released, or finished with its error |
| RenewalCall.World.Replay | crates/openai-codex-auth/src/lib.rs:393-416 | the half after an unauthorized outcome ends finished with the first outcome, the replayed one or an error |
| RenewalCall.World.RefreshAndStore | crates/openai-codex-auth/src/lib.rs:369-381 | the request is sent, the reply applied and the result stored in that order, and a failure at any of them is what is returned |
| RefreshLock.LockFile.Acquire | crates/openai-codex-auth/src/refresh_lock.rs:90-112 | without a lock file Unavailable at once; otherwise at most ceil(timeout / interval) sleeps, Busy only once the timeout has passed and every try found the lock taken, the first other answer is reported; on a punctual clock giving up takes exactly that many sleeps |
| RefreshLock.ProductionWaitsAtMost1300Sleeps | crates/openai-codex-auth/src/refresh_lock.rs:14-15 | in production that is 1300 sleeps |
| SseMachine.FeedConcat | crates/openai-codex-model/src/sse.rs:89-122 | feeding bytes in two parts is feeding them at once |
| SseMachine.DataAlwaysFits | crates/openai-codex-model/src/sse.rs:124-180 | the later check on the length of the collected data never rejects what the check on the event let through |
| SseMachine.BuffersStayBounded | crates/openai-codex-model/src/sse.rs:98-180 | in every reachable state every buffer is within its limit, and an answer is never empty nor too long |
| SseMachine.FeedMonotone | crates/openai-codex-model/src/sse.rs:112-140 | larger limits change nothing for bytes that hit no limit |
| SseStream.DecoderRefinesStream | crates/openai-codex-model/src/sse.rs:50-256 | on every prefix of every stream the incremental decoder agrees with the reading of the whole stream: lines, blocks, event data, and the answer up to the first terminal event |
| SseReads.SplittingDoesNotMatter | crates/openai-codex-model/src/sse.rs:50-87 | within the response limit the result depends on the bytes alone, not on the reads |
| SseReads.OversizeSplitsAgreeIff | crates/openai-codex-model/src/sse.rs:69-74 | past that limit any two ways of reading the same bytes agree exactly when what the one takes in beyond the other settles nothing but a limit |
| SseLimits.SplitsAgreeIff | crates/openai-codex-model/src/sse.rs:69-74 | in terms of the stream: exactly when what the first takes in runs into another limit or settles the result, or what the second takes in runs into one or settles nothing |
| SseReads.OversizeSplitsCanDiffer | crates/openai-codex-model/src/sse.rs:69-74 | bytes that settle a result exactly at the limit do so when read apart from what follows and not when read with it |
| SseLimits.OneByteTooMany | crates/openai-codex-model/src/sse.rs:69-74 | a concrete family of streams on which the two results are the provider's failure and LimitExceeded |
| SseLimits.LimitIsHitIff | crates/openai-codex-model/src/sse.rs:112-180 | a limit is hit exactly when, before the result is settled, a block of lines is longer than an event may be, or the texts of the events before the first terminal one are longer than a text may be |
| SseLimits.LimitIsReportedIff | crates/openai-codex-model/src/sse.rs:50-87 | a reading reports a limit exactly when the bytes it took in hit one, or more came than it may take in and these settled nothing |
| SseLimits.FittingStreamsAreRead | crates/openai-codex-model/src/sse.rs:50-87 | a stream within the three limits is answered as the stream as a whole is |
| SseReads.DecodingReadsTheStream | crates/openai-codex-model/src/sse.rs:50-87 | unless a limit is reported the result is that of the whole stream and its end |
| SseEvents.ItemTextIs | crates/openai-codex-model/src/sse.rs:258-282 | the text of an item is the texts of its `output_text` parts in order, and only an assistant message with content has one |
| SseAnswers.ChosenIs | crates/openai-codex-model/src/sse.rs:222-243 | a completed response is answered with the last message that has text, else all deltas in order, else the last finished text, else EmptyText |
| SseAnswers.SettledStreams | crates/openai-codex-model/src/sse.rs:205-256 | a stream with a terminal event is answered by that event and those before it: a completion as said, a failure with ModelFailed, a malformed event with Invalid |
| SseAnswers.UnsettledStreams | crates/openai-codex-model/src/sse.rs:50-87 | a stream without one ends in Invalid or in the error of its end |
| SseAnswers.EveryStreamIsSettledOrNot | crates/openai-codex-model/src/sse.rs:205-256 | every sequence of events is of one of these two kinds |
| SseAnswers.DataLines | crates/openai-codex-model/src/sse.rs:141-166 | the value of a `data` field is what follows the colon without one space, and no other line has one |
| SseReads.RaisingLimitsIsSafe | crates/openai-codex-model/src/sse.rs:69-74 | raising any limit changes no result other than LimitExceeded |
| SseDecoder.Decoder.Dispatch | crates/openai-codex-model/src/sse.rs:205-256 | one event's reaction on the text kept so far: which of item, deltas and done text is the answer, and each failure |
| SseDecoder.Decoder.ProcessLine | crates/openai-codex-model/src/sse.rs:124-180 | a line does to the buffers what the machine does with it |
| SseDecoder.Decoder.ProcessChunk | crates/openai-codex-model/src/sse.rs:89-122 | a chunk does what its bytes do one by one |
| SseDecoder.Decoder.Decode | crates/openai-codex-model/src/sse.rs:50-87 | without a limit the result is the whole stream's, after dispatching exactly its events up to the first terminal one |
| SseDecoder.AssistantItemText | crates/openai-codex-model/src/sse.rs:258-282 | the text of an item within the limit, which for an assistant message with content is that of its `output_text` parts one after the other, or LimitExceeded exactly past it |
| SseDecoder.AppendBounded | crates/openai-codex-model/src/sse.rs:284-298 | the whole text or LimitExceeded, exactly at the limit |
| SseFraming.BlockAgreesIff | crates/openai-codex-model/src/sse.rs:124-180 | a block is an event in both readings or in neither, and the same one exactly if no data line without a colon comes after a value |
| SseFraming.FramingAgreesIff | crates/openai-codex-model/src/sse.rs:89-180 | on text with LF or CR LF line ends the decoder's events are the standard's event data without leading LFs if and only if no block that ends has a colon-less data line after a value and no byte order mark stands before a value of a block that ends |
| SseFraming.FramingFollowsTheStandard | crates/openai-codex-model/src/sse.rs:50-180 | under that condition what the decoder dispatches is the standard's, up to the first terminal event |
| SseFraming.RunningFollowsIff | crates/openai-codex-model/src/sse.rs:50-180 | and a decoder that is still running has dispatched the standard's strings exactly under it |
| SseFraming.ColonlessDataDiffers | crates/openai-codex-model/src/sse.rs:156-166 | for every value, one stream with a colon-less data line and what each reading makes of it |
| SseFraming.ByteOrderMarkDiffers | crates/openai-codex-model/src/sse.rs:124-166 | for every value, one stream with a byte order mark and what each reading makes of it |
| SseFraming.ReturnInDataDiffers | crates/openai-codex-model/src/sse.rs:89-180 | on any stream at all, where the decoder dispatches a string that holds a CR the two readings differ, for the standard's data never holds one |
| SseFraming.BareCrDiffers | crates/openai-codex-model/src/sse.rs:98-104 | for every value, one stream with bare CR line ends for which the standard has an event and the decoder none |
| JsonText.EscapeExpandsAtMostSixfold | crates/harness-session-log/src/format.rs:209-211 | JSON escaping makes a text at most six times as long and never shorter |
| JsonText.QuotedReadsBack | crates/harness-session-log/src/format.rs:209-211 | reading a printed string by section 7 of RFC 8259 gives back the text and what follows it |
| JsonText.PrintIsDelimited | crates/harness-session-log/src/format.rs:209-211 | no two JSON values are printed alike, whatever follows them |
| JsonText.RecordsArePrintedApart | crates/harness-session-log/src/format.rs:71-130 | a printed record is one non-empty line and no two records are printed alike |
| JsonText.PrinterIsLawful | crates/harness-session-log/src/format.rs:209-216 | the hypotheses on the codec hold of the printed form with exactly the readers that read what is printed, and there is one |
| SessionSize.EveryValidAskFits | crates/harness-session-log/src/file.rs:346-354 | every prompt of at most 32 KiB and answer of at most 256 KiB, or failure, meets the record and session limits with a header line of at most 1 MiB |
| SessionSize.EveryValidAskIsRetained | crates/harness-session-log/src/file.rs:534-543 | so it is read back from its file, in any working directory of at most 128 KiB and with a version text of at most 1 KiB |
| RecordFields.HeaderLine | crates/harness-session-log/src/format.rs:72-145 | the first line of a session, field by field |
| RecordFields.UserLine | crates/harness-session-log/src/format.rs:147-164 | the second: sequence 1, no parent, the prompt |
| RecordFields.LastLine | crates/harness-session-log/src/format.rs:166-207 | the third: sequence 2, its parent the second, in the same operation |
| RecordFields.LastPayload | crates/harness-session-log/src/format.rs:94-130 | the payload of an answer and of a failure, field by field |
| RecordFields.ObjectsArePrinted | crates/harness-session-log/src/format.rs:209-217 | an object is its members in order, each as name, colon and value, between braces and commas |
| Projection.ParseRecords | crates/harness-session-log/src/projection.rs:158-185 | the backward scan and the forward loop read the complete lines as records, one to three of an allowed size, and say whether bytes follow |
| Projection.FragmentOnlySetsTheFlag | crates/harness-session-log/src/projection.rs:158-185 | an incomplete last line changes nothing but the fragment flag |
| Projection.TornWritesAreRead | crates/harness-session-log/src/projection.rs:89-231 | every byte prefix of a session: Corrupt before the user line is complete, then interrupted with its prompt and the flag set exactly when bytes follow, and for the whole exactly what was written |
| Projection.TornStartIsCorrupt | crates/harness-session-log/src/projection.rs:89-156 | a start that is not complete is Corrupt |
| Projection.TornEndingIsInterrupted | crates/harness-session-log/src/projection.rs:89-156 | a complete start with any incomplete line after it is the interrupted session |
| Projection.CompleteSessionIsShown | crates/harness-session-log/src/projection.rs:89-231 | three complete lines are shown as the answer or failure that was written |
| Projection.UnsupportedIff | crates/harness-session-log/src/projection.rs:89-107 | UnsupportedVersion is told exactly of a readable file whose first record is a header of another version than 1 |
| Projection.ReadStart | crates/harness-session-log/src/projection.rs:89-139 | what the first two records of a projected file must be |
| Projection.ReadEnding | crates/harness-session-log/src/projection.rs:187-231 | what the third must be for its answer or failure to be shown |
| Projection.ShownWasWritten | crates/harness-session-log/src/projection.rs:89-231 | a file that is projected holds the records of the session it is shown as |
| SessionStore.StepsTouchTheirOwnFile | crates/harness-session-log/src/file.rs:364-572 | a step changes no file but its writer's own, which only grows and disappears only when that writer removes it |
| SessionStore.RunsAreSound | crates/harness-session-log/src/file.rs:364-588 | in every run each file is a prefix of the lines its writer set out to write and is locked exactly while that writer lives |
| SessionStore.SessionsReadBack | crates/harness-session-log/src/file.rs:364-588 | in every run a file shows Busy while locked, and afterwards its own prompt with the written ending, or interrupted, or Corrupt where the start had not succeeded |
| SessionStore.AtMostOneEnding | crates/harness-session-log/src/file.rs:527-572 | a file has at most three lines and none but the third is a terminal record, so it never gets a second one |
| SessionStore.ClosedFilesStay | crates/harness-session-log/src/file.rs:574-588 | once its writer is gone no run changes a file or what is shown of it |
| SessionCalls.Disk.StartFile | crates/harness-session-log/src/file.rs:364-404 | a start holds its file locked with exactly its two lines, or leaves no live writer; other writers act throughout. Where no step fails it starts unless a source gives nothing usable or eight identifiers were tried, and where nobody else acts it takes the first identifier not in use |
| SessionCalls.Disk.Append | crates/harness-session-log/src/file.rs:449-477 | whatever fails the writer is gone and the prompt is shown; a success is shown exactly as written, and where no step fails it succeeds exactly if a time is given and the line fits in a session of 3 MiB |
| SessionCalls.Disk.Rollback | crates/harness-session-log/src/file.rs:479-504 | the writer is gone, and after a success, which is certain where no step fails, no file is its own |
| SessionList.CanonicalId | crates/harness-session-log/src/file.rs:655-659 | a file name is canonical exactly when it is a valid identifier and the suffix |
| SessionList.CollectCandidateIds | crates/harness-session-log/src/file.rs:625-653 | the sorted identifiers of the canonical names, or InventoryTooLarge exactly when a count is over its limit |
| SessionList.InspectWithin | crates/harness-session-log/src/file.rs:797-856 | what show gives, or nothing exactly when the file's chargeable size is over what is left |
| SessionList.SummarizeCandidates | crates/harness-session-log/src/file.rs:661-699 | the sorted summaries of the candidates that are still there when each is opened, or InventoryTooLarge exactly when their chargeable sizes sum to more than the limit |
| SessionList.ListFile | crates/harness-session-log/src/file.rs:591-623 | the listing of names read in any order from a directory that may be missing, unsafe or lose files meanwhile, and exactly when it is refused and why |
| SessionList.List | crates/harness-session-log/src/file.rs:184-186 | of a directory that nobody changes, at the program's limits: every candidate summarised, refused exactly when a count or the sum of the chargeable sizes is over its limit |
| SessionList.ListAgreesWithShow | crates/harness-session-log/src/file.rs:661-699 | the entries are sorted and are, each once, the summaries of showing each canonical file |
| SessionList.ListedIffShown | crates/harness-session-log/src/file.rs:661-699 | an entry is listed exactly when it is the summary of showing the canonical file it names |
| ListedSessions.WrittenSessionsAreListed | crates/harness-session-log/src/projection.rs:68-80 | the entry of a session written up to any byte: Corrupt without its user line; then Interrupted with its time, flagged exactly when bytes follow; Completed after an answer and Failed after a failure |
| ListedSessions.LockedFilesAreListedBusy | crates/harness-session-log/src/file.rs:797-815 | a file that is held is listed as Busy without a time |
| ListedSessions.UntrustedFilesAreListedUnavailable | crates/harness-session-log/src/file.rs:797-815 | a file that is not private is listed as Unavailable |
| ListedSessions.UnreadableFilesAreListed | crates/harness-session-log/src/file.rs:661-699 | a file of another version is listed as Unsupported, and any other that is not projected as Corrupt |
| ListedSessions.ErrorsAre | crates/harness-session-log/src/file.rs:738-856 | which error a session that is not shown gets, each exactly when: no identifier of 32 hexadecimal digits, no file, not private, held, another version |
| ListedSessions.ListedInOrder | crates/harness-session-log/src/file.rs:686-694 | newest first, then by identifier; entries without a time come last, by identifier |
| ListedSessions.ChargeIsWhatIsRead | crates/harness-session-log/src/file.rs:816-856 | the limit on bytes is on the sizes of the files that are read: those not held, private and not too large |
| SessionList.ListForgetsDirectoryOrder | crates/harness-session-log/src/file.rs:625-653 | neither the entries nor the refusal depend on the order of the directory |
| SessionList.DirectoryShowsTheStore | crates/harness-session-log/src/file.rs:738-757 | showing a session from the directory is showing it in the state of the writers |
| Ask.RunAsk | crates/harness-cli/src/main.rs:774-834 | what one ask prints and its status; a retained answer is later shown exactly as it was printed, a failure with its diagnostic, and otherwise the prompt is still shown; where nothing fails a session starts, its ending is retained with status 0, and a refused prompt is taken back with status 2 |
| Ask.ShownForGood | crates/harness-cli/src/main.rs:927-958 | nothing any writer does later changes what is shown |
| Ask.ShownSessionsAreClean | crates/harness-cli/src/main.rs:960-984 | whatever bytes a file holds, showing it prints no control but LF and tab and no bidirectional control |
| Ask.SessionsPrint | crates/harness-cli/src/main.rs:960-984 | the text that shows a session, line by line |
| Renderer.RenderModelText | crates/harness-cli/src/main.rs:1007-1035 | the loop with its lookahead renders the text as a whole |
| Renderer.RenderCleans | crates/harness-cli/src/main.rs:1007-1046 | every rendering ends in an LF and holds no control but LF and tab and no bidirectional control; such texts are exactly the fixed points |
| Renderer.RenderFits | crates/harness-cli/src/main.rs:1008-1013 | a rendering of n bytes has at most 6n + 1, so the reserved buffer suffices |
| Renderer.RenderIsDocumentedIff | crates/harness-cli/src/main.rs:1016-1031 | every control and bidirectional control character but LF and tab becomes its visible escape and everything else is preserved, exactly for the texts without a CR |
| Renderer.RenderIsDocumentedForLines | crates/harness-cli/src/main.rs:1016-1031 | on every text that holds of the text with its line ends made LF |
| Renderer.RenderIsFaithful | crates/harness-cli/src/main.rs:1007-1046 | texts without CR and backslash are rendered alike exactly when they are the same but for a final LF |
| Renderer.RenderConfusesLineEnds | crates/harness-cli/src/main.rs:1018-1023 | with a CR they need not be |
| Renderer.RenderConfusesWrittenEscapes | crates/harness-cli/src/main.rs:1025-1027 | every escaped character is rendered like its escape written out |
| Renderer.CharactersAreRendered | crates/harness-cli/src/main.rs:1016-1046 | which characters are escaped and how: the controls but LF, CR and tab and the nine bidirectional controls, in hexadecimal; every other stands for itself |
| CallbackQuery.QueryIsWellFormed | crates/openai-codex-auth/src/callback.rs:181-205 | the loop accepts exactly the ASCII queries with complete escapes whose decoded bytes are UTF-8 |
| CallbackQuery.CheckSuffices | crates/openai-codex-auth/src/callback.rs:142-159 | for a query without broken escapes the check accepts exactly when every name and value the form parser reads is UTF-8, so no character is ever substituted |
| CallbackQuery.SerializedFormsAreRead | crates/openai-codex-auth/src/callback.rs:149-159 | whatever texts a provider serializes as a form are accepted and read back |
| CallbackQuery.ReadForm | crates/openai-codex-auth/src/callback.rs:146-178 | the loop answers as the values given for each name require: exactly one state, the expected one, and exactly one of a code and an error |
| CallbackQuery.ValidateRequest | crates/openai-codex-auth/src/callback.rs:128-179 | a request is decided by its method, length, path, query check and form, in that order |
| CallbackQuery.SerializedCallbacksAreDecided | crates/openai-codex-auth/src/callback.rs:128-179 | a callback that a provider serializes is decided by its form alone, or is too long |
| CallbackQuery.CodesArrive | crates/openai-codex-auth/src/callback.rs:168-169 | every code without control characters reaches the exchange as the provider sent it |
| CallbackAnswers.CodesComeThroughExactly | crates/openai-codex-auth/src/callback.rs:128-179 | a code comes through exactly from a callback short enough whose form names once the expected state, alone or with the one suffix, and once that code, without control characters, and no error |
| CallbackAnswers.RefusalsAreToldApart | crates/openai-codex-auth/src/callback.rs:170-176 | denied, temporarily unavailable and failed, each exactly for its own errors |
| CallbackAnswers.OtherStatesAreRefused | crates/openai-codex-auth/src/callback.rs:164-225 | a callback with any other state is refused |
| CallbackAnswers.OtherRequestsAreRefused | crates/openai-codex-auth/src/callback.rs:128-141 | as is any request but a GET of the callback path |
| CallbackAnswers.UnreadableIsRefused | crates/openai-codex-auth/src/callback.rs:181-205 | as is a query with a byte that is not ASCII or an incomplete escape |
| CallbackAnswers.FieldsAreSplit | crates/openai-codex-auth/src/callback.rs:149-159 | fields are split at every ampersand and empty ones skipped |
| CallbackAnswers.FieldIsRead | crates/openai-codex-auth/src/callback.rs:149-159 | a field is its name and value around the first equals sign |
| SemgrepPacks.ParseRuleBlocks | scripts/semgrep_packs.py:136-159 | the loop cuts the lines after the first into rules, or fails at the first line that is refused |
| SemgrepPacks.PackIsStacked | scripts/semgrep_packs.py:136-159 | every rule is one starting line that names it and lines that start no other, and every rule but the last ends in a line break |
| SemgrepPacks.PackIsKept | scripts/semgrep_packs.py:136-159 | nothing of a pack is lost but blank lines before its first rule |
| SemgrepPacks.ValidatePackContent | scripts/semgrep_packs.py:162-175 | the canonical form, size and number of rules of a pack with distinct identifiers, or why it is refused |
| SemgrepLines.LinesAreCut | scripts/semgrep_packs.py:139-141 | the lines are the text cut after every LF, CR and CR LF and nowhere else |
| SemgrepLines.StripIs | scripts/semgrep_packs.py:147-147 | an identifier is stripped of the white space at both ends and of nothing else |
| SemgrepLines.OtherTextIsRefused | scripts/semgrep_packs.py:162-167 | NotRules exactly without the header line, and then TooLarge exactly past 8 MiB |
| SemgrepLines.LineIsRefused | scripts/semgrep_packs.py:136-159 | the first line that is refused decides the error: BlankId where it starts a rule, else ContentBeforeRules |
| SemgrepLines.LinesAreTaken | scripts/semgrep_packs.py:156-175 | without one, NoRules exactly if no line starts a rule, and DuplicateIds exactly if two rules have one identifier |
| SemgrepLines.CanonicalIsInByteOrder | scripts/semgrep_packs.py:172-174 | the canonical form holds the rules in the order of the bytes of their identifiers |
| SemgrepPacks.CanonicalReadsBackIff | scripts/semgrep_packs.py:162-175 | the canonical form is read as the sorted rules exactly when the pack ends in a line break or its last rule also sorts last |
| SemgrepMerged.CanonicalIsCut | scripts/semgrep_packs.py:136-175 | the canonical form of any accepted pack is cut into its sorted rules, two of them joined where the first lacks a line break |
| SemgrepMerged.CanonicalIsIdempotentIff | scripts/semgrep_packs.py:162-175 | canonicalising an accepted pack twice is canonicalising it once exactly if the rule that lacks a line break, if there is one, is not joined to one that no longer comes before the next |
| SemgrepMerged.CanonicalIsIdempotent | scripts/semgrep_packs.py:172-174 | in particular if the pack ends in a line break or its last rule also sorts last |
| SemgrepMerged.CanonicalisingTwiceDiffers | scripts/semgrep_packs.py:172-174 | a family of packs of three rules on which it is not |
| SemgrepMerged.SameRulesSameCanonical | scripts/semgrep_packs.py:172-175 | accepted packs with the same rules in any order have the same canonical form |
| SemgrepMerged.SameCanonicalIffMerged | scripts/semgrep_packs.py:172-175 | accepted packs have the same canonical form exactly when their sorted rules are the same once joined so |
| SemgrepMerged.SameCanonicalIff | scripts/semgrep_packs.py:172-175 | packs that end in a line break, or whose last rule also sorts last, have the same canonical form exactly when they hold the same rules in any order |
| SemgrepMerged.CanonicalFormsCollide | scripts/semgrep_packs.py:172-175 | where neither holds and nothing is out of place, a pack and its own canonical form are two packs with that form and different rules |
| SemgrepMerged.TwoPacksCollide | scripts/semgrep_packs.py:172-175 | a family of such packs of two rules |
| Utf8.ValidAroundAscii | crates/openai-codex-auth/src/callback.rs:204-204 | bytes are UTF-8 exactly when the parts around an ASCII byte are |
| Utf8.DecodedEncodes | crates/openai-codex-auth/src/callback.rs:204-204 | UTF-8 bytes are the encoding of the text they decode to |
| Sorting.SortForgetsOrder | crates/harness-session-log/src/file.rs:651-651 | sorting arrangements of the same elements, no two of which tie, gives the same sequence |

## Left out

- HTTP, TLS, redirects, the mapping of status codes, the browser, the callback's socket loop and the Keychain: input and
  output; each appears as the success or failure of a step or as an arbitrary result.
- JWT signatures, base64, SHA-256 and random identifiers: abstract functions, values from an arbitrary source, or (the
  pack digest) the bytes that would be hashed.
- Parsing JSON: the readers of stored credentials, events and session records are parameters under the hypotheses named
  above; only the printing of records and the reading of one JSON string are modelled.
- The budgets of wall-clock time inside the stream decoder and the refresh client: a read may fail with a timeout, but
  no clock is modelled there.
- A failed write of the credential store is taken to have left the store unchanged.
- RefreshLock.LockFile.Acquire: preparing the directory and opening the lock file is one step that may fail.
- SseFraming.FramingFollowsTheStandard: that every CR is followed by an LF is only a sufficient condition; where the
  decoder and the standard agree on text with other CRs is not characterised.
- Permissions, symbolic and hard links, identity of files and syncing: one success or failure of the step they guard. A
  file replaced behind a writer's back is such a failure.
- SessionCalls.Disk.StartFile: creating a file and locking it is one step, so the moment in which a reader could find the
  new file empty and unlocked is not modelled.
- SessionList.ListFile: an error while the names are read is not modelled.
- SessionList.InspectWithin: a file that changes or fails while it is being read is not modelled, nor one too large for
  the address space.
- SessionFormat.ValidSession: refuses identifiers that are not 32 lower-case hexadecimal digits as well as equal ones;
  the program refuses only equal ones and relies on its source of identifiers for the rest.
- SessionFormat.ValidEnding: likewise.
- The memory backend of the session log, which exists for tests only and unlocks differently.
- Overflow of a `usize` counter, which the program reports as the limit being exceeded; no limit is that large.
- The grammar of the command line, help texts, the table that `session list` prints, and the wording of errors.
- Parsing and comparing the manifest of the rule packs, and reading and writing files in that script.
