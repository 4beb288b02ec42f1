/** The stream decoder with the buffers it updates in place. */
module SseDecoder {
  import opened Wrappers
  import opened Bytes
  import opened SseEvents
  import opened SseMachine
  import opened SseStream
  import opened SseReads
  import Utf8

  method AppendBounded(target: Bytes, text: Bytes, maximum: nat) returns (r: Result<Bytes, DecodeError>)
    ensures |target| + |text| <= maximum ==> r == Ok(target + text)
    ensures |target| + |text| > maximum ==> r == Err(LimitExceeded)
  {
    if |target| + |text| > maximum {
      return Err(LimitExceeded);
    }
    return Ok(target + text);
  }

  /** The text of an assistant message, None if it has none; the limit is on the whole text, wherever it is crossed. */
  method AssistantItemText(item: Item, maximum: nat) returns (r: Result<Option<Bytes>, DecodeError>)
    ensures |ItemText(item)| > maximum ==> r == Err(LimitExceeded)
    ensures |ItemText(item)| <= maximum ==> r == Ok(if ItemText(item) == [] then None else Some(ItemText(item)))
    ensures r.Ok? && r.value.Some? ==>
              && item.message && item.assistant && item.content.Some?
              && r.value.value == Concat(PartTexts(item.content.value))
    ensures r == Ok(None) ==>
              item.message && item.assistant && item.content.Some? ==> Concat(PartTexts(item.content.value)) == []
  {
    ItemTextIs(item);
    if !item.message || !item.assistant {
      return Ok(None);
    }
    if item.content.None? {
      return Ok(None);
    }
    var content := item.content.value;
    var text: Bytes := [];
    for i := 0 to |content|
      invariant text == PartsText(content[..i]) && |text| <= maximum
    {
      assert content[..i + 1][..i] == content[..i];
      PartsTextGrows(content, i + 1);
      var part := content[i];
      if !part.outputText || part.text.None? {
        continue;
      }
      var appended := AppendBounded(text, part.text.value, maximum);
      if appended.Err? {
        return Err(appended.error);
      }
      text := appended.value;
    }
    assert content[..|content|] == content;
    return Ok(if text == [] then None else Some(text));
  }

  class Decoder {
    const parse: Parser
    const limits: Limits
    var pending: Bytes
    var eventData: Bytes
    var eventBytes: nat
    var responseBytes: nat
    var deltas: Bytes
    var outputItem: Option<Bytes>
    var done: Option<Bytes>
    ghost var log: seq<Bytes>

    ghost function State(): Machine
      reads this
    {
      Machine(pending, eventData, eventBytes, TextState(deltas, outputItem, done), log)
    }

    /** Every buffer is within its limit between two bytes. */
    ghost predicate Valid()
      reads this
    {
      Bounded(limits, State())
    }

    // A step's answer: nothing yet, the text, or an error.
    ghost predicate Shows(r: Result<Option<Bytes>, DecodeError>, p: Progress)
      reads this
    {
      match p
      case Running(m) => r == Ok(None) && State() == m
      case Stopped(Ok(text), events) => r == Ok(Some(text)) && log == events
      case Stopped(Err(error), events) => r == Err(error) && log == events
    }

    constructor (parse: Parser, limits: Limits)
      ensures Valid() && State() == INITIAL && responseBytes == 0
      ensures this.parse == parse && this.limits == limits
    {
      this.parse, this.limits := parse, limits;
      pending, eventData, eventBytes, responseBytes := [], [], 0, 0;
      deltas, outputItem, done, log := [], None, None, [];
    }

    method Dispatch(data: Bytes) returns (r: Result<Option<Bytes>, DecodeError>)
      modifies `deltas, `outputItem, `done, `log
      ensures log == old(log) + [data]
      ensures match React(parse(data), TextState(old(deltas), old(outputItem), old(done)), limits.textBytes)
              case Continue(text) => r == Ok(None) && TextState(deltas, outputItem, done) == text
              case Answer(answer) => r == Ok(Some(answer))
              case Fail(error) => r == Err(error)
    {
      log := log + [data];
      match parse(data)
      case Malformed => return Err(Invalid);
      case Delta(delta) =>
        if delta.None? {
          return Err(Invalid);
        }
        var appended := AppendBounded(deltas, delta.value, limits.textBytes);
        if appended.Err? {
          return Err(appended.error);
        }
        deltas := appended.value;
        return Ok(None);
      case ItemDone(item) =>
        if item.None? {
          return Err(Invalid);
        }
        var text := AssistantItemText(item.value, limits.textBytes);
        if text.Err? {
          return Err(text.error);
        }
        if text.value.Some? {
          outputItem := text.value;
        }
        return Ok(None);
      case TextDone(text) =>
        if text.None? {
          return Err(Invalid);
        }
        if |text.value| > limits.textBytes {
          return Err(LimitExceeded);
        }
        done := text;
        return Ok(None);
      case Completed =>
        var text := outputItem;
        if text.None? && deltas != [] {
          text := Some(deltas);
        }
        if text.None? {
          text := done;
        }
        if text.None? || text.value == [] {
          return Err(EmptyText);
        }
        return Ok(text);
      case Failed => return Err(ModelFailed);
      case Other => return Ok(None);
    }

    // A blank line: dispatches what has been collected and starts the next event.
    method FinishEvent() returns (r: Result<Option<Bytes>, DecodeError>)
      requires pending == []
      modifies `eventData, `eventBytes, `deltas, `outputItem, `done, `log
      ensures Shows(r, EndEvent(parse, limits, old(State())))
    {
      r := Ok(None);
      if eventData != [] {
        r := Dispatch(eventData);
        if r.Err? {
          return;
        }
      }
      eventData := [];
      eventBytes := 0;
    }

    // Another value of the event that is being collected.
    method CollectData(value: Bytes) returns (r: Result<Option<Bytes>, DecodeError>)
      modifies `eventData
      ensures var fits := |old(eventData)| + |value| + (if old(eventData) == [] then 0 else 1) <= limits.eventBytes;
              && r == (if fits then Ok(None) else Err(LimitExceeded))
              && eventData == if fits then Joined(old(eventData), value) else old(eventData)
    {
      var additional := |value| + (if eventData == [] then 0 else 1);
      if |eventData| + additional > limits.eventBytes {
        return Err(LimitExceeded);
      }
      if eventData != [] {
        eventData := eventData + [LF];
      }
      eventData := eventData + value;
      return Ok(None);
    }

    method ProcessLine(raw: Bytes) returns (r: Result<Option<Bytes>, DecodeError>)
      requires pending == []
      modifies `eventData, `eventBytes, `deltas, `outputItem, `done, `log
      ensures Shows(r, TakeLine(parse, limits, old(State()), raw))
    {
      var line := raw;
      if line != [] && line[|line| - 1] == CR {
        line := line[..|line| - 1];
      }
      assert line == StripCr(raw);
      eventBytes := eventBytes + |line| + 1;
      if eventBytes > limits.eventBytes {
        return Err(LimitExceeded);
      }
      if !Utf8.Valid(line) {
        return Err(Invalid);
      }
      if line == [] {
        r := FinishEvent();
        return;
      }
      var colon := Find(line, COLON);
      DataOfField(line);
      if colon == 0 || colon == |line| || line[..colon] != DATA {
        return Ok(None);
      }
      r := CollectData(StripSpace(line[colon + 1..]));
    }

    method ProcessChunk(chunk: Bytes) returns (r: Result<Option<Bytes>, DecodeError>)
      modifies `pending, `eventData, `eventBytes, `deltas, `outputItem, `done, `log
      ensures Shows(r, Feed(parse, limits, Running(old(State())), chunk))
    {
      for i := 0 to |chunk|
        invariant Running(State()) == Feed(parse, limits, Running(old(State())), chunk[..i])
      {
        assert chunk[..i + 1][..i] == chunk[..i];
        var b := chunk[i];
        if b == LF {
          var line := pending;
          ghost var before := State();
          pending := [];
          LineIgnoresPending(parse, limits, before, line);
          r := ProcessLine(line);
          if r != Ok(None) {
            StopHere(parse, limits, Running(old(State())), chunk, i + 1);
            return;
          }
          continue;
        }
        if eventBytes + |pending| + 1 > limits.eventBytes {
          StopHere(parse, limits, Running(old(State())), chunk, i + 1);
          return Err(LimitExceeded);
        }
        pending := pending + [b];
      }
      assert chunk[..|chunk|] == chunk;
      return Ok(None);
    }

    /** Reads until the answer or the end. The result is that of the reads, and unless a limit was hit it is the result
        of the whole stream, after dispatching exactly the stream's events up to the first terminal one. */
    method Decode(chunks: seq<Bytes>, end: StreamEnd) returns (r: Result<Bytes, DecodeError>)
      requires State() == INITIAL && responseBytes == 0
      requires forall chunk <- chunks :: chunk != []
      modifies this
      ensures r == DecodeReads(parse, limits, chunks, end)
      ensures r != Err(LimitExceeded) ==> r == StreamResult(parse, Concat(chunks), EndError(end))
      ensures r != Err(LimitExceeded) ==> log == Dispatched(parse, Concat(chunks))
      ensures r.Ok? ==> 0 < |r.value| <= limits.textBytes
    {
      for i := 0 to |chunks|
        invariant responseBytes == |Concat(chunks[..i])| <= limits.responseBytes
        invariant Running(State()) == After(parse, limits, Concat(chunks[..i]))
      {
        ReadStep(parse, limits, chunks, i);
        responseBytes := responseBytes + |chunks[i]|;
        if responseBytes > limits.responseBytes {
          AcceptedIs(limits.responseBytes, chunks, i);
          return Err(LimitExceeded);
        }
        var text := ProcessChunk(chunks[i]);
        if text != Ok(None) {
          ghost var p := After(parse, limits, Concat(chunks[..i + 1]));
          r := if text.Ok? then Ok(text.value.value) else Err(text.error);
          assert p == Stopped(r, log);
          StoppedReads(parse, limits, chunks, end, i + 1, r, log);
          return;
        }
      }
      assert chunks[..|chunks|] == chunks;
      RunningReads(parse, limits, chunks, end, State());
      return Err(EndError(end));
    }
  }

  // How the program reads a field.
  lemma DataOfField(line: Bytes)
    ensures var colon := Find(line, COLON);
            DataOf(line) == if colon == 0 || colon == |line| || line[..colon] != DATA then None
                            else Some(StripSpace(line[colon + 1..]))
  {
  }

  // The line is handed over, so what is still in the buffer makes no difference.
  lemma LineIgnoresPending(parse: Parser, limits: Limits, m: Machine, raw: Bytes)
    ensures TakeLine(parse, limits, m.(pending := []), raw) == TakeLine(parse, limits, m, raw)
  {
  }

  lemma StopHere(parse: Parser, limits: Limits, p: Progress, chunk: Bytes, k: nat)
    requires k <= |chunk|
    ensures var q := Feed(parse, limits, p, chunk[..k]);
            q.Stopped? ==> Feed(parse, limits, p, chunk) == q
  {
    assert chunk == chunk[..k] + chunk[k..];
    FeedConcat(parse, limits, p, chunk[..k], chunk[k..]);
    var q := Feed(parse, limits, p, chunk[..k]);
    if q.Stopped? {
      StoppedStays(parse, limits, q, chunk[k..]);
    }
  }

  lemma ReadStep(parse: Parser, limits: Limits, chunks: seq<Bytes>, i: nat)
    requires i < |chunks|
    ensures Concat(chunks[..i + 1]) == Concat(chunks[..i]) + chunks[i]
    ensures After(parse, limits, Concat(chunks[..i + 1]))
            == Feed(parse, limits, After(parse, limits, Concat(chunks[..i])), chunks[i])
  {
    PrefixLonger(chunks, i, i + 1);
    assert chunks[i..i + 1] == [chunks[i]];
    ConcatOne(chunks[i]);
    FeedConcat(parse, limits, Running(INITIAL), Concat(chunks[..i]), chunks[i]);
  }
}
