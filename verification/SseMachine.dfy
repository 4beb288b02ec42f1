/**
 The stream decoder as a function of the bytes it has been fed, one byte at a time, with every limit it enforces.
 `SseDecoder` shows that the program computes it; `SseStream` shows what it means for the stream as a whole.
 */
module SseMachine {
  import opened Wrappers
  import opened Bytes
  import opened SseEvents
  import Utf8

  const COLON: byte := 58
  const SPACE: byte := 32
  const DATA: Bytes := [100, 97, 116, 97]

  // ---- one line ----

  function StripCr(line: Bytes): Bytes {
    if line != [] && line[|line| - 1] == CR then line[..|line| - 1] else line
  }

  function StripSpace(value: Bytes): Bytes {
    if value != [] && value[0] == SPACE then value[1..] else value
  }

  /** The value of a `data:` line, or None for a line of any other kind. */
  function DataOf(line: Bytes): (value: Option<Bytes>)
    ensures value.Some? ==> |value.value| + |DATA| + 1 <= |line|
  {
    var colon := Find(line, COLON);
    if colon < |line| && line[..colon] == DATA then Some(StripSpace(line[colon + 1..])) else None
  }

  // ---- the state between two bytes ----

  /** `log` is history: the data of every event dispatched so far. */
  datatype Machine = Machine(pending: Bytes, data: Bytes, eventBytes: nat, text: TextState, log: seq<Bytes>)

  const INITIAL := Machine([], [], 0, NO_TEXT, [])

  datatype Progress = Running(m: Machine) | Stopped(result: Result<Bytes, DecodeError>, log: seq<Bytes>)

  function Joined(data: Bytes, value: Bytes): Bytes {
    if data == [] then value else data + [LF] + value
  }

  function EndEvent(parse: Parser, limits: Limits, m: Machine): Progress {
    if m.data == [] then Running(Machine([], [], 0, m.text, m.log))
    else
      var log := m.log + [m.data];
      match React(parse(m.data), m.text, limits.textBytes)
      case Continue(text) => Running(Machine([], [], 0, text, log))
      case Answer(answer) => Stopped(Ok(answer), log)
      case Fail(error) => Stopped(Err(error), log)
  }

  /** A complete line, its LF gone. */
  function TakeLine(parse: Parser, limits: Limits, m: Machine, raw: Bytes): Progress {
    var line := StripCr(raw);
    var eventBytes := m.eventBytes + |line| + 1;
    if eventBytes > limits.eventBytes then Stopped(Err(LimitExceeded), m.log)
    else if !Utf8.Valid(line) then Stopped(Err(Invalid), m.log)
    else if line == [] then EndEvent(parse, limits, m)
    else match DataOf(line)
      case None => Running(m.(pending := [], eventBytes := eventBytes))
      case Some(value) =>
        if |m.data| + |value| + (if m.data == [] then 0 else 1) > limits.eventBytes
        then Stopped(Err(LimitExceeded), m.log)
        else Running(m.(pending := [], data := Joined(m.data, value), eventBytes := eventBytes))
  }

  function TakeByte(parse: Parser, limits: Limits, m: Machine, b: byte): Progress {
    if b == LF then TakeLine(parse, limits, m, m.pending)
    else if m.eventBytes + |m.pending| + 1 > limits.eventBytes then Stopped(Err(LimitExceeded), m.log)
    else Running(m.(pending := m.pending + [b]))
  }

  function Next(parse: Parser, limits: Limits, p: Progress, b: byte): Progress {
    if p.Running? then TakeByte(parse, limits, p.m, b) else p
  }

  function Feed(parse: Parser, limits: Limits, p: Progress, bytes: Bytes): Progress {
    if bytes == [] then p
    else Next(parse, limits, Feed(parse, limits, p, bytes[..|bytes| - 1]), bytes[|bytes| - 1])
  }

  /** The decoder after a stream of bytes. */
  function After(parse: Parser, limits: Limits, bytes: Bytes): Progress {
    Feed(parse, limits, Running(INITIAL), bytes)
  }

  lemma {:induction false} FeedConcat(parse: Parser, limits: Limits, p: Progress, a: Bytes, b: Bytes)
    ensures Feed(parse, limits, p, a + b) == Feed(parse, limits, Feed(parse, limits, p, a), b)
    decreases |b|
  {
    if b == [] {
      assert a + b == a;
    } else {
      assert (a + b)[..|a + b| - 1] == a + b[..|b| - 1];
      FeedConcat(parse, limits, p, a, b[..|b| - 1]);
    }
  }

  lemma {:induction false} StoppedStays(parse: Parser, limits: Limits, p: Progress, bytes: Bytes)
    requires p.Stopped?
    ensures Feed(parse, limits, p, bytes) == p
    decreases |bytes|
  {
    if bytes != [] {
      StoppedStays(parse, limits, p, bytes[..|bytes| - 1]);
    }
  }

  // ---- the buffers ----

  /** The bound on every buffer between two bytes. */
  predicate Bounded(limits: Limits, m: Machine) {
    && m.eventBytes + |m.pending| <= limits.eventBytes
    && |m.data| <= m.eventBytes
    && TextWithin(m.text, limits.textBytes)
    && LF !in m.pending
  }

  /** Once a line has passed the check on the event's size, its data always fits: the later check on the length of the
      collected data never rejects anything. */
  lemma DataAlwaysFits(limits: Limits, m: Machine, raw: Bytes)
    requires Bounded(limits, m)
    requires m.eventBytes + |StripCr(raw)| + 1 <= limits.eventBytes
    ensures var value := DataOf(StripCr(raw));
            value.Some? ==> |Joined(m.data, value.value)| <= m.eventBytes + |StripCr(raw)| + 1
                            && |m.data| + |value.value| + (if m.data == [] then 0 else 1) <= limits.eventBytes
  {
  }

  ghost predicate Sane(limits: Limits, p: Progress) {
    match p
    case Running(m) => Bounded(limits, m)
    case Stopped(result, _) => result.Ok? ==> 0 < |result.value| <= limits.textBytes
  }

  lemma TakeByteStaysSane(parse: Parser, limits: Limits, m: Machine, b: byte)
    requires Bounded(limits, m)
    ensures Sane(limits, TakeByte(parse, limits, m, b))
  {
    if b == LF && m.eventBytes + |StripCr(m.pending)| + 1 <= limits.eventBytes {
      DataAlwaysFits(limits, m, m.pending);
    }
  }

  /** In every reachable state the buffers are within their limits, and an answer is never empty nor too long. */
  lemma {:induction false} BuffersStayBounded(parse: Parser, limits: Limits, bytes: Bytes)
    ensures Sane(limits, After(parse, limits, bytes))
    decreases |bytes|
  {
    if bytes != [] {
      var front := bytes[..|bytes| - 1];
      BuffersStayBounded(parse, limits, front);
      var p := After(parse, limits, front);
      if p.Running? {
        TakeByteStaysSane(parse, limits, p.m, bytes[|bytes| - 1]);
      }
    }
  }

  // ---- limits only ever turn a result into LimitExceeded ----

  predicate AtMost(a: Limits, b: Limits) {
    a.eventBytes <= b.eventBytes && a.responseBytes <= b.responseBytes && a.textBytes <= b.textBytes
  }

  predicate HitLimit(p: Progress) {
    p.Stopped? && p.result == Err(LimitExceeded)
  }

  lemma TakeByteMonotone(parse: Parser, low: Limits, high: Limits, m: Machine, b: byte)
    requires AtMost(low, high) && !HitLimit(TakeByte(parse, low, m, b))
    ensures TakeByte(parse, high, m, b) == TakeByte(parse, low, m, b)
  {
  }

  lemma {:induction false} FeedMonotone(parse: Parser, low: Limits, high: Limits, bytes: Bytes)
    requires AtMost(low, high) && !HitLimit(After(parse, low, bytes))
    ensures After(parse, high, bytes) == After(parse, low, bytes)
    decreases |bytes|
  {
    if bytes != [] {
      var front := bytes[..|bytes| - 1];
      FeedMonotone(parse, low, high, front);
      var p := After(parse, low, front);
      if p.Running? {
        TakeByteMonotone(parse, low, high, p.m, bytes[|bytes| - 1]);
      }
    }
  }
}
