/**
 When the decoder reports that a limit is exceeded, in terms of the stream: a block of lines is too long, or the texts
 of the events before the first terminal one are.
 */
module SseLimits {
  import opened Wrappers
  import opened Bytes
  import opened Sequences
  import opened SseEvents
  import opened SseMachine
  import opened SseStream
  import opened SseReads
  import SseFraming
  import Utf8

  // ---- the limits on the stream ----

  // A line counts without its CR and with its LF.
  function BlockBytes(block: seq<Bytes>): nat {
    if block == [] then 0 else BlockBytes(block[..|block| - 1]) + |StripCr(block[|block| - 1])| + 1
  }

  /** The bytes of the block and line that the next byte continues or ends, with that byte. */
  function BytesWith(s: Bytes, b: byte): nat {
    BlockBytes(OpenBlock(Lines(s))) + (if b == LF then |StripCr(Rest(s))| else |Rest(s)|) + 1
  }

  /** Before the result is settled, some byte makes its block longer than an event may be. */
  ghost predicate BlockTooLong(parse: Parser, limits: Limits, stream: Bytes) {
    exists k :: 0 <= k < |stream| && !Settled(parse, Frame(Lines(stream[..k])))
                && BytesWith(stream[..k], stream[k]) > limits.eventBytes
  }

  /** The events that add to the answer. */
  function Before(parse: Parser, events: seq<Bytes>): seq<Bytes> {
    events[..FirstTerminal(parse, events)]
  }

  function OwnText(event: Event): Bytes {
    match event
    case ItemDone(Some(item)) => ItemText(item)
    case TextDone(Some(done)) => done
    case _ => []
  }

  /** All deltas together, and each message and each completed text, are within the limit on texts. */
  predicate TextsFit(parse: Parser, maximum: nat, events: seq<Bytes>) {
    && |AllDeltas(parse, events)| <= maximum
    && forall i | 0 <= i < |events| :: |OwnText(parse(events[i]))| <= maximum
  }

  ghost predicate Overflows(parse: Parser, limits: Limits, stream: Bytes) {
    || BlockTooLong(parse, limits, stream)
    || !TextsFit(parse, limits.textBytes, Before(parse, Frame(Lines(stream)).events))
  }

  // ---- one more byte ----

  // The event that a byte dispatches, if it does.
  function Ends(s: Bytes, b: byte): seq<Bytes> {
    if b == LF && IsBlank(Rest(s)) then AsEvent(BlockData(OpenBlock(Lines(s)))) else []
  }

  ghost predicate SomeTooLong(parse: Parser, maximum: nat, events: seq<Bytes>, ends: seq<Bytes>) {
    exists event <- ends :: React(parse(event), Collected(parse, events), maximum) == Fail(LimitExceeded)
  }

  ghost predicate TextTooLong(parse: Parser, limits: Limits, s: Bytes, b: byte) {
    SomeTooLong(parse, limits.textBytes, Frame(Lines(s)).events, Ends(s, b))
  }

  lemma FrameNext(s: Bytes, b: byte)
    requires !Frame(Lines(s)).broken
    ensures Frame(Lines(s + [b])).events == Frame(Lines(s)).events + Ends(s, b)
  {
    assert (s + [b])[..|s|] == s;
    if b == LF {
      NextLine(s, s + [b]);
      FrameSnoc(Lines(s), Rest(s));
    }
  }

  lemma BlockBytesSnoc(block: seq<Bytes>, line: Bytes)
    ensures BlockBytes(block + [line]) == BlockBytes(block) + |StripCr(line)| + 1
  {
    assert (block + [line])[..|block|] == block;
  }

  lemma OpenNext(s: Bytes, b: byte)
    ensures OpenBlock(Lines(s + [b]))
            == if b != LF then OpenBlock(Lines(s))
               else if IsBlank(Rest(s)) then [] else OpenBlock(Lines(s)) + [Rest(s)]
  {
    assert (s + [b])[..|s|] == s;
    if b == LF {
      NextLine(s, s + [b]);
      OpenBlockSnoc(Lines(s), Rest(s));
    }
  }

  // What a running decoder knows of the bytes it was fed.
  ghost predicate Counts(parse: Parser, s: Bytes, m: Machine) {
    Follows(parse, s, m) && m.eventBytes == BlockBytes(OpenBlock(Lines(s)))
  }

  lemma EndHitsIff(parse: Parser, limits: Limits, m: Machine)
    requires m.text == Collected(parse, m.log)
    ensures HitLimit(EndEvent(parse, limits, m)) <==> SomeTooLong(parse, limits.textBytes, m.log, AsEvent(m.data))
    ensures EndEvent(parse, limits, m).Running? ==> EndEvent(parse, limits, m).m.eventBytes == 0
  {
    if m.data != [] {
      assert m.data in AsEvent(m.data);
    }
  }

  lemma BlankHitsIff(parse: Parser, limits: Limits, s: Bytes, m: Machine)
    requires Counts(parse, s, m) && IsBlank(m.pending)
    ensures HitLimit(EndEvent(parse, limits, m)) <==> TextTooLong(parse, limits, s, LF)
    ensures EndEvent(parse, limits, m).Running? ==> EndEvent(parse, limits, m).m.eventBytes == 0
  {
    EndHitsIff(parse, limits, m);
    assert Ends(s, LF) == AsEvent(m.data);
  }

  lemma LineHitsIff(parse: Parser, limits: Limits, s: Bytes, m: Machine)
    requires Counts(parse, s, m) && Bounded(limits, m)
    ensures HitLimit(TakeLine(parse, limits, m, m.pending))
            <==> BytesWith(s, LF) > limits.eventBytes || TextTooLong(parse, limits, s, LF)
    ensures var p := TakeLine(parse, limits, m, m.pending);
            p.Running? ==> p.m.eventBytes == if IsBlank(m.pending) then 0 else BytesWith(s, LF)
  {
    var line := StripCr(m.pending);
    if BytesWith(s, LF) <= limits.eventBytes {
      DataAlwaysFits(limits, m, m.pending);
      if line == [] {
        BlankHitsIff(parse, limits, s, m);
      } else {
        assert Ends(s, LF) == [];
      }
    }
  }

  lemma OtherHitsIff(parse: Parser, limits: Limits, s: Bytes, b: byte, m: Machine)
    requires Counts(parse, s, m) && b != LF
    ensures HitLimit(TakeByte(parse, limits, m, b))
            <==> BytesWith(s, b) > limits.eventBytes || TextTooLong(parse, limits, s, b)
    ensures var p := TakeByte(parse, limits, m, b); p.Running? ==> p.m.eventBytes == m.eventBytes
  {
    assert Ends(s, b) == [];
  }

  lemma ByteHitsIff(parse: Parser, limits: Limits, s: Bytes, b: byte, m: Machine)
    requires Counts(parse, s, m) && Bounded(limits, m)
    ensures HitLimit(TakeByte(parse, limits, m, b))
            <==> BytesWith(s, b) > limits.eventBytes || TextTooLong(parse, limits, s, b)
    ensures var p := TakeByte(parse, limits, m, b);
            p.Running? ==> p.m.eventBytes == BlockBytes(OpenBlock(Lines(s + [b])))
  {
    OpenNext(s, b);
    if b == LF {
      LineHitsIff(parse, limits, s, m);
      BlockBytesSnoc(OpenBlock(Lines(s)), Rest(s));
      assert TakeByte(parse, limits, m, b) == TakeLine(parse, limits, m, m.pending);
    } else {
      OtherHitsIff(parse, limits, s, b, m);
    }
  }

  // ---- the whole stream ----

  /** The texts fit with one more event exactly if they fitted and the decoder takes it. */
  lemma TextsFitSnoc(parse: Parser, maximum: nat, events: seq<Bytes>, event: Bytes)
    requires !Terminal(parse(event))
    ensures TextsFit(parse, maximum, events + [event])
            <==> TextsFit(parse, maximum, events)
                 && React(parse(event), Collected(parse, events), maximum) != Fail(LimitExceeded)
  {
    var more := events + [event];
    assert more[..|events|] == events && more[|events|] == event;
    assert forall i | 0 <= i < |events| :: more[i] == events[i];
  }

  lemma TerminalFits(parse: Parser, event: Bytes, text: TextState, maximum: nat)
    requires Terminal(parse(event))
    ensures React(parse(event), text, maximum) != Fail(LimitExceeded)
  {
  }

  lemma BeforeGrows(parse: Parser, maximum: nat, events: seq<Bytes>, event: Bytes)
    requires FirstTerminal(parse, events) == |events|
    ensures TextsFit(parse, maximum, Before(parse, events + [event]))
            <==> TextsFit(parse, maximum, events)
                 && React(parse(event), Collected(parse, events), maximum) != Fail(LimitExceeded)
  {
    var more := events + [event];
    FirstTerminalSnoc(parse, events, event);
    if Terminal(parse(event)) {
      TerminalFits(parse, event, Collected(parse, events), maximum);
      assert more[..|events|] == events;
    } else {
      TextsFitSnoc(parse, maximum, events, event);
      assert more[..|more|] == more;
    }
  }

  lemma OneTooLong(parse: Parser, maximum: nat, events: seq<Bytes>, event: Bytes)
    ensures SomeTooLong(parse, maximum, events, [event])
            <==> React(parse(event), Collected(parse, events), maximum) == Fail(LimitExceeded)
  {
    assert event in [event];
  }

  lemma BeforeGrowsBy(parse: Parser, maximum: nat, events: seq<Bytes>, ends: seq<Bytes>)
    requires FirstTerminal(parse, events) == |events| && |ends| <= 1
    ensures TextsFit(parse, maximum, Before(parse, events + ends))
            <==> TextsFit(parse, maximum, Before(parse, events)) && !SomeTooLong(parse, maximum, events, ends)
  {
    if ends == [] {
      assert events + ends == events;
    } else {
      assert ends == [ends[0]] && Before(parse, events) == events;
      BeforeGrows(parse, maximum, events, ends[0]);
      OneTooLong(parse, maximum, events, ends[0]);
    }
  }

  lemma BeforeNext(parse: Parser, limits: Limits, s: Bytes, b: byte)
    requires !Settled(parse, Frame(Lines(s)))
    ensures TextsFit(parse, limits.textBytes, Before(parse, Frame(Lines(s + [b])).events))
            <==> TextsFit(parse, limits.textBytes, Before(parse, Frame(Lines(s)).events))
                 && !TextTooLong(parse, limits, s, b)
  {
    FrameNext(s, b);
    BeforeGrowsBy(parse, limits.textBytes, Frame(Lines(s)).events, Ends(s, b));
  }

  lemma TerminalStaysFirst(parse: Parser, events: seq<Bytes>, more: seq<Bytes>)
    requires FirstTerminal(parse, events) < |events| && events <= more
    ensures Before(parse, more) == Before(parse, events)
  {
    var k := FirstTerminal(parse, events);
    assert forall i | 0 <= i <= k :: more[i] == events[i];
    FirstTerminalIs(parse, more, k);
    assert more[..k] == events[..k];
  }

  // Once the result is settled the events before the first terminal one stay the same.
  lemma BeforeStays(parse: Parser, s: Bytes, b: byte)
    requires Settled(parse, Frame(Lines(s)))
    ensures Settled(parse, Frame(Lines(s + [b])))
    ensures Before(parse, Frame(Lines(s + [b])).events) == Before(parse, Frame(Lines(s)).events)
  {
    FrameGrows(s, b);
    SettledStays(parse, Frame(Lines(s)), Frame(Lines(s + [b])), Invalid);
    if !Frame(Lines(s)).broken {
      TerminalStaysFirst(parse, Frame(Lines(s)).events, Frame(Lines(s + [b])).events);
    }
  }

  lemma BlockTooLongNext(parse: Parser, limits: Limits, s: Bytes, b: byte)
    ensures BlockTooLong(parse, limits, s + [b])
            <==> BlockTooLong(parse, limits, s)
                 || (!Settled(parse, Frame(Lines(s))) && BytesWith(s, b) > limits.eventBytes)
  {
    var t := s + [b];
    assert t[|s|] == b && t[..|s|] == s;
    forall k | 0 <= k < |s| ensures t[..k] == s[..k] && t[k] == s[k] {
    }
  }

  // Where the decoder stands after a stream.
  ghost predicate Stands(parse: Parser, limits: Limits, s: Bytes, p: Progress) {
    && (HitLimit(p) <==> Overflows(parse, limits, s))
    && (match p
        case Running(m) => Counts(parse, s, m) && Bounded(limits, m)
        case Stopped(result, _) => result == Err(LimitExceeded) || Settled(parse, Frame(Lines(s))))
  }

  lemma StandsNext(parse: Parser, limits: Limits, s: Bytes, b: byte, p: Progress)
    requires Stands(parse, limits, s, p)
    requires Refines(parse, s + [b], Next(parse, limits, p, b)) && Sane(limits, Next(parse, limits, p, b))
    ensures Stands(parse, limits, s + [b], Next(parse, limits, p, b))
  {
    BlockTooLongNext(parse, limits, s, b);
    if Settled(parse, Frame(Lines(s))) {
      BeforeStays(parse, s, b);
    } else {
      BeforeNext(parse, limits, s, b);
    }
    if p.Running? {
      ByteHitsIff(parse, limits, s, b, p.m);
    }
  }

  lemma {:induction false} StandsAfter(parse: Parser, limits: Limits, stream: Bytes)
    ensures Stands(parse, limits, stream, After(parse, limits, stream))
    decreases |stream|
  {
    DecoderRefinesStream(parse, limits, stream);
    BuffersStayBounded(parse, limits, stream);
    if stream == [] {
      assert Frame([]) == Framing([], false) && OpenBlock([]) == [];
    } else {
      var front, b := stream[..|stream| - 1], stream[|stream| - 1];
      assert stream == front + [b];
      StandsAfter(parse, limits, front);
      StandsNext(parse, limits, front, b, After(parse, limits, front));
    }
  }

  /** The decoder runs into a limit exactly when, before the result is settled, a block of lines is longer than an event
      may be, or the texts of the events before the first terminal one are longer than a text may be. */
  lemma LimitIsHitIff(parse: Parser, limits: Limits, stream: Bytes)
    ensures HitLimit(After(parse, limits, stream)) <==> Overflows(parse, limits, stream)
    ensures After(parse, limits, stream).Running?
            <==> !Overflows(parse, limits, stream) && !Settled(parse, Frame(Lines(stream)))
  {
    StandsAfter(parse, limits, stream);
  }

  /** So a whole reading reports a limit exactly when the bytes it took in do, or when more came than it may take in and
      these settled nothing. */
  lemma LimitIsReportedIff(parse: Parser, limits: Limits, chunks: seq<Bytes>, end: StreamEnd)
    ensures var seen := Concat(chunks[..Accepted(limits.responseBytes, chunks)]);
            DecodeReads(parse, limits, chunks, end) == Err(LimitExceeded)
            <==> Overflows(parse, limits, seen)
                 || (|Concat(chunks)| > limits.responseBytes && !Settled(parse, Frame(Lines(seen))))
  {
    var n := Accepted(limits.responseBytes, chunks);
    LimitIsHitIff(parse, limits, Concat(chunks[..n]));
    AcceptsAllIff(limits.responseBytes, chunks);
  }

  lemma AcceptsAllIff(limit: nat, chunks: seq<Bytes>)
    ensures Accepted(limit, chunks) == |chunks| <==> |Concat(chunks)| <= limit
  {
    var n := Accepted(limit, chunks);
    AcceptedFits(limit, chunks);
    assert chunks[..|chunks|] == chunks;
    if n < |chunks| {
      PrefixLonger(chunks, n + 1, |chunks|);
    }
  }

  /** Past that limit two ways of reading the same bytes agree exactly when what the one takes in runs into another
      limit or settles the result, or what the other takes in runs into one or settles nothing. */
  lemma SplitsAgreeIff(parse: Parser, limits: Limits, chunks: seq<Bytes>, others: seq<Bytes>, end: StreamEnd)
    requires Concat(chunks) == Concat(others) && |Concat(chunks)| > limits.responseBytes
    requires |TakenIn(limits, chunks)| <= |TakenIn(limits, others)|
    ensures var less, more := TakenIn(limits, chunks), TakenIn(limits, others);
            DecodeReads(parse, limits, chunks, end) == DecodeReads(parse, limits, others, end)
            <==> Overflows(parse, limits, less) || Settled(parse, Frame(Lines(less)))
                 || Overflows(parse, limits, more) || !Settled(parse, Frame(Lines(more)))
  {
    OversizeSplitsAgreeIff(parse, limits, chunks, others, end);
    LimitIsHitIff(parse, limits, TakenIn(limits, chunks));
    LimitIsHitIff(parse, limits, TakenIn(limits, others));
  }

  /** A stream within the three limits is answered as the stream as a whole is. */
  lemma FittingStreamsAreRead(parse: Parser, limits: Limits, chunks: seq<Bytes>, end: StreamEnd)
    requires |Concat(chunks)| <= limits.responseBytes && !Overflows(parse, limits, Concat(chunks))
    ensures DecodeReads(parse, limits, chunks, end) == StreamResult(parse, Concat(chunks), EndError(end))
  {
    AcceptedAll(limits.responseBytes, chunks);
    LimitIsReportedIff(parse, limits, chunks, end);
    DecodingReadsTheStream(parse, limits, chunks, end);
  }

  // ---- streams that are short ----

  lemma {:induction false} OpenWithin(s: Bytes)
    ensures BlockBytes(OpenBlock(Lines(s))) + |Rest(s)| <= |s|
    decreases |s|
  {
    if s == [] {
      assert OpenBlock([]) == [];
    } else {
      var front, b := s[..|s| - 1], s[|s| - 1];
      assert s == front + [b];
      OpenWithin(front);
      OpenNext(front, b);
      BlockBytesSnoc(OpenBlock(Lines(front)), Rest(front));
    }
  }

  /** No block is too long in a stream that is no longer than one event may be. */
  lemma ShortStreamsFit(parse: Parser, limits: Limits, stream: Bytes)
    requires |stream| <= limits.eventBytes
    ensures !BlockTooLong(parse, limits, stream)
  {
    forall k | 0 <= k < |stream| ensures BytesWith(stream[..k], stream[k]) <= limits.eventBytes {
      OpenWithin(stream[..k]);
    }
  }

  // ---- two readings of the same bytes that differ ----

  lemma FramedField(value: Bytes)
    requires value != [] && value[0] != SPACE && LF !in value && CR !in value && Utf8.Valid(value)
    ensures Frame(Lines(DATA + [COLON] + value + [LF, LF])) == Framing([value], false)
  {
    var field := DATA + [COLON] + value;
    SseFraming.DataField(value);
    SseFraming.FramedText(field, value);
  }

  /** The first of them settles on the provider's failure, the second reports that the response is too long. */
  lemma OneByteTooMany(value: Bytes, more: Bytes)
    requires value != [] && value[0] != SPACE && LF !in value && CR !in value && Utf8.Valid(value) && more != []
    ensures var stream := DATA + [COLON] + value + [LF, LF];
            var parse: Parser := data => Event.Failed;
            var limits := Limits(|stream|, |stream|, 0);
            && Concat([stream, more]) == Concat([stream + more])
            && DecodeReads(parse, limits, [stream, more], Eof) == Err(ModelFailed)
            && DecodeReads(parse, limits, [stream + more], Eof) == Err(LimitExceeded)
  {
    var stream := DATA + [COLON] + value + [LF, LF];
    var parse: Parser := data => Event.Failed;
    var limits := Limits(|stream|, |stream|, 0);
    FramedField(value);
    ShortStreamsFit(parse, limits, stream);
    LimitIsHitIff(parse, limits, stream);
    assert Before(parse, [value]) == [];
    DecoderRefinesStream(parse, limits, stream);
    StoppedIffSettled(parse, limits, stream);
    FailureIsTheResult(parse, stream, value);
    OversizeSplitsCanDiffer(parse, limits, stream, more, Eof);
  }

  lemma FailureIsTheResult(parse: Parser, stream: Bytes, event: Bytes)
    requires Frame(Lines(stream)) == Framing([event], false) && parse(event) == Event.Failed
    ensures StreamResult(parse, stream, Invalid) == Err(ModelFailed) && Settled(parse, Frame(Lines(stream)))
  {
    assert [event][..0] == [];
  }
}
