/**
 Decoding what a reader delivers: a sequence of non-empty reads and then the end of the stream or a failed read. How the
 bytes are split into reads matters only once they exceed the limit on the whole response.
 */
module SseReads {
  import opened Wrappers
  import opened Bytes
  import opened Sequences
  import opened SseEvents
  import opened SseMachine
  import opened SseStream

  datatype StreamEnd = Eof | ReadFailed(timedOut: bool)

  function EndError(end: StreamEnd): DecodeError {
    if end.ReadFailed? && end.timedOut then TimedOut else Invalid
  }

  /** How many leading reads fit in the response limit. */
  function Accepted(limit: nat, chunks: seq<Bytes>): (n: nat)
    ensures n <= |chunks|
  {
    if chunks == [] || |chunks[0]| > limit then 0 else 1 + Accepted(limit - |chunks[0]|, chunks[1..])
  }

  function DecodeReads(parse: Parser, limits: Limits, chunks: seq<Bytes>, end: StreamEnd): Result<Bytes, DecodeError> {
    var n := Accepted(limits.responseBytes, chunks);
    match After(parse, limits, Concat(chunks[..n]))
    case Stopped(result, _) => result
    case Running(_) => Err(if n < |chunks| then LimitExceeded else EndError(end))
  }

  lemma {:induction false} AcceptedFits(limit: nat, chunks: seq<Bytes>)
    ensures var n := Accepted(limit, chunks);
            && |Concat(chunks[..n])| <= limit
            && (n < |chunks| ==> |Concat(chunks[..n + 1])| > limit)
    decreases |chunks|
  {
    var n := Accepted(limit, chunks);
    if n == 0 {
      if chunks != [] {
        assert chunks[..1] == [chunks[0]];
        ConcatOne(chunks[0]);
      }
    } else {
      AcceptedFits(limit - |chunks[0]|, chunks[1..]);
      assert chunks[..n][1..] == chunks[1..][..n - 1];
      if n < |chunks| {
        assert chunks[..n + 1][1..] == chunks[1..][..n];
      }
    }
  }

  lemma PrefixLonger(chunks: seq<Bytes>, i: nat, j: nat)
    requires i <= j <= |chunks|
    ensures Concat(chunks[..j]) == Concat(chunks[..i]) + Concat(chunks[i..j])
  {
    assert chunks[..j] == chunks[..i] + chunks[i..j];
    ConcatAppend(chunks[..i], chunks[i..j]);
  }

  // The number of accepted reads is the only one that fits but whose successor does not.
  lemma AcceptedIs(limit: nat, chunks: seq<Bytes>, n: nat)
    requires n <= |chunks| && |Concat(chunks[..n])| <= limit
    requires n < |chunks| ==> |Concat(chunks[..n + 1])| > limit
    ensures Accepted(limit, chunks) == n
  {
    var k := Accepted(limit, chunks);
    AcceptedFits(limit, chunks);
    if k < n {
      PrefixLonger(chunks, k + 1, n);
    } else if n < k {
      PrefixLonger(chunks, n + 1, k);
    }
  }

  lemma AcceptedAll(limit: nat, chunks: seq<Bytes>)
    requires |Concat(chunks)| <= limit
    ensures Accepted(limit, chunks) == |chunks| && chunks[..Accepted(limit, chunks)] == chunks
  {
    assert chunks[..|chunks|] == chunks;
    AcceptedIs(limit, chunks, |chunks|);
  }

  /** Within the response limit the result depends on the bytes alone. */
  lemma SplittingDoesNotMatter(
    parse: Parser, limits: Limits, chunks: seq<Bytes>, others: seq<Bytes>, end: StreamEnd)
    requires Concat(chunks) == Concat(others) && |Concat(chunks)| <= limits.responseBytes
    ensures DecodeReads(parse, limits, chunks, end) == DecodeReads(parse, limits, others, end)
  {
    AcceptedAll(limits.responseBytes, chunks);
    AcceptedAll(limits.responseBytes, others);
  }

  /** Past the limit it can matter: of two ways of reading the same bytes, the one takes in fewer whole reads before the
      limit than the other. They agree exactly when the bytes between settle nothing other than a limit. */
  lemma OversizeSplitsAgreeIff(
    parse: Parser, limits: Limits, chunks: seq<Bytes>, others: seq<Bytes>, end: StreamEnd)
    requires Concat(chunks) == Concat(others) && |Concat(chunks)| > limits.responseBytes
    requires |TakenIn(limits, chunks)| <= |TakenIn(limits, others)|
    ensures var less := After(parse, limits, TakenIn(limits, chunks));
            var more := After(parse, limits, TakenIn(limits, others));
            DecodeReads(parse, limits, chunks, end) == DecodeReads(parse, limits, others, end)
            <==> less.Stopped? || more.Running? || HitLimit(more)
  {
    OversizeReads(parse, limits, chunks, end);
    OversizeReads(parse, limits, others, end);
    var less, more := TakenIn(limits, chunks), TakenIn(limits, others);
    TakenInIsPrefix(limits, chunks);
    TakenInIsPrefix(limits, others);
    assert more == less + more[|less|..];
    FeedConcat(parse, limits, Running(INITIAL), less, more[|less|..]);
    if After(parse, limits, less).Stopped? {
      StoppedStays(parse, limits, After(parse, limits, less), more[|less|..]);
    }
  }

  /** The bytes of the reads that fit in the response limit. */
  function TakenIn(limits: Limits, chunks: seq<Bytes>): Bytes {
    Concat(chunks[..Accepted(limits.responseBytes, chunks)])
  }

  lemma TakenInIsPrefix(limits: Limits, chunks: seq<Bytes>)
    ensures TakenIn(limits, chunks) <= Concat(chunks)
  {
    assert chunks[..|chunks|] == chunks;
    PrefixLonger(chunks, Accepted(limits.responseBytes, chunks), |chunks|);
  }

  lemma StoppedIffSettled(parse: Parser, limits: Limits, stream: Bytes)
    requires !HitLimit(After(parse, limits, stream))
    ensures After(parse, limits, stream).Stopped? <==> Settled(parse, Frame(Lines(stream)))
  {
    DecoderRefinesStream(parse, limits, stream);
  }

  /** And they can differ: bytes that settle a result exactly at the limit do so when read apart from what follows, and
      are not even looked at when read together with it. */
  lemma OversizeSplitsCanDiffer(parse: Parser, limits: Limits, stream: Bytes, more: Bytes, end: StreamEnd)
    requires |stream| == limits.responseBytes && more != []
    requires After(parse, limits, stream).Stopped? && !HitLimit(After(parse, limits, stream))
    ensures Concat([stream, more]) == Concat([stream + more])
    ensures DecodeReads(parse, limits, [stream, more], end) == After(parse, limits, stream).result
    ensures DecodeReads(parse, limits, [stream + more], end) == Err(LimitExceeded)
    ensures After(parse, limits, stream).result != Err(LimitExceeded)
  {
    var apart, together := [stream, more], [stream + more];
    ConcatOne(stream);
    ConcatOne(more);
    ConcatOne(stream + more);
    ConcatAppend([stream], [more]);
    assert [stream] + [more] == apart && apart[..1] == [stream] && apart[..2] == apart;
    AcceptedIs(limits.responseBytes, apart, 1);
    assert together[..0] == [] && together[..1] == together;
    AcceptedIs(limits.responseBytes, together, 0);
  }

  function OversizeResult(p: Progress): Result<Bytes, DecodeError> {
    if p.Stopped? then p.result else Err(LimitExceeded)
  }

  lemma OversizeReads(parse: Parser, limits: Limits, chunks: seq<Bytes>, end: StreamEnd)
    requires |Concat(chunks)| > limits.responseBytes
    ensures var n := Accepted(limits.responseBytes, chunks);
            && |Concat(chunks[..n])| <= limits.responseBytes
            && DecodeReads(parse, limits, chunks, end) == OversizeResult(After(parse, limits, Concat(chunks[..n])))
  {
    AcceptedFits(limits.responseBytes, chunks);
    assert chunks[..|chunks|] == chunks;
  }

  lemma RunningReads(parse: Parser, limits: Limits, chunks: seq<Bytes>, end: StreamEnd, m: Machine)
    requires |Concat(chunks)| <= limits.responseBytes && After(parse, limits, Concat(chunks)) == Running(m)
    ensures DecodeReads(parse, limits, chunks, end) == Err(EndError(end))
    ensures Err(EndError(end)) == StreamResult(parse, Concat(chunks), EndError(end))
    ensures m.log == Dispatched(parse, Concat(chunks))
  {
    AcceptedAll(limits.responseBytes, chunks);
    DecoderRefinesStream(parse, limits, Concat(chunks));
  }

  lemma StoppedReads(
    parse: Parser, limits: Limits, chunks: seq<Bytes>, end: StreamEnd, k: nat, result: Result<Bytes, DecodeError>,
    log: seq<Bytes>)
    requires k <= |chunks| && |Concat(chunks[..k])| <= limits.responseBytes
    requires After(parse, limits, Concat(chunks[..k])) == Stopped(result, log)
    ensures DecodeReads(parse, limits, chunks, end) == result
    ensures result != Err(LimitExceeded) ==>
              result == StreamResult(parse, Concat(chunks), EndError(end)) && log == Dispatched(parse, Concat(chunks))
    ensures result.Ok? ==> 0 < |result.value| <= limits.textBytes
  {
    var n := Accepted(limits.responseBytes, chunks);
    AcceptedFits(limits.responseBytes, chunks);
    if n < k {
      PrefixLonger(chunks, n + 1, k);
    }
    var seen := Concat(chunks[..k]);
    PrefixLonger(chunks, k, n);
    FeedConcat(parse, limits, Running(INITIAL), seen, Concat(chunks[k..n]));
    StoppedStays(parse, limits, After(parse, limits, seen), Concat(chunks[k..n]));
    BuffersStayBounded(parse, limits, seen);
    if result != Err(LimitExceeded) {
      DecoderRefinesStream(parse, limits, seen);
      PrefixLonger(chunks, k, |chunks|);
      assert chunks[..|chunks|] == chunks;
      DecidedForGood(parse, seen, Concat(chunks[k..]), result, log);
    }
  }

  /** Unless it reports a limit, the decoder returns the result of the stream as a whole. */
  lemma DecodingReadsTheStream(parse: Parser, limits: Limits, chunks: seq<Bytes>, end: StreamEnd)
    ensures var result := DecodeReads(parse, limits, chunks, end);
            result == Err(LimitExceeded) || result == StreamResult(parse, Concat(chunks), EndError(end))
  {
    var n := Accepted(limits.responseBytes, chunks);
    AcceptedFits(limits.responseBytes, chunks);
    match After(parse, limits, Concat(chunks[..n]))
    case Stopped(result, log) => StoppedReads(parse, limits, chunks, end, n, result, log);
    case Running(m) =>
      if n == |chunks| {
        assert chunks[..n] == chunks;
        RunningReads(parse, limits, chunks, end, m);
      }
  }

  /** Raising any limit changes no result except LimitExceeded. */
  lemma RaisingLimitsIsSafe(
    parse: Parser, low: Limits, high: Limits, chunks: seq<Bytes>, end: StreamEnd)
    requires AtMost(low, high) && DecodeReads(parse, low, chunks, end) != Err(LimitExceeded)
    ensures DecodeReads(parse, high, chunks, end) == DecodeReads(parse, low, chunks, end)
  {
    var n, k := Accepted(low.responseBytes, chunks), Accepted(high.responseBytes, chunks);
    AcceptedFits(low.responseBytes, chunks);
    AcceptedFits(high.responseBytes, chunks);
    if k < n {
      PrefixLonger(chunks, k + 1, n);
    }
    PrefixLonger(chunks, n, k);
    var seen := Concat(chunks[..n]);
    FeedMonotone(parse, low, high, seen);
    FeedConcat(parse, high, Running(INITIAL), seen, Concat(chunks[n..k]));
    if After(parse, high, seen).Stopped? {
      StoppedStays(parse, high, After(parse, high, seen), Concat(chunks[n..k]));
    }
  }
}
