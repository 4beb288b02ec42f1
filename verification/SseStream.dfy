/**
 The stream as a whole, without chunks, buffers or limits: lines, blocks of lines ended by a blank one, the data of
 each block, and the answer the events up to the first terminal one add up to. The decoder refines this reading: unless
 it reports a limit, it returns exactly this result after dispatching exactly these events.
 */
module SseStream {
  import opened Wrappers
  import opened Bytes
  import opened Sequences
  import opened SseEvents
  import opened SseMachine
  import Utf8

  // ---- framing ----

  predicate IsBlank(raw: Bytes) {
    StripCr(raw) == []
  }

  function FirstBlank(lines: seq<Bytes>): (k: nat)
    ensures k <= |lines|
    ensures k < |lines| ==> IsBlank(lines[k])
    ensures forall i | 0 <= i < k :: !IsBlank(lines[i])
  {
    if lines == [] || IsBlank(lines[0]) then 0 else 1 + FirstBlank(lines[1..])
  }

  // The values of the `data:` lines, in order.
  function Values(block: seq<Bytes>): seq<Bytes> {
    if block == [] then []
    else
      var last := DataOf(StripCr(block[|block| - 1]));
      Values(block[..|block| - 1]) + (if last.Some? then [last.value] else [])
  }

  function DropLeadingEmpty(values: seq<Bytes>): seq<Bytes> {
    if values != [] && values[0] == [] then DropLeadingEmpty(values[1..]) else values
  }

  function Join(values: seq<Bytes>): Bytes {
    if values == [] then []
    else if |values| == 1 then values[0]
    else Join(values[..|values| - 1]) + [LF] + values[|values| - 1]
  }

  function BlockData(block: seq<Bytes>): Bytes {
    Join(DropLeadingEmpty(Values(block)))
  }

  predicate HasBadText(block: seq<Bytes>) {
    exists i :: 0 <= i < |block| && !Utf8.Valid(StripCr(block[i]))
  }

  /** The data of the events, and whether a line that is not UTF-8 ends the stream after them. */
  datatype Framing = Framing(events: seq<Bytes>, broken: bool)

  function Frame(lines: seq<Bytes>): Framing
    decreases |lines|
  {
    var k := FirstBlank(lines);
    if HasBadText(lines[..k]) then Framing([], true)
    else if k == |lines| then Framing([], false)
    else
      var rest := Frame(lines[k + 1..]);
      Framing(AsEvent(BlockData(lines[..k])) + rest.events, rest.broken)
  }

  // A block without data is no event.
  function AsEvent(data: Bytes): seq<Bytes> {
    if data == [] then [] else [data]
  }

  // The lines of the block that no blank line has ended yet.
  function OpenBlock(lines: seq<Bytes>): seq<Bytes>
    decreases |lines|
  {
    var k := FirstBlank(lines);
    if k == |lines| then lines else OpenBlock(lines[k + 1..])
  }

  // ---- the answer ----

  predicate Terminal(event: Event) {
    event.Completed? || event.Failed? || event.Malformed? || event == Delta(None) || event == ItemDone(None)
    || event == TextDone(None)
  }

  function FirstTerminal(parse: Parser, events: seq<Bytes>): (k: nat)
    ensures k <= |events|
    ensures k < |events| ==> Terminal(parse(events[k]))
    ensures forall i | 0 <= i < k :: !Terminal(parse(events[i]))
  {
    if events == [] || Terminal(parse(events[0])) then 0 else 1 + FirstTerminal(parse, events[1..])
  }

  // The text of the last assistant message that has any.
  function LastItem(parse: Parser, events: seq<Bytes>): Option<Bytes> {
    if events == [] then None
    else match parse(events[|events| - 1])
      case ItemDone(Some(item)) =>
        if ItemText(item) != [] then Some(ItemText(item)) else LastItem(parse, events[..|events| - 1])
      case _ => LastItem(parse, events[..|events| - 1])
  }

  function AllDeltas(parse: Parser, events: seq<Bytes>): Bytes {
    if events == [] then []
    else match parse(events[|events| - 1])
      case Delta(Some(delta)) => AllDeltas(parse, events[..|events| - 1]) + delta
      case _ => AllDeltas(parse, events[..|events| - 1])
  }

  function LastDone(parse: Parser, events: seq<Bytes>): Option<Bytes> {
    if events == [] then None
    else match parse(events[|events| - 1])
      case TextDone(Some(done)) => Some(done)
      case _ => LastDone(parse, events[..|events| - 1])
  }

  /** The last assistant message with text, else all deltas, else the last completed text; an empty answer is none. */
  function Chosen(parse: Parser, events: seq<Bytes>): Result<Bytes, DecodeError> {
    if LastItem(parse, events).Some? then Ok(LastItem(parse, events).value)
    else if AllDeltas(parse, events) != [] then Ok(AllDeltas(parse, events))
    else if LastDone(parse, events).Some? && LastDone(parse, events).value != [] then
      Ok(LastDone(parse, events).value)
    else Err(EmptyText)
  }

  function TerminalResult(parse: Parser, before: seq<Bytes>, last: Bytes): Result<Bytes, DecodeError> {
    match parse(last)
    case Completed => Chosen(parse, before)
    case Failed => Err(ModelFailed)
    case _ => Err(Invalid)
  }

  // Some event or a broken line settles the result, whatever follows.
  predicate Settled(parse: Parser, frame: Framing) {
    frame.broken || FirstTerminal(parse, frame.events) < |frame.events|
  }

  function FrameResult(parse: Parser, frame: Framing, ending: DecodeError): Result<Bytes, DecodeError> {
    var k := FirstTerminal(parse, frame.events);
    if k < |frame.events| then TerminalResult(parse, frame.events[..k], frame.events[k])
    else if frame.broken then Err(Invalid)
    else Err(ending)
  }

  function FrameDispatched(parse: Parser, frame: Framing): seq<Bytes> {
    var k := FirstTerminal(parse, frame.events);
    if k < |frame.events| then frame.events[..k + 1] else frame.events
  }

  /** The result of a stream that ends after these bytes; `ending` is the error the end itself means. */
  function StreamResult(parse: Parser, stream: Bytes, ending: DecodeError): Result<Bytes, DecodeError> {
    FrameResult(parse, Frame(Lines(stream)), ending)
  }

  /** The events up to and including the first terminal one. */
  function Dispatched(parse: Parser, stream: Bytes): seq<Bytes> {
    FrameDispatched(parse, Frame(Lines(stream)))
  }

  // ---- how the framing grows by one line ----

  lemma FirstBlankIs(lines: seq<Bytes>, k: nat)
    requires k <= |lines| && (k < |lines| ==> IsBlank(lines[k])) && forall i | 0 <= i < k :: !IsBlank(lines[i])
    ensures FirstBlank(lines) == k
  {
  }

  lemma FirstBlankSnoc(lines: seq<Bytes>, line: Bytes)
    ensures FirstBlank(lines + [line]) ==
            if FirstBlank(lines) < |lines| || IsBlank(line) then FirstBlank(lines) else |lines| + 1
  {
    var more := lines + [line];
    var k := FirstBlank(lines);
    assert forall i | 0 <= i < |lines| :: more[i] == lines[i];
    if k < |lines| || IsBlank(line) {
      FirstBlankIs(more, k);
    } else {
      FirstBlankIs(more, k + 1);
    }
  }

  lemma {:induction false} OpenBlockSnoc(lines: seq<Bytes>, line: Bytes)
    ensures OpenBlock(lines + [line]) == if IsBlank(line) then [] else OpenBlock(lines) + [line]
    decreases |lines|
  {
    FirstBlankSnoc(lines, line);
    var k := FirstBlank(lines);
    if k < |lines| {
      assert (lines + [line])[k + 1..] == lines[k + 1..] + [line];
      OpenBlockSnoc(lines[k + 1..], line);
    } else if IsBlank(line) {
      assert (lines + [line])[k + 1..] == [];
    }
  }

  lemma BadTextSnoc(block: seq<Bytes>, line: Bytes)
    ensures HasBadText(block + [line]) <==> HasBadText(block) || !Utf8.Valid(StripCr(line))
  {
    var more := block + [line];
    assert more[|block|] == line && forall i | 0 <= i < |block| :: more[i] == block[i];
  }

  /** One more line: a line that is not UTF-8 breaks the stream, a blank line ends the open block. */
  function Extended(frame: Framing, open: seq<Bytes>, line: Bytes): Framing {
    if frame.broken then frame
    else if !Utf8.Valid(StripCr(line)) then Framing(frame.events, true)
    else if IsBlank(line) then Framing(frame.events + AsEvent(BlockData(open)), false)
    else frame
  }

  lemma FrameWithoutBlank(lines: seq<Bytes>)
    requires FirstBlank(lines) == |lines|
    ensures Frame(lines) == Framing([], HasBadText(lines)) && OpenBlock(lines) == lines
  {
    assert lines[..|lines|] == lines;
  }

  lemma FrameAtBlank(lines: seq<Bytes>, block: seq<Bytes>, rest: seq<Bytes>)
    requires var k := FirstBlank(lines); k < |lines| && block == lines[..k] && rest == lines[k + 1..]
    ensures Frame(lines) == Prepended(block, Frame(rest)) && OpenBlock(lines) == OpenBlock(rest)
  {
  }

  function Prepended(block: seq<Bytes>, rest: Framing): Framing {
    if HasBadText(block) then Framing([], true)
    else Framing(AsEvent(BlockData(block)) + rest.events, rest.broken)
  }

  lemma PrependedExtended(block: seq<Bytes>, rest: Framing, open: seq<Bytes>, line: Bytes)
    ensures Prepended(block, Extended(rest, open, line)) == Extended(Prepended(block, rest), open, line)
  {
    var first, last := AsEvent(BlockData(block)), AsEvent(BlockData(open));
    assert first + (rest.events + last) == first + rest.events + last;
  }

  lemma SnocSlices(lines: seq<Bytes>, line: Bytes, k: nat)
    requires k <= |lines|
    ensures (lines + [line])[..k] == lines[..k]
    ensures k < |lines| ==> (lines + [line])[k + 1..] == lines[k + 1..] + [line]
    ensures k == |lines| ==> (lines + [line])[k + 1..] == [] && lines[..k] == lines
  {
  }

  lemma FrameSnocOpen(lines: seq<Bytes>, more: seq<Bytes>, line: Bytes)
    requires FirstBlank(lines) == |lines| && more == lines + [line]
    requires FirstBlank(more) == if IsBlank(line) then |lines| else |more|
    requires HasBadText(more) <==> HasBadText(lines) || !Utf8.Valid(StripCr(line))
    ensures Frame(more) == Extended(Frame(lines), lines, line)
  {
    FrameWithoutBlank(lines);
    if IsBlank(line) {
      SnocSlices(lines, line, |lines|);
      FrameAtBlank(more, lines, []);
      FrameWithoutBlank([]);
    } else {
      FrameWithoutBlank(more);
    }
  }

  lemma FrameSnocClosed(lines: seq<Bytes>, more: seq<Bytes>, line: Bytes, block: seq<Bytes>, rest: seq<Bytes>)
    requires var k := FirstBlank(lines);
             && k < |lines| && k < |more| && FirstBlank(more) == k && block == lines[..k] == more[..k]
             && rest == lines[k + 1..] && more[k + 1..] == rest + [line]
    requires Frame(rest + [line]) == Extended(Frame(rest), OpenBlock(rest), line)
    ensures Frame(more) == Extended(Frame(lines), OpenBlock(lines), line)
  {
    FrameAtBlank(lines, block, rest);
    FrameAtBlank(more, block, rest + [line]);
    PrependedExtended(block, Frame(rest), OpenBlock(rest), line);
  }

  lemma {:induction false} FrameSnoc(lines: seq<Bytes>, line: Bytes)
    ensures Frame(lines + [line]) == Extended(Frame(lines), OpenBlock(lines), line)
    decreases |lines|
  {
    var k := FirstBlank(lines);
    FirstBlankSnoc(lines, line);
    SnocSlices(lines, line, k);
    if k < |lines| {
      FrameSnoc(lines[k + 1..], line);
      FrameSnocClosed(lines, lines + [line], line, lines[..k], lines[k + 1..]);
    } else {
      BadTextSnoc(lines, line);
      FrameSnocOpen(lines, lines + [line], line);
    }
  }

  lemma {:induction false} DropLeadingEmptySnoc(values: seq<Bytes>, value: Bytes)
    ensures DropLeadingEmpty(values + [value]) ==
            if DropLeadingEmpty(values) == [] then (if value == [] then [] else [value])
            else DropLeadingEmpty(values) + [value]
    ensures DropLeadingEmpty(values) != [] ==> DropLeadingEmpty(values)[0] != []
  {
    var more := values + [value];
    if values == [] {
      assert more[1..] == [];
    } else if values[0] == [] {
      assert more[1..] == values[1..] + [value];
      DropLeadingEmptySnoc(values[1..], value);
    }
  }

  lemma JoinNonEmpty(values: seq<Bytes>)
    requires values != [] && values[0] != []
    ensures Join(values) != []
  {
  }

  lemma BlockDataSnoc(block: seq<Bytes>, line: Bytes)
    ensures BlockData(block + [line]) ==
            match DataOf(StripCr(line))
            case None => BlockData(block)
            case Some(value) => Joined(BlockData(block), value)
  {
    assert (block + [line])[..|block|] == block;
    match DataOf(StripCr(line))
    case None =>
      assert Values(block) + [] == Values(block);
    case Some(value) =>
      var kept := DropLeadingEmpty(Values(block));
      DropLeadingEmptySnoc(Values(block), value);
      if kept != [] {
        JoinNonEmpty(kept);
        assert (kept + [value])[..|kept|] == kept;
      }
  }

  // ---- the decoder refines the stream ----

  function Collected(parse: Parser, events: seq<Bytes>): TextState {
    TextState(AllDeltas(parse, events), LastItem(parse, events), LastDone(parse, events))
  }

  // What a decoder that is still running knows about the bytes it was fed.
  ghost predicate Follows(parse: Parser, stream: Bytes, m: Machine) {
    var lines := Lines(stream);
    && m.pending == Rest(stream)
    && !Frame(lines).broken
    && m.log == Frame(lines).events
    && m.data == BlockData(OpenBlock(lines))
    && m.text == Collected(parse, m.log)
    && FirstTerminal(parse, m.log) == |m.log|
  }

  // A result that no further byte changes.
  ghost predicate Decided(parse: Parser, stream: Bytes, result: Result<Bytes, DecodeError>, log: seq<Bytes>) {
    && (forall ending :: StreamResult(parse, stream, ending) == result)
    && log == Dispatched(parse, stream)
    && Settled(parse, Frame(Lines(stream)))
  }

  lemma FirstTerminalIs(parse: Parser, events: seq<Bytes>, k: nat)
    requires k <= |events| && (k < |events| ==> Terminal(parse(events[k])))
    requires forall i | 0 <= i < k :: !Terminal(parse(events[i]))
    ensures FirstTerminal(parse, events) == k
  {
  }

  lemma FirstTerminalSnoc(parse: Parser, events: seq<Bytes>, event: Bytes)
    requires FirstTerminal(parse, events) == |events|
    ensures FirstTerminal(parse, events + [event]) == if Terminal(parse(event)) then |events| else |events| + 1
  {
    var more := events + [event];
    assert forall i | 0 <= i < |events| :: more[i] == events[i];
    FirstTerminalIs(parse, more, if Terminal(parse(event)) then |events| else |events| + 1);
  }

  lemma CollectedSnoc(parse: Parser, events: seq<Bytes>, event: Bytes, maximum: nat)
    ensures var reaction := React(parse(event), Collected(parse, events), maximum);
            && (reaction.Continue? ==> !Terminal(parse(event))
                                       && reaction.text == Collected(parse, events + [event]))
            && (reaction.Answer? ==> TerminalResult(parse, events, event) == Ok(reaction.answer))
            && (reaction.Fail? && reaction.error != LimitExceeded ==>
                  TerminalResult(parse, events, event) == Err(reaction.error))
            && (!reaction.Continue? && reaction != Fail(LimitExceeded) ==> Terminal(parse(event)))
  {
    assert (events + [event])[..|events|] == events;
    LastItemNonEmpty(parse, events);
  }

  lemma {:induction false} LastItemNonEmpty(parse: Parser, events: seq<Bytes>)
    ensures LastItem(parse, events).Some? ==> LastItem(parse, events).value != []
    decreases |events|
  {
    if events != [] {
      LastItemNonEmpty(parse, events[..|events| - 1]);
    }
  }

  lemma NextLine(stream: Bytes, next: Bytes)
    requires next == stream + [LF]
    ensures Lines(next) == Lines(stream) + [Rest(stream)] && Rest(next) == []
  {
    assert next[..|next| - 1] == stream;
  }

  ghost predicate Refines(parse: Parser, stream: Bytes, p: Progress) {
    match p
    case Running(m) => Follows(parse, stream, m)
    case Stopped(result, log) => result == Err(LimitExceeded) || Decided(parse, stream, result, log)
  }

  // The data of the block that ends is dispatched.
  lemma DispatchRefines(parse: Parser, limits: Limits, m: Machine, next: Bytes)
    requires m.text == Collected(parse, m.log) && FirstTerminal(parse, m.log) == |m.log| && m.data != []
    requires Frame(Lines(next)) == Framing(m.log + [m.data], false)
    requires OpenBlock(Lines(next)) == [] && Rest(next) == []
    ensures Refines(parse, next, EndEvent(parse, limits, m))
  {
    FirstTerminalSnoc(parse, m.log, m.data);
    CollectedSnoc(parse, m.log, m.data, limits.textBytes);
    assert BlockData([]) == [];
    if Terminal(parse(m.data)) {
      TerminalDecides(parse, m.log, m.data, next);
    }
  }

  lemma TerminalDecides(parse: Parser, log: seq<Bytes>, event: Bytes, next: Bytes)
    requires FirstTerminal(parse, log + [event]) == |log|
    requires Frame(Lines(next)) == Framing(log + [event], false)
    ensures Decided(parse, next, TerminalResult(parse, log, event), log + [event])
  {
    var all := log + [event];
    assert all[..|log|] == log && all[..|log| + 1] == all && all[|log|] == event;
  }

  lemma TakeBlankRefines(parse: Parser, limits: Limits, stream: Bytes, next: Bytes, m: Machine)
    requires Follows(parse, stream, m) && next == stream + [LF] && IsBlank(m.pending)
    ensures Refines(parse, next, EndEvent(parse, limits, m))
  {
    NextLine(stream, next);
    FrameSnoc(Lines(stream), Rest(stream));
    OpenBlockSnoc(Lines(stream), Rest(stream));
    if m.data != [] {
      DispatchRefines(parse, limits, m, next);
    } else {
      assert BlockData([]) == [] && m.log + [] == m.log;
    }
  }

  lemma TakeFieldRefines(parse: Parser, limits: Limits, stream: Bytes, next: Bytes, m: Machine)
    requires Follows(parse, stream, m) && next == stream + [LF]
    requires Utf8.Valid(StripCr(m.pending)) && !IsBlank(m.pending)
    ensures Refines(parse, next, TakeLine(parse, limits, m, m.pending))
  {
    NextLine(stream, next);
    FrameSnoc(Lines(stream), Rest(stream));
    OpenBlockSnoc(Lines(stream), Rest(stream));
    BlockDataSnoc(OpenBlock(Lines(stream)), Rest(stream));
  }

  lemma TakeBadTextRefines(parse: Parser, stream: Bytes, next: Bytes, m: Machine)
    requires Follows(parse, stream, m) && next == stream + [LF] && !Utf8.Valid(StripCr(m.pending))
    ensures Decided(parse, next, Err(Invalid), m.log)
  {
    NextLine(stream, next);
    FrameSnoc(Lines(stream), Rest(stream));
  }

  lemma TakeLineRefines(parse: Parser, limits: Limits, stream: Bytes, next: Bytes, m: Machine)
    requires Follows(parse, stream, m) && next == stream + [LF]
    ensures Refines(parse, next, TakeLine(parse, limits, m, m.pending))
  {
    var line := StripCr(m.pending);
    var p := TakeLine(parse, limits, m, m.pending);
    if m.eventBytes + |line| + 1 > limits.eventBytes {
      assert p == Stopped(Err(LimitExceeded), m.log);
    } else if !Utf8.Valid(line) {
      TakeBadTextRefines(parse, stream, next, m);
      assert p == Stopped(Err(Invalid), m.log);
    } else if line == [] {
      TakeBlankRefines(parse, limits, stream, next, m);
      assert p == EndEvent(parse, limits, m);
    } else {
      TakeFieldRefines(parse, limits, stream, next, m);
    }
  }

  lemma FrameGrows(stream: Bytes, b: byte)
    ensures var now, then_ := Frame(Lines(stream)), Frame(Lines(stream + [b]));
            now.events <= then_.events && (now.broken ==> then_ == now)
  {
    assert (stream + [b])[..|stream|] == stream;
    if b == LF {
      NextLine(stream, stream + [b]);
      FrameSnoc(Lines(stream), Rest(stream));
    }
  }

  lemma SettledStays(parse: Parser, frame: Framing, more: Framing, ending: DecodeError)
    requires Settled(parse, frame) && frame.events <= more.events && (frame.broken ==> more == frame)
    ensures Settled(parse, more)
    ensures FrameResult(parse, more, ending) == FrameResult(parse, frame, ending)
    ensures FrameDispatched(parse, more) == FrameDispatched(parse, frame)
  {
    var k := FirstTerminal(parse, frame.events);
    if !frame.broken {
      assert forall i | 0 <= i <= k :: more.events[i] == frame.events[i];
      FirstTerminalIs(parse, more.events, k);
      assert more.events[..k] == frame.events[..k] && more.events[..k + 1] == frame.events[..k + 1];
    }
  }

  lemma {:induction false} FrameGrowsBy(stream: Bytes, more: Bytes)
    ensures var now, then_ := Frame(Lines(stream)), Frame(Lines(stream + more));
            now.events <= then_.events && (now.broken ==> then_ == now)
    decreases |more|
  {
    if more == [] {
      assert stream + more == stream;
    } else {
      var front, b := more[..|more| - 1], more[|more| - 1];
      assert more == front + [b];
      Associates(stream, front, [b]);
      FrameGrowsBy(stream, front);
      FrameGrows(stream + front, b);
    }
  }

  /** What is decided stays so, whatever bytes follow. */
  lemma DecidedForGood(
    parse: Parser, stream: Bytes, more: Bytes, result: Result<Bytes, DecodeError>, log: seq<Bytes>)
    requires Decided(parse, stream, result, log)
    ensures Decided(parse, stream + more, result, log)
  {
    FrameGrowsBy(stream, more);
    forall ending ensures StreamResult(parse, stream + more, ending) == result {
      SettledStays(parse, Frame(Lines(stream)), Frame(Lines(stream + more)), ending);
      assert StreamResult(parse, stream, ending) == result;
    }
    SettledStays(parse, Frame(Lines(stream)), Frame(Lines(stream + more)), Invalid);
  }

  lemma {:induction false} DecoderRefinesStream(parse: Parser, limits: Limits, stream: Bytes)
    ensures Refines(parse, stream, After(parse, limits, stream))
    decreases |stream|
  {
    if stream == [] {
      assert Frame([]) == Framing([], false) && OpenBlock([]) == [] && BlockData([]) == [];
    } else {
      var front, b := stream[..|stream| - 1], stream[|stream| - 1];
      assert stream == front + [b];
      DecoderRefinesStream(parse, limits, front);
      match After(parse, limits, front) {
        case Running(m) =>
          if b == LF {
            TakeLineRefines(parse, limits, front, stream, m);
          }
        case Stopped(result, log) =>
          if result != Err(LimitExceeded) {
            DecidedForGood(parse, front, [b], result, log);
          }
      }
    }
  }
}
