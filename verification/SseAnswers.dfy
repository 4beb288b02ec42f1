/** What a response is answered with, in terms of the events it consists of. */
module SseAnswers {
  import opened Wrappers
  import opened Bytes
  import opened SseEvents
  import opened SseMachine
  import opened SseStream
  import opened SseReads
  import opened SseLimits
  import Utf8

  // ---- the texts of the events ----

  /** The deltas, in order. */
  function Deltas(parse: Parser, events: seq<Bytes>): (texts: seq<Bytes>)
    ensures |texts| == |events|
    ensures forall i | 0 <= i < |events| ::
              texts[i] == match parse(events[i]) case Delta(Some(delta)) => delta case _ => []
  {
    seq(|events|, i requires 0 <= i < |events| => match parse(events[i]) case Delta(Some(delta)) => delta case _ => [])
  }

  lemma {:induction false} DeltasAreJoined(parse: Parser, events: seq<Bytes>)
    ensures AllDeltas(parse, events) == Concat(Deltas(parse, events))
    decreases |events|
  {
    if events != [] {
      var front, last := events[..|events| - 1], events[|events| - 1];
      DeltasAreJoined(parse, front);
      var text := Deltas(parse, events)[|front|];
      assert Deltas(parse, events) == Deltas(parse, front) + [text];
      ConcatAppend(Deltas(parse, front), [text]);
      ConcatOne(text);
      assert Concat(Deltas(parse, front)) + [] == Concat(Deltas(parse, front));
    }
  }

  // The text of an event that ends an assistant's message, if the message has any.
  function MessageText(event: Event): Bytes {
    match event
    case ItemDone(Some(Item(true, true, Some(parts)))) => Concat(PartTexts(parts))
    case _ => []
  }

  predicate IsDone(event: Event) {
    event.TextDone? && event.text.Some?
  }

  /** The text is that of the last message with any. */
  ghost predicate LastMessage(parse: Parser, events: seq<Bytes>, text: Bytes) {
    exists k :: 0 <= k < |events| && text == MessageText(parse(events[k])) != []
                && forall j | k < j < |events| :: MessageText(parse(events[j])) == []
  }

  ghost predicate LastDoneText(parse: Parser, events: seq<Bytes>, text: Bytes) {
    exists k :: 0 <= k < |events| && parse(events[k]) == TextDone(Some(text))
                && forall j | k < j < |events| :: !IsDone(parse(events[j]))
  }

  lemma MessageTextIs(event: Event)
    ensures MessageText(event) == match event case ItemDone(Some(item)) => ItemText(item) case _ => []
  {
    if event.ItemDone? && event.item.Some? {
      ItemTextIs(event.item.value);
    }
  }

  lemma {:induction false} LastItemIs(parse: Parser, events: seq<Bytes>)
    ensures forall text :: LastItem(parse, events) == Some(text) <==> LastMessage(parse, events, text)
    decreases |events|
  {
    if events != [] {
      var front, last := events[..|events| - 1], events[|events| - 1];
      assert events == front + [last];
      LastItemIs(parse, front);
      MessageTextIs(parse(last));
      forall text ensures LastItem(parse, events) == Some(text) <==> LastMessage(parse, events, text) {
        LastMessageSnoc(parse, front, last, text);
      }
    }
  }

  lemma LastMessageSnoc(parse: Parser, front: seq<Bytes>, last: Bytes, text: Bytes)
    ensures LastMessage(parse, front + [last], text)
            <==> if MessageText(parse(last)) == [] then LastMessage(parse, front, text)
                 else text == MessageText(parse(last))
  {
    var events := front + [last];
    assert events[|front|] == last && forall i | 0 <= i < |front| :: events[i] == front[i];
    if MessageText(parse(last)) == [] && LastMessage(parse, front, text) {
      var k :| 0 <= k < |front| && text == MessageText(parse(front[k])) != []
               && forall j | k < j < |front| :: MessageText(parse(front[j])) == [];
      assert events[k] == front[k] && forall j | k < j < |events| :: MessageText(parse(events[j])) == [];
    }
  }

  lemma {:induction false} LastDoneIs(parse: Parser, events: seq<Bytes>)
    ensures forall text :: LastDone(parse, events) == Some(text) <==> LastDoneText(parse, events, text)
    decreases |events|
  {
    if events != [] {
      var front, last := events[..|events| - 1], events[|events| - 1];
      assert events == front + [last];
      LastDoneIs(parse, front);
      forall text ensures LastDone(parse, events) == Some(text) <==> LastDoneText(parse, events, text) {
        LastDoneSnoc(parse, front, last, text);
      }
    }
  }

  lemma LastDoneSnoc(parse: Parser, front: seq<Bytes>, last: Bytes, text: Bytes)
    ensures LastDoneText(parse, front + [last], text)
            <==> if IsDone(parse(last)) then parse(last) == TextDone(Some(text)) else LastDoneText(parse, front, text)
  {
    var events := front + [last];
    assert events[|front|] == last && forall i | 0 <= i < |front| :: events[i] == front[i];
    if !IsDone(parse(last)) && LastDoneText(parse, front, text) {
      var k :| 0 <= k < |front| && parse(front[k]) == TextDone(Some(text))
               && forall j | k < j < |front| :: !IsDone(parse(front[j]));
      assert events[k] == front[k] && forall j | k < j < |events| :: !IsDone(parse(events[j]));
    }
  }

  // ---- the answer ----

  /** The answer of a response that completes after these events: the last message with text; without one, all deltas;
      without any, the last completed text, if it is not empty. */
  ghost predicate Answers(parse: Parser, events: seq<Bytes>, answer: Bytes) {
    if exists text :: LastMessage(parse, events, text) then LastMessage(parse, events, answer)
    else if Concat(Deltas(parse, events)) != [] then answer == Concat(Deltas(parse, events))
    else answer != [] && LastDoneText(parse, events, answer)
  }

  lemma ChosenIs(parse: Parser, events: seq<Bytes>)
    ensures forall answer :: Chosen(parse, events) == Ok(answer) <==> Answers(parse, events, answer)
    ensures Chosen(parse, events).Err? ==> Chosen(parse, events) == Err(EmptyText)
  {
    LastItemIs(parse, events);
    LastDoneIs(parse, events);
    DeltasAreJoined(parse, events);
    if LastItem(parse, events).Some? {
      assert LastMessage(parse, events, LastItem(parse, events).value);
    }
  }

  /** An event that changes the texts at most. */
  predicate GoesOn(event: Event) {
    match event
    case Delta(Some(_)) => true
    case ItemDone(Some(_)) => true
    case TextDone(Some(_)) => true
    case Other => true
    case _ => false
  }

  ghost predicate AllGoOn(parse: Parser, events: seq<Bytes>) {
    forall i | 0 <= i < |events| :: GoesOn(parse(events[i]))
  }

  /** The result of a stream whose events go on up to one that does not: a completion is answered as said, a reported
      failure is one, and anything malformed is invalid. */
  lemma SettledStreams(parse: Parser, stream: Bytes, before: seq<Bytes>, last: Bytes, end: StreamEnd)
    requires before + [last] <= Frame(Lines(stream)).events && AllGoOn(parse, before) && !GoesOn(parse(last))
    ensures var result := StreamResult(parse, stream, EndError(end));
            match parse(last)
            case Completed =>
              && (forall answer :: result == Ok(answer) <==> Answers(parse, before, answer))
              && (result.Err? ==> result == Err(EmptyText))
            case Failed => result == Err(ModelFailed)
            case _ => result == Err(Invalid)
  {
    FirstIsAfter(parse, Frame(Lines(stream)).events, before, last);
    if parse(last).Completed? {
      ChosenIs(parse, before);
    }
  }

  // The first event that does not go on is the first terminal one.
  lemma FirstIsAfter(parse: Parser, events: seq<Bytes>, before: seq<Bytes>, last: Bytes)
    requires before + [last] <= events && AllGoOn(parse, before) && !GoesOn(parse(last))
    ensures FirstTerminal(parse, events) == |before| < |events|
    ensures events[..|before|] == before && events[|before|] == last
  {
    var k := |before|;
    assert (before + [last])[k] == last && events[k] == last && events[..k] == before;
    forall i | 0 <= i < k ensures !Terminal(parse(events[i])) {
      assert events[i] == (before + [last])[i] == before[i];
    }
    FirstTerminalIs(parse, events, k);
  }

  /** A stream whose events all go on has no answer: a line that is not UTF-8 is invalid, a read that times out is said
      to have, and any other end is invalid too. */
  lemma UnsettledStreams(parse: Parser, stream: Bytes, end: StreamEnd)
    requires AllGoOn(parse, Frame(Lines(stream)).events)
    ensures StreamResult(parse, stream, EndError(end))
            == Err(if !Frame(Lines(stream)).broken && end == ReadFailed(true) then TimedOut else Invalid)
  {
    FirstTerminalIs(parse, Frame(Lines(stream)).events, |Frame(Lines(stream)).events|);
  }

  /** Every stream is of one of these two kinds. */
  lemma {:induction false} EveryStreamIsSettledOrNot(parse: Parser, events: seq<Bytes>)
    returns (before: seq<Bytes>, last: Option<Bytes>)
    ensures AllGoOn(parse, before)
    ensures if last.None? then before == events else before + [last.value] <= events && !GoesOn(parse(last.value))
    decreases |events|
  {
    if events == [] {
      return [], None;
    }
    before, last := EveryStreamIsSettledOrNot(parse, events[..|events| - 1]);
    if last.None? {
      assert events == before + [events[|events| - 1]];
      if GoesOn(parse(events[|events| - 1])) {
        before := events;
      } else {
        last := Some(events[|events| - 1]);
      }
    } else {
      assert events[..|events| - 1] <= events;
    }
  }

  // ---- the lines of an event ----

  /** The value of a `data` field is what follows the colon, without one space; no other line has one. */
  lemma DataLines(value: Bytes, line: Bytes)
    ensures DataOf(Utf8.Encode("data:") + value)
            == Some(if value != [] && value[0] == 32 then value[1..] else value)
    ensures (forall rest :: line != Utf8.Encode("data:") + rest) ==> DataOf(line) == None
  {
    DataColon();
    FindsFirst(DATA, COLON, value);
    var field := DATA + [COLON] + value;
    assert field[..4] == DATA && field[5..] == value;
    var colon := Find(line, COLON);
    if DataOf(line).Some? {
      assert line == DATA + [COLON] + line[colon + 1..];
      assert exists rest :: line == Utf8.Encode("data:") + rest;
    }
  }

  lemma DataColon()
    ensures Utf8.Encode("data:") == DATA + [COLON] && COLON !in DATA
  {
    assert "data:"[1..] == "ata:" && "ata:"[1..] == "ta:" && "ta:"[1..] == "a:" && "a:"[1..] == ":" && ":"[1..] == "";
  }
}
