/**
 Where the decoder's framing is the standard's, and where it is not. The two collect the same values from a block unless
 a `data` line without a colon follows a value; and a byte order mark, which the standard removes, hides the first line
 from the decoder.
 */
module SseFraming {
  import opened Wrappers
  import opened Bytes
  import opened Sequences
  import opened SseEvents
  import opened SseMachine
  import opened SseStream
  import opened SseStandard
  import Utf8

  // ---- one block ----

  predicate HasText(line: Bytes) {
    DataOf(StripCr(line)).Some? && DataOf(StripCr(line)).value != []
  }

  predicate SomeText(block: seq<Bytes>) {
    exists i :: 0 <= i < |block| && HasText(block[i])
  }

  /** A `data` line without a colon after a line with a value. */
  predicate BareAfterText(block: seq<Bytes>) {
    exists j :: 0 <= j < |block| && StripCr(block[j]) == DATA && SomeText(block[..j])
  }

  lemma SomeTextSnoc(front: seq<Bytes>, last: Bytes)
    ensures SomeText(front + [last]) <==> SomeText(front) || HasText(last)
  {
    var block := front + [last];
    assert block[|front|] == last && forall i | 0 <= i < |front| :: block[i] == front[i];
  }

  lemma BareAfterTextSnoc(front: seq<Bytes>, last: Bytes)
    ensures BareAfterText(front + [last]) <==> BareAfterText(front) || (StripCr(last) == DATA && SomeText(front))
  {
    var block := front + [last];
    assert block[|front|] == last && block[..|front|] == front;
    assert forall j | 0 <= j < |front| :: block[j] == front[j] && block[..j] == front[..j];
  }

  function Got(block: seq<Bytes>): seq<Bytes> {
    DropLeadingEmpty(Values(block))
  }

  function Expected(block: seq<Bytes>): seq<Bytes> {
    DropLeadingEmpty(StandardValues(block))
  }

  ghost predicate Compared(block: seq<Bytes>) {
    && (SomeText(block) <==> Got(block) != []) && (SomeText(block) <==> Expected(block) != [])
    && (if BareAfterText(block) then |Expected(block)| > |Got(block)| else Expected(block) == Got(block))
  }

  lemma {:induction false} BlocksCompare(block: seq<Bytes>)
    ensures Compared(block)
    decreases |block|
  {
    if block != [] {
      var front, last := block[..|block| - 1], block[|block| - 1];
      assert block == front + [last];
      BlocksCompare(front);
      ComparedSnoc(front, last);
    }
  }

  lemma ComparedSnoc(front: seq<Bytes>, last: Bytes)
    requires Compared(front)
    ensures Compared(front + [last])
  {
    SomeTextSnoc(front, last);
    BareAfterTextSnoc(front, last);
    ValuesSnoc(front, last);
    StandardValuesSnoc(front, last);
    if StripCr(last) == DATA {
      BareDataLine();
      DropLeadingEmptySnoc(StandardValues(front), []);
      assert Values(front) + [] == Values(front);
    } else if More(last) != [] {
      DropLeadingEmptySnoc(Values(front), More(last)[0]);
      DropLeadingEmptySnoc(StandardValues(front), More(last)[0]);
    } else {
      assert Values(front) + [] == Values(front) && StandardValues(front) + [] == StandardValues(front);
    }
  }

  // ---- joined values ----

  function Breaks(s: Bytes): nat {
    if s == [] then 0 else Breaks(s[..|s| - 1]) + if s[|s| - 1] == LF then 1 else 0
  }

  lemma {:induction false} BreaksConcat(a: Bytes, b: Bytes)
    ensures Breaks(a + b) == Breaks(a) + Breaks(b)
    decreases |b|
  {
    if b == [] {
      assert a + b == a;
    } else {
      assert (a + b)[..|a + b| - 1] == a + b[..|b| - 1];
      BreaksConcat(a, b[..|b| - 1]);
    }
  }

  lemma {:induction false} NoBreaks(s: Bytes)
    requires LF !in s
    ensures Breaks(s) == 0
    decreases |s|
  {
    if s != [] {
      NoBreaks(s[..|s| - 1]);
    }
  }

  /** Values without an LF can be counted again once they are joined. */
  lemma {:induction false} JoinedBreaks(values: seq<Bytes>)
    requires values != [] && forall value <- values :: LF !in value
    ensures Breaks(Join(values)) == |values| - 1
    decreases |values|
  {
    var front, last := values[..|values| - 1], values[|values| - 1];
    assert last in values && forall value <- front :: value in values;
    NoBreaks(last);
    if front != [] {
      JoinedBreaks(front);
      BreaksConcat(Join(front) + [LF], last);
      BreaksConcat(Join(front), [LF]);
      assert [LF][..0] == [];
    }
  }

  lemma {:induction false} DroppedAreValues(values: seq<Bytes>)
    ensures forall value <- DropLeadingEmpty(values) :: value in values
    ensures DropLeadingEmpty(values) != [] ==> DropLeadingEmpty(values)[0] != []
  {
    if values != [] && values[0] == [] {
      DroppedAreValues(values[1..]);
    }
  }

  lemma JoinDropped(values: seq<Bytes>)
    requires forall value <- values :: LF !in value
    ensures var kept := DropLeadingEmpty(values);
            && (Join(kept) == [] <==> kept == [])
            && (kept != [] ==> Breaks(Join(kept)) == |kept| - 1)
  {
    var kept := DropLeadingEmpty(values);
    DroppedAreValues(values);
    if kept != [] {
      JoinNonEmpty(kept);
      JoinedBreaks(kept);
    }
  }

  /** A block is one event in both readings or in neither, and the same one exactly if no `data` line without a colon
      comes after a value. */
  lemma BlockAgreesIff(block: seq<Bytes>)
    requires forall line <- block :: LF !in line
    ensures Join(Got(block)) == [] <==> Join(Expected(block)) == []
    ensures Join(Got(block)) == Join(Expected(block)) <==> !BareAfterText(block)
  {
    BlocksCompare(block);
    ValuesHaveNoLf(block);
    JoinDropped(Values(block));
    JoinDropped(StandardValues(block));
  }

  // ---- blocks of lines ----

  /** No block that a blank line ends has a `data` line without a colon after a value. */
  predicate KeepsValues(lines: seq<Bytes>)
    decreases |lines|
  {
    var k := FirstBlank(lines);
    k == |lines| || (!BareAfterText(lines[..k]) && KeepsValues(lines[k + 1..]))
  }

  // Lines of a text.
  predicate TextLines(lines: seq<Bytes>) {
    ValidLines(lines) && forall line <- lines :: LF !in line
  }

  lemma TextAround(lines: seq<Bytes>, k: nat)
    requires k < |lines| && TextLines(lines)
    ensures TextLines(lines[..k]) && TextLines(lines[k + 1..])
  {
    var block, rest := lines[..k], lines[k + 1..];
    assert forall i | 0 <= i < |rest| :: rest[i] == lines[k + 1 + i];
    assert forall i | 0 <= i < k :: block[i] == lines[i];
  }

  lemma SameFirstEvent(a: Bytes, x: seq<Bytes>, b: Bytes, y: seq<Bytes>)
    requires (a == [] <==> b == []) && |x| == |y|
    ensures |AsEvent(a) + x| == |AsEvent(b) + y|
    ensures AsEvent(a) + x == AsEvent(b) + y <==> a == b && x == y
  {
    if AsEvent(a) + x == AsEvent(b) + y && a != [] {
      assert ([a] + x)[0] == ([b] + y)[0];
      SameTail([a], x, y);
    } else if AsEvent(a) + x == AsEvent(b) + y {
      assert [] + x == x && [] + y == y;
    }
  }

  lemma OtherFirstEvent(a: Bytes, x: seq<Bytes>, b: Bytes, y: seq<Bytes>)
    requires b != [] && a != b && |x| == |y|
    ensures AsEvent(a) + x != AsEvent(b) + y
  {
    if a == [] {
      assert |AsEvent(a) + x| < |AsEvent(b) + y|;
    } else {
      assert (AsEvent(a) + x)[0] == a && (AsEvent(b) + y)[0] == b;
    }
  }

  lemma TextFrameAt(lines: seq<Bytes>, block: seq<Bytes>, rest: seq<Bytes>)
    requires TextLines(lines)
    requires var k := FirstBlank(lines); k < |lines| && block == lines[..k] && rest == lines[k + 1..]
    ensures TextLines(block) && TextLines(rest)
    ensures Frame(lines) == Framing(AsEvent(BlockData(block)) + Frame(rest).events, Frame(rest).broken)
  {
    TextAround(lines, FirstBlank(lines));
    FrameAtBlank(lines, block, rest);
  }

  lemma KeepsValuesAt(lines: seq<Bytes>, block: seq<Bytes>, rest: seq<Bytes>)
    requires var k := FirstBlank(lines); k < |lines| && block == lines[..k] && rest == lines[k + 1..]
    ensures KeepsValues(lines) <==> !BareAfterText(block) && KeepsValues(rest)
  {
  }

  lemma AgreeAtBlank(lines: seq<Bytes>, block: seq<Bytes>, rest: seq<Bytes>)
    requires TextLines(lines)
    requires var k := FirstBlank(lines); k < |lines| && block == lines[..k] && rest == lines[k + 1..]
    requires !Frame(rest).broken && |Frame(rest).events| == |StandardFrames(rest)|
    requires Frame(rest).events == StandardFrames(rest) <==> KeepsValues(rest)
    ensures !Frame(lines).broken && |Frame(lines).events| == |StandardFrames(lines)|
    ensures Frame(lines).events == StandardFrames(lines) <==> KeepsValues(lines)
  {
    TextFrameAt(lines, block, rest);
    StandardFramesAt(lines, block, rest);
    KeepsValuesAt(lines, block, rest);
    BlockAgreesIff(block);
    SameFirstEvent(BlockData(block), Frame(rest).events, Join(Expected(block)), StandardFrames(rest));
  }

  /** As many events in both readings, and the same ones exactly under that condition. */
  lemma {:induction false} FramesAgreeIff(lines: seq<Bytes>)
    requires TextLines(lines)
    ensures !Frame(lines).broken && |Frame(lines).events| == |StandardFrames(lines)|
    ensures Frame(lines).events == StandardFrames(lines) <==> KeepsValues(lines)
    decreases |lines|
  {
    var k := FirstBlank(lines);
    if k == |lines| {
      FrameWithoutBlank(lines);
    } else {
      TextAround(lines, k);
      FramesAgreeIff(lines[k + 1..]);
      AgreeAtBlank(lines, lines[..k], lines[k + 1..]);
    }
  }

  // ---- a byte order mark ----

  /** The first block is an event and its first line, the byte order mark removed, has a value. */
  predicate MarkHidesText(lines: seq<Bytes>) {
    FirstBlank(lines) < |lines| && BOM <= lines[0] && HasText(lines[0][3..])
  }

  lemma SomeTextCons(line: Bytes, block: seq<Bytes>)
    ensures SomeText([line] + block) <==> HasText(line) || SomeText(block)
  {
    var all := [line] + block;
    assert all[0] == line && forall i | 0 <= i < |block| :: all[i + 1] == block[i];
  }

  lemma BareAfterTextCons(line: Bytes, block: seq<Bytes>)
    requires !HasText(line)
    ensures BareAfterText([line] + block) <==> BareAfterText(block)
  {
    var all := [line] + block;
    forall j | 0 <= j < |block| ensures all[j + 1] == block[j] && (SomeText(all[..j + 1]) <==> SomeText(block[..j])) {
      assert all[..j + 1] == [line] + block[..j];
      SomeTextCons(line, block[..j]);
    }
    assert all[..0] == [];
  }

  lemma FirstBlankCons(line: Bytes, lines: seq<Bytes>)
    requires !IsBlank(line)
    ensures FirstBlank([line] + lines) == 1 + FirstBlank(lines)
  {
    assert ([line] + lines)[1..] == lines;
  }

  lemma BlankCons(line: Bytes, lines: seq<Bytes>)
    requires !IsBlank(line)
    ensures FirstBlank([line] + lines) == 1 + FirstBlank(lines)
    ensures var k := FirstBlank(lines);
            ([line] + lines)[..k + 1] == [line] + lines[..k]
            && (k < |lines| ==> ([line] + lines)[k + 2..] == lines[k + 1..])
  {
    var k := FirstBlank(lines);
    FirstBlankCons(line, lines);
    ConsSlices(line, lines, k);
    if k < |lines| {
      ConsSlices(line, lines, k + 1);
    }
  }

  lemma StandardFramesCons(line: Bytes, lines: seq<Bytes>, block: seq<Bytes>, rest: seq<Bytes>)
    requires !IsBlank(line)
    requires var k := FirstBlank(lines); k < |lines| && block == lines[..k] && rest == lines[k + 1..]
    ensures StandardFrames([line] + lines) == AsEvent(Join(Expected([line] + block))) + StandardFrames(rest)
  {
    BlankCons(line, lines);
    StandardFramesAt([line] + lines, [line] + block, rest);
  }

  // A line that is no field the decoder knows changes nothing.
  lemma OtherLineIsSkipped(line: Bytes, lines: seq<Bytes>)
    requires !IsBlank(line) && More(line) == [] && TextLines([line] + lines)
    ensures TextLines(lines)
    ensures Frame([line] + lines) == Frame(lines) && (KeepsValues([line] + lines) <==> KeepsValues(lines))
  {
    var all, k := [line] + lines, FirstBlank(lines);
    BlankCons(line, lines);
    assert all[0] == line && forall i | 0 <= i < |lines| :: all[i + 1] == lines[i];
    if k == |lines| {
      FrameWithoutBlank(all);
      FrameWithoutBlank(lines);
    } else {
      OtherLineInBlock(line, lines, lines[..k], lines[k + 1..]);
    }
  }

  lemma OtherLineInBlock(line: Bytes, lines: seq<Bytes>, block: seq<Bytes>, rest: seq<Bytes>)
    requires !IsBlank(line) && More(line) == [] && TextLines([line] + lines) && TextLines(lines)
    requires var k := FirstBlank(lines); k < |lines| && block == lines[..k] && rest == lines[k + 1..]
    ensures Frame([line] + lines) == Frame(lines) && (KeepsValues([line] + lines) <==> KeepsValues(lines))
  {
    BlankCons(line, lines);
    TextFrameAt([line] + lines, [line] + block, rest);
    TextFrameAt(lines, block, rest);
    ValuesCons(line, block);
    ValueOne(line);
    assert [] + Values(block) == Values(block);
    BareAfterTextCons(line, block);
    KeepsValuesAt([line] + lines, [line] + block, rest);
    KeepsValuesAt(lines, block, rest);
  }

  // Nor does the standard see a difference where the line has no value.
  lemma EmptyLineIsSkipped(line: Bytes, lines: seq<Bytes>)
    requires !HasText(line)
    ensures StandardFrames([line] + lines) == StandardFrames(lines)
  {
    var all, k := [line] + lines, FirstBlank(lines);
    if IsBlank(line) {
      assert all[..0] == [] && all[1..] == lines;
      StandardFramesAt(all, [], lines);
      assert StandardValues([]) == [] && AsEvent([]) + StandardFrames(lines) == StandardFrames(lines);
    } else {
      BlankCons(line, lines);
      if k < |lines| {
        var block, rest := lines[..k], lines[k + 1..];
        StandardFramesCons(line, lines, block, rest);
        StandardFramesAt(lines, block, rest);
        StandardValuesCons(line, block);
        LeadingEmptyDrops(StandardMore(line), StandardValues(block));
      }
    }
  }

  lemma LeadingEmptyDrops(front: seq<Bytes>, values: seq<Bytes>)
    requires front == [] || front == [[]]
    ensures DropLeadingEmpty(front + values) == DropLeadingEmpty(values)
  {
    if front == [] {
      assert front + values == values;
    } else {
      assert (front + values)[1..] == values;
    }
  }

  // A value that only the standard sees makes its event a different one.
  lemma HiddenTextDiffers(line: Bytes, lines: seq<Bytes>, block: seq<Bytes>, rest: seq<Bytes>)
    requires HasText(line) && !IsBlank(line) && LF !in line && TextLines(lines)
    requires var k := FirstBlank(lines); k < |lines| && block == lines[..k] && rest == lines[k + 1..]
    ensures Frame(lines).events != StandardFrames([line] + lines)
  {
    TextFrameAt(lines, block, rest);
    StandardFramesCons(line, lines, block, rest);
    FramesAgreeIff(rest);
    TextAddsBreaks(line, block);
    OtherFirstEvent(BlockData(block), Frame(rest).events, Join(Expected([line] + block)), StandardFrames(rest));
  }

  lemma TextAddsBreaks(line: Bytes, block: seq<Bytes>)
    requires HasText(line) && LF !in line && forall l <- block :: LF !in l
    ensures Join(Expected([line] + block)) != [] && Join(Expected([line] + block)) != BlockData(block)
  {
    BareDataLine();
    StandardValuesCons(line, block);
    var values := StandardValues([line] + block);
    assert values[0] == DataOf(StripCr(line)).value;
    DroppedIsShorter(StandardValues(block));
    assert |Expected([line] + block)| == 1 + |StandardValues(block)|;
    BlocksCompare(block);
    assert forall l <- [line] + block :: LF !in l;
    ValuesHaveNoLf([line] + block);
    ValuesHaveNoLf(block);
    JoinDropped(values);
    JoinDropped(Values(block));
  }

  lemma {:induction false} DroppedIsShorter(values: seq<Bytes>)
    ensures |DropLeadingEmpty(values)| <= |values|
  {
    if values != [] && values[0] == [] {
      DroppedIsShorter(values[1..]);
    }
  }

  lemma MarkedAgreeIff(marked: Bytes, line: Bytes, lines: seq<Bytes>)
    requires !IsBlank(marked) && More(marked) == []
    requires TextLines([marked] + lines) && LF !in line
    ensures Frame([marked] + lines).events == StandardFrames([line] + lines)
            <==> KeepsValues([marked] + lines) && !(FirstBlank(lines) < |lines| && HasText(line))
  {
    OtherLineIsSkipped(marked, lines);
    FramesAgreeIff(lines);
    if !HasText(line) {
      EmptyLineIsSkipped(line, lines);
    } else if FirstBlank(lines) < |lines| {
      BareDataLine();
      var k := FirstBlank(lines);
      HiddenTextDiffers(line, lines, lines[..k], lines[k + 1..]);
    } else {
      assert !IsBlank(line);
      BlankCons(line, lines);
      FrameWithoutBlank(lines);
    }
  }

  lemma FirstLineOf(s: Bytes) returns (line: Bytes, more: Bytes)
    requires LF in s
    ensures LF !in line && s == line + [LF] + more
  {
    assert s[..|s|] == s;
    var i := Find(s, LF);
    line, more := s[..i], s[i + 1..];
    SplitOne(s, i);
  }

  lemma LinesAfterMark(rest: Bytes) returns (line: Bytes, lines: seq<Bytes>)
    ensures LF in rest ==> Lines(rest) == [line] + lines && Lines(BOM + rest) == [BOM + line] + lines
    ensures LF !in rest ==> Lines(rest) == [] && Lines(BOM + rest) == []
  {
    if LF in rest {
      var more;
      line, more := FirstLineOf(rest);
      LinesCons(line, more);
      LinesCons(BOM + line, more);
      Associates(BOM, line, [LF]);
      Associates(BOM, line + [LF], more);
      lines := Lines(more);
    } else {
      line, lines := [], [];
      NoLfNoLines(rest);
      NoLfNoLines(BOM + rest);
    }
  }

  lemma MarkedLine(line: Bytes)
    ensures var marked := BOM + line; !IsBlank(marked) && More(marked) == []
  {
    var marked := BOM + line;
    var s := StripCr(marked);
    assert marked[0] == BOM[0] && marked[1] == BOM[1] && s[0] == BOM[0];
    var colon := Find(s, COLON);
    if colon > 0 {
      assert s[..colon][0] == BOM[0];
    }
  }

  lemma MarkedLinesAgreeIff(line: Bytes, lines: seq<Bytes>)
    requires TextLines([BOM + line] + lines) && LF !in line
    ensures var all := [BOM + line] + lines;
            Frame(all).events == StandardFrames([line] + lines) <==> KeepsValues(all) && !MarkHidesText(all)
  {
    MarkedLine(line);
    MarkedAgreeIff(BOM + line, line, lines);
    BlankCons(BOM + line, lines);
    assert (BOM + line)[3..] == line;
  }

  lemma MarkedStreamAgreesIff(stream: Bytes)
    requires Utf8.Valid(stream) && OnlyLfOrCrLf(stream) && BOM <= stream
    ensures Frame(Lines(stream)).events == Kept(StandardData(stream))
            <==> KeepsValues(Lines(stream)) && !MarkHidesText(Lines(stream))
  {
    var rest := stream[3..];
    assert stream == BOM + rest;
    MarkedData(stream, rest);
    SameLines(stream);
    LinesAreExact(stream);
    LinesAreExact(rest);
    var line, lines := LinesAfterMark(rest);
    if LF in rest {
      InFirstAndRest(line, lines);
      MarkedLinesAgreeIff(line, lines);
    } else {
      FrameWithoutBlank([]);
    }
  }

  lemma InFirstAndRest(line: Bytes, lines: seq<Bytes>)
    ensures line in [line] + lines && forall l <- lines :: l in [line] + lines
  {
  }

  lemma MarkedData(stream: Bytes, rest: Bytes)
    requires OnlyLfOrCrLf(stream) && BOM <= stream && rest == stream[3..]
    ensures Kept(StandardData(stream)) == StandardFrames(Lines(rest))
  {
    SuffixKeepsBreaks(stream, 3);
    SameLines(rest);
    LinesAreExact(rest);
    KeptIsFrames(Lines(rest));
  }

  // ---- the stream ----

  /** Exactly when the decoder frames such a text as the standard does: no event's data loses an empty value at its end
      or in its middle, and no byte order mark hides the first value. */
  predicate FollowsTheStandard(stream: Bytes) {
    KeepsValues(Lines(stream)) && (BOM <= stream ==> !MarkHidesText(Lines(stream)))
  }

  /** On text whose lines end in LF or CR LF, the decoder's events are the standard's event data without leading LFs if
      and only if no block has a `data` line without a colon after a value, and no byte order mark stands before a
      value. */
  lemma FramingAgreesIff(stream: Bytes)
    requires Utf8.Valid(stream) && OnlyLfOrCrLf(stream)
    ensures !Frame(Lines(stream)).broken
    ensures Frame(Lines(stream)).events == Kept(StandardData(stream)) <==> FollowsTheStandard(stream)
  {
    SameLines(stream);
    LinesAreExact(stream);
    FramesAgreeIff(Lines(stream));
    if BOM <= stream {
      MarkedStreamAgreesIff(stream);
    } else {
      KeptIsFrames(Lines(stream));
    }
  }

  /** So the strings that the decoder dispatches are the standard's, up to the first terminal event. */
  lemma FramingFollowsTheStandard(parse: Parser, limits: Limits, stream: Bytes)
    requires Utf8.Valid(stream) && OnlyLfOrCrLf(stream) && FollowsTheStandard(stream)
    ensures var standard := Kept(StandardData(stream));
            var k := FirstTerminal(parse, standard);
            match After(parse, limits, stream)
            case Running(m) => m.log == standard && k == |standard|
            case Stopped(result, log) =>
              result == Err(LimitExceeded) || (k < |standard| && log == standard[..k + 1])
  {
    FramingAgreesIff(stream);
    DispatchesItsFrames(parse, limits, stream);
  }

  /** And a decoder that is still running after such a text has dispatched the standard's strings exactly then. */
  lemma RunningFollowsIff(parse: Parser, limits: Limits, stream: Bytes)
    requires Utf8.Valid(stream) && OnlyLfOrCrLf(stream) && After(parse, limits, stream).Running?
    ensures After(parse, limits, stream).m.log == Kept(StandardData(stream)) <==> FollowsTheStandard(stream)
  {
    FramingAgreesIff(stream);
    DispatchesItsFrames(parse, limits, stream);
  }

  // A decoder that meets no broken line dispatches the events of the framing.
  lemma DispatchesItsFrames(parse: Parser, limits: Limits, stream: Bytes)
    requires !Frame(Lines(stream)).broken
    ensures var events := Frame(Lines(stream)).events;
            var k := FirstTerminal(parse, events);
            match After(parse, limits, stream)
            case Running(m) => m.log == events && k == |events|
            case Stopped(result, log) =>
              result == Err(LimitExceeded) || (k < |events| && log == events[..k + 1])
  {
    DecoderRefinesStream(parse, limits, stream);
    match After(parse, limits, stream)
    case Running(m) =>
    case Stopped(result, log) =>
      if result != Err(LimitExceeded) {
        DecidedDispatches(parse, stream, result, log);
      }
  }

  lemma DecidedDispatches(parse: Parser, stream: Bytes, result: Result<Bytes, DecodeError>, log: seq<Bytes>)
    requires Decided(parse, stream, result, log) && !Frame(Lines(stream)).broken
    ensures var events := Frame(Lines(stream)).events;
            var k := FirstTerminal(parse, events);
            k < |events| && log == events[..k + 1]
  {
  }

  // ---- other CRs ----

  lemma {:induction false} StandardLinesHaveNoCr(s: Bytes)
    ensures forall line <- StandardLines(s) :: CR !in line
    decreases |s|
  {
    var i := FindBreak(s);
    if i < |s| {
      StandardLinesHaveNoCr(s[i + 1..]);
      if s[i] == CR && i + 1 < |s| && s[i + 1] == LF {
        StandardLinesHaveNoCr(s[i + 2..]);
      }
    }
  }

  lemma AppendsNoCr(line: Bytes)
    requires CR !in line
    ensures CR !in Appends(line)
  {
    var tail := line[Find(line, COLON)..];
    assert forall b <- tail :: b in line;
    if Find(line, COLON) < |line| {
      var value := line[Find(line, COLON) + 1..];
      assert forall b <- value :: b in line;
      assert forall b <- StripSpace(value) :: b in value;
    }
  }

  lemma {:induction false} StandardEventsHaveNoCr(lines: seq<Bytes>, buffer: Bytes)
    requires CR !in buffer && forall line <- lines :: CR !in line
    ensures forall event <- StandardEvents(lines, buffer) :: CR !in event
    decreases |lines|
  {
    if lines != [] {
      var rest := lines[1..];
      assert lines[0] in lines && forall line <- rest :: line in lines;
      if lines[0] == [] {
        StandardEventsHaveNoCr(rest, []);
        assert forall b <- ChopLf(buffer) :: b in buffer;
      } else {
        AppendsNoCr(lines[0]);
        StandardEventsHaveNoCr(rest, buffer + Appends(lines[0]));
      }
    }
  }

  lemma {:induction false} StrippedBytes(data: Bytes)
    ensures forall b <- StripLeadingLf(data) :: b in data
  {
    if data != [] && data[0] == LF {
      StrippedBytes(data[1..]);
    }
  }

  lemma {:induction false} KeptHaveNoCr(events: seq<Bytes>)
    requires forall event <- events :: CR !in event
    ensures forall event <- Kept(events) :: CR !in event
  {
    if events != [] {
      assert events[0] in events && forall event <- events[1..] :: event in events;
      StrippedBytes(events[0]);
      KeptHaveNoCr(events[1..]);
    }
  }

  /** On any stream at all the standard's data holds no CR; so where the decoder dispatches a string that does, the two
      readings differ. */
  lemma ReturnInDataDiffers(stream: Bytes, event: Bytes)
    requires event in Frame(Lines(stream)).events && CR in event
    ensures Frame(Lines(stream)).events != Kept(StandardData(stream))
  {
    StandardLinesHaveNoCr(StripBom(stream));
    StandardEventsHaveNoCr(StandardLines(StripBom(stream)), []);
    KeptHaveNoCr(StandardEvents(StandardLines(StripBom(stream)), []));
  }

  // ---- streams of each kind that differ ----

  lemma FrameOfOneBlock(block: seq<Bytes>)
    requires forall line <- block :: !IsBlank(line) && Utf8.Valid(StripCr(line))
    ensures Frame(block + [[]]) == Framing(AsEvent(BlockData(block)), false)
  {
    var lines := block + [[]];
    assert lines[..|block|] == block && lines[|block| + 1..] == [];
    FirstBlankIs(lines, |block|);
    FrameAtBlank(lines, block, []);
    FrameWithoutBlank([]);
    assert AsEvent(BlockData(block)) + [] == AsEvent(BlockData(block));
  }

  lemma ColonlessDataDiffers(value: Bytes)
    requires value != [] && value[0] != SPACE && LF !in value && CR !in value && Utf8.Valid(value)
    ensures var lines := [DATA + [COLON] + value, DATA, []];
            && Frame(lines).events == [value]
            && Kept(StandardEvents(Stripped(lines), [])) == [value + [LF]]
  {
    var field := DATA + [COLON] + value;
    DataField(value);
    BareDataLine();
    FramedColonless(field, DATA, value);
    StandardColonless(field, DATA, value);
  }

  lemma FramedColonless(field: Bytes, bare: Bytes, value: Bytes)
    requires DataOf(StripCr(field)) == Some(value) && value != [] && !IsBlank(field) && Utf8.Valid(StripCr(field))
    requires DataOf(StripCr(bare)) == None && !IsBlank(bare) && Utf8.Valid(StripCr(bare))
    ensures Frame([field, bare, []]).events == [value]
  {
    FieldThenBare(field, bare, value);
    FrameOfOneBlock([field, bare]);
    assert [field, bare] + [[]] == [field, bare, []];
  }

  lemma StandardColonless(field: Bytes, bare: Bytes, value: Bytes)
    requires field != [] && Appends(field) == value + [LF] && StripCr(field) == field
    requires bare != [] && Appends(bare) == [LF] && StripCr(bare) == bare
    requires value != [] && value[0] != LF
    ensures Kept(StandardEvents(Stripped([field, bare, []]), [])) == [value + [LF]]
  {
    assert Stripped([field, bare, []]) == [field, bare, []];
    StandardOfThree(field, bare, value + [LF] + [LF]);
    KeptOne(value + [LF]);
  }

  // Two lines and a blank one.
  lemma StandardOfThree(first: Bytes, second: Bytes, buffer: Bytes)
    requires first != [] && second != [] && buffer == Appends(first) + Appends(second) && buffer != []
    ensures StandardEvents([first, second, []], []) == [ChopLf(buffer)]
  {
    var blank: Bytes := [];
    StandardEventsCons(first, [second, blank], []);
    StandardEventsCons(second, [blank], Appends(first));
    StandardOfBlank(buffer);
    assert [first] + [second, blank] == [first, second, blank] && [second] + [blank] == [second, blank];
    assert [] + Appends(first) == Appends(first);
  }

  lemma StandardOfBlank(buffer: Bytes)
    requires buffer != []
    ensures StandardEvents([[]], buffer) == [ChopLf(buffer)]
  {
    var blank: Bytes := [];
    StandardEventsCons(blank, [], buffer);
    assert [blank] + [] == [blank] && [ChopLf(buffer)] + [] == [ChopLf(buffer)];
  }

  lemma FieldThenBare(field: Bytes, bare: Bytes, value: Bytes)
    requires DataOf(StripCr(field)) == Some(value) && DataOf(StripCr(bare)) == None && value != []
    ensures BlockData([field, bare]) == value
  {
    ValueOne(field);
    ValueOne(bare);
    ValuesCons(field, [bare]);
    assert [field] + [bare] == [field, bare] && [value] + [] == [value];
  }

  lemma KeptOne(data: Bytes)
    requires data != [] && data[0] != LF
    ensures Kept([data]) == [data]
  {
    assert [data][1..] == [] && [data] + [] == [data];
  }

  lemma FieldParts(name: Bytes, value: Bytes)
    requires COLON !in name && value != []
    ensures var field := name + [COLON] + value;
            && Find(field, COLON) == |name| && field[..|name|] == name && field[|name| + 1..] == value
            && field[|field| - 1] == value[|value| - 1]
  {
    FindsFirst(name, COLON, value);
    AroundIs(name, COLON, value);
    Associates(name, [COLON], value);
  }

  lemma DataValue(field: Bytes, value: Bytes)
    requires Find(field, COLON) == |DATA| < |field| && field[..|DATA|] == DATA && field[|DATA| + 1..] == value
    requires value != [] && value[0] != SPACE
    ensures DataOf(field) == Some(value) && Appends(field) == value + [LF]
  {
  }

  lemma DataText(value: Bytes)
    requires Utf8.Valid(value)
    ensures Utf8.Valid(DATA + [COLON] + value)
  {
    BareDataLine();
    Utf8.ValidAroundAscii(DATA, COLON, value);
  }

  lemma DataField(value: Bytes)
    requires value != [] && value[0] != SPACE && CR !in value && Utf8.Valid(value)
    ensures var field := DATA + [COLON] + value;
            && StripCr(field) == field && Utf8.Valid(field) && DataOf(field) == Some(value)
            && Appends(field) == value + [LF]
  {
    FieldParts(DATA, value);
    DataValue(DATA + [COLON] + value, value);
    BareDataLine();
    DataText(value);
  }

  lemma BareCrDiffers(value: Bytes)
    requires value != [] && value[0] != SPACE && LF !in value && CR !in value && Utf8.Valid(value)
    ensures var stream := DATA + [COLON] + value + [CR, CR];
            Frame(Lines(stream)).events == [] && StandardData(stream) == [value]
  {
    var field := DATA + [COLON] + value;
    DataField(value);
    assert field[0] == DATA[0];
    BareCrStream(field, value);
  }

  lemma BareCrStream(field: Bytes, value: Bytes)
    requires LF !in field && CR !in field && field != [] && field[0] != BOM[0] && Appends(field) == value + [LF]
    ensures var stream := field + [CR, CR];
            Frame(Lines(stream)).events == [] && StandardData(stream) == [value]
  {
    var stream := field + [CR, CR];
    NoLfNoLines(stream);
    FrameWithoutBlank([]);
    assert stream[0] == field[0] && !(BOM <= stream);
    TwoBreaks(field, CR);
    StandardOfTwo(field, value + [LF]);
  }

  lemma ByteOrderMarkDiffers(value: Bytes)
    requires value != [] && value[0] != SPACE && LF !in value && CR !in value && Utf8.Valid(value)
    ensures var stream := BOM + (DATA + [COLON] + value + [LF, LF]);
            Frame(Lines(stream)).events == [] && StandardData(stream) == [value]
  {
    var field := DATA + [COLON] + value;
    DataField(value);
    FramedMark(field);
    StandardMark(field, value);
  }

  lemma MarkedField(field: Bytes)
    requires CR !in field && Utf8.Valid(field)
    ensures var marked := BOM + field;
            !IsBlank(marked) && StripCr(marked) == marked && Utf8.Valid(marked) && DataOf(marked) == None
  {
    var marked := BOM + field;
    assert Utf8.Head(BOM) == 3 && BOM[3..] == [] && Utf8.Valid([]);
    Utf8.ValidConcat(BOM, field);
    var colon := Find(marked, COLON);
    assert marked[0] == BOM[0];
    if colon > 0 {
      assert marked[..colon][0] == BOM[0];
    }
  }

  // One line and a blank one.
  lemma FramedLine(line: Bytes)
    requires LF !in line && !IsBlank(line) && Utf8.Valid(StripCr(line))
    ensures Frame(Lines(line + [LF, LF])) == Framing(AsEvent(BlockData([line])), false)
  {
    LinesCons(line, [LF]);
    LinesCons([], []);
    assert [] + [LF] + [] == [LF] && line + [LF, LF] == line + [LF] + [LF];
    FrameOfOneBlock([line]);
  }

  lemma FramedText(field: Bytes, value: Bytes)
    requires DataOf(field) == Some(value) && value != [] && StripCr(field) == field && LF !in field
    requires field != [] && Utf8.Valid(field)
    ensures Frame(Lines(field + [LF, LF])) == Framing([value], false)
  {
    FramedLine(field);
    ValueOne(field);
    assert DropLeadingEmpty([value]) == [value];
  }

  lemma FramedMark(field: Bytes)
    requires LF !in field && CR !in field && Utf8.Valid(field)
    ensures Frame(Lines(BOM + (field + [LF, LF]))).events == []
  {
    var marked := BOM + field;
    MarkedField(field);
    FramedLine(marked);
    Associates(BOM, field, [LF, LF]);
    ValueOne(marked);
    assert BlockData([marked]) == [];
  }

  lemma StandardMark(field: Bytes, value: Bytes)
    requires LF !in field && CR !in field && field != [] && Appends(field) == value + [LF]
    ensures StandardData(BOM + (field + [LF, LF])) == [value]
  {
    SameTail(BOM, StripBom(BOM + (field + [LF, LF])), field + [LF, LF]);
    TwoBreaks(field, LF);
    StandardOfTwo(field, value + [LF]);
  }

  lemma StandardOfTwo(first: Bytes, buffer: Bytes)
    requires first != [] && buffer == Appends(first) && buffer != []
    ensures StandardEvents([first, []], []) == [ChopLf(buffer)]
  {
    var blank: Bytes := [];
    StandardEventsCons(first, [blank], []);
    StandardOfBlank(buffer);
    assert [first] + [blank] == [first, blank] && [] + buffer == buffer;
  }

  lemma TwoBreaks(line: Bytes, b: byte)
    requires LF !in line && CR !in line && (b == LF || b == CR)
    ensures StandardLines(line + [b, b]) == [line, []]
  {
    var s := line + [b, b];
    FindBreakAt(line, [b, b]);
    assert s[|line|] == b && s[|line| + 1] == b && s[|line| + 1..] == [b] && s[..|line|] == line;
    assert FindBreak([b]) == 0 && [b][1..] == [] && [b][..0] == [];
    assert StandardLines([b]) == [[]] + StandardLines([]);
  }

  lemma {:induction false} FindBreakAt(line: Bytes, rest: Bytes)
    requires LF !in line && CR !in line && rest != [] && (rest[0] == LF || rest[0] == CR)
    ensures FindBreak(line + rest) == |line|
  {
    if line == [] {
      assert line + rest == rest;
    } else {
      assert (line + rest)[1..] == line[1..] + rest;
      FindBreakAt(line[1..], rest);
    }
  }
}
