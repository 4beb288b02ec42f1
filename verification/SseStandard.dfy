/**
 The event stream interpretation of section 9.2.6 of the WHATWG HTML Standard, and how the decoder's framing relates to
 it. On well-formed UTF-8 the standard's separators are single ASCII bytes, so it is stated on bytes.
 */
module SseStandard {
  import opened Wrappers
  import opened Bytes
  import opened Sequences
  import opened SseEvents
  import opened SseMachine
  import opened SseStream
  import Utf8

  // ---- the standard ----

  function FindBreak(s: Bytes): (i: nat)
    ensures i <= |s|
    ensures i < |s| ==> s[i] == LF || s[i] == CR
    ensures LF !in s[..i] && CR !in s[..i]
  {
    if s == [] || s[0] == LF || s[0] == CR then 0
    else
      assert s[..1 + FindBreak(s[1..])] == [s[0]] + s[1..][..FindBreak(s[1..])];
      1 + FindBreak(s[1..])
  }

  /** Lines end at CR LF, at LF or at CR. */
  function StandardLines(s: Bytes): seq<Bytes>
    decreases |s|
  {
    var i := FindBreak(s);
    if i == |s| then []
    else if s[i] == CR && i + 1 < |s| && s[i + 1] == LF then [s[..i]] + StandardLines(s[i + 2..])
    else [s[..i]] + StandardLines(s[i + 1..])
  }

  const BOM: Bytes := [0xef, 0xbb, 0xbf]

  function StripBom(s: Bytes): Bytes {
    if BOM <= s then s[3..] else s
  }

  /** What a line appends to the data buffer: a `data` field appends its value, empty without a colon, and an LF. */
  function Appends(line: Bytes): Bytes {
    var colon := Find(line, COLON);
    if line[..colon] != DATA then []
    else if colon < |line| then StripSpace(line[colon + 1..]) + [LF]
    else [LF]
  }

  function ChopLf(buffer: Bytes): Bytes {
    if buffer != [] && buffer[|buffer| - 1] == LF then buffer[..|buffer| - 1] else buffer
  }

  /** The data of the events dispatched, given what the buffer already holds. A line that starts with a colon has an
      empty field name and appends nothing. */
  function StandardEvents(lines: seq<Bytes>, buffer: Bytes): seq<Bytes> {
    if lines == [] then []
    else if lines[0] == [] then
      (if buffer == [] then [] else [ChopLf(buffer)]) + StandardEvents(lines[1..], [])
    else StandardEvents(lines[1..], buffer + Appends(lines[0]))
  }

  function StandardData(stream: Bytes): seq<Bytes> {
    StandardEvents(StandardLines(StripBom(stream)), [])
  }

  // ---- what the decoder keeps of it ----

  function StripLeadingLf(data: Bytes): Bytes {
    if data != [] && data[0] == LF then StripLeadingLf(data[1..]) else data
  }

  /** The standard's data without leading LFs; data that is nothing else is dropped. */
  function Kept(events: seq<Bytes>): seq<Bytes> {
    if events == [] then [] else AsEvent(StripLeadingLf(events[0])) + Kept(events[1..])
  }

  predicate OnlyLfOrCrLf(s: Bytes) {
    forall i | 0 <= i < |s| && s[i] == CR :: i + 1 < |s| && s[i + 1] == LF
  }

  function Stripped(lines: seq<Bytes>): (r: seq<Bytes>)
    ensures |r| == |lines| && forall i | 0 <= i < |lines| :: r[i] == StripCr(lines[i])
  {
    seq(|lines|, i requires 0 <= i < |lines| => StripCr(lines[i]))
  }

  predicate ValidLines(lines: seq<Bytes>) {
    forall i | 0 <= i < |lines| :: Utf8.Valid(StripCr(lines[i]))
  }

  // ---- lines ----

  lemma {:induction false} TerminatedCons(line: Bytes, lines: seq<Bytes>)
    ensures Terminated([line] + lines) == line + [LF] + Terminated(lines)
    decreases |lines|
  {
    var all := [line] + lines;
    if lines == [] {
      assert all == [line] && all[..0] == [];
      assert Terminated([]) + line + [LF] == line + [LF] + Terminated([]);
    } else {
      assert all[..|all| - 1] == [line] + lines[..|lines| - 1];
      TerminatedCons(line, lines[..|lines| - 1]);
      var last := lines[|lines| - 1];
      var front := Terminated(lines[..|lines| - 1]);
      assert line + [LF] + front + last + [LF] == line + [LF] + (front + last + [LF]);
    }
  }

  lemma Regroup(a: Bytes, b: Bytes, c: Bytes, d: Bytes)
    ensures a + b + c + d == a + b + (c + d)
  {
  }

  lemma LinesCons(line: Bytes, s: Bytes)
    requires LF !in line
    ensures Lines(line + [LF] + s) == [line] + Lines(s)
  {
    LinesAreExact(s);
    var lines, rest := Lines(s), Rest(s);
    var all := [line] + lines;
    TerminatedCons(line, lines);
    Regroup(line, [LF], Terminated(lines), rest);
    forall l <- all ensures LF !in l {
      if l != line {
        assert l in lines;
      }
    }
    LinesOfTerminated(all, rest);
  }

  lemma {:induction false} NoLfNoLines(s: Bytes)
    requires LF !in s
    ensures Lines(s) == []
    decreases |s|
  {
    if s != [] {
      NoLfNoLines(s[..|s| - 1]);
    }
  }

  lemma SuffixKeepsBreaks(s: Bytes, k: nat)
    requires OnlyLfOrCrLf(s) && k <= |s|
    ensures OnlyLfOrCrLf(s[k..])
  {
    var t := s[k..];
    forall i | 0 <= i < |t| && t[i] == CR ensures i + 1 < |t| && t[i + 1] == LF {
      assert s[k + i] == CR;
    }
  }

  lemma SplitOne(s: Bytes, i: nat)
    requires i < |s|
    ensures s == s[..i] + [s[i]] + s[i + 1..]
  {
  }

  lemma SplitTwo(s: Bytes, i: nat)
    requires i + 1 < |s|
    ensures s == s[..i + 1] + [s[i + 1]] + s[i + 2..] && s[..i + 1] == s[..i] + [s[i]]
  {
  }

  lemma StripCrOf(line: Bytes)
    ensures StripCr(line + [CR]) == line && (CR !in line ==> StripCr(line) == line)
  {
  }

  // The first line, as the decoder cuts it.
  lemma FirstLine(s: Bytes) returns (line: Bytes, rest: Bytes)
    requires OnlyLfOrCrLf(s) && FindBreak(s) < |s|
    ensures LF !in line && s == line + [LF] + rest && |rest| < |s| && OnlyLfOrCrLf(rest)
    ensures StandardLines(s) == [StripCr(line)] + StandardLines(rest)
  {
    var i := FindBreak(s);
    StripCrOf(s[..i]);
    if s[i] == CR {
      SplitTwo(s, i);
      line, rest := s[..i + 1], s[i + 2..];
      SuffixKeepsBreaks(s, i + 2);
    } else {
      SplitOne(s, i);
      line, rest := s[..i], s[i + 1..];
      SuffixKeepsBreaks(s, i + 1);
    }
  }

  lemma ValidStripCr(line: Bytes)
    requires Utf8.Valid(line)
    ensures Utf8.Valid(StripCr(line))
  {
    if line != [] && line[|line| - 1] == CR {
      var front := line[..|line| - 1];
      assert line == front + [CR];
      Utf8.ValidBeforeAscii(front, CR);
    }
  }

  lemma StrippedCons(line: Bytes, lines: seq<Bytes>)
    ensures Stripped([line] + lines) == [StripCr(line)] + Stripped(lines)
    ensures ValidLines(lines) && Utf8.Valid(StripCr(line)) ==> ValidLines([line] + lines)
  {
  }

  lemma {:induction false} SameLines(s: Bytes)
    requires OnlyLfOrCrLf(s)
    ensures StandardLines(s) == Stripped(Lines(s))
    ensures Utf8.Valid(s) ==> ValidLines(Lines(s))
    decreases |s|
  {
    if FindBreak(s) == |s| {
      assert s[..|s|] == s;
      NoLfNoLines(s);
    } else {
      var line, rest := FirstLine(s);
      LinesCons(line, rest);
      SameLines(rest);
      StrippedCons(line, Lines(rest));
      if Utf8.Valid(s) {
        Utf8.ValidAroundAscii(line, LF, rest);
        ValidStripCr(line);
      }
    }
  }

  // ---- one block ----

  function More(line: Bytes): seq<Bytes> {
    if DataOf(StripCr(line)).Some? then [DataOf(StripCr(line)).value] else []
  }

  lemma ValuesSnoc(front: seq<Bytes>, last: Bytes)
    ensures Values(front + [last]) == Values(front) + More(last)
  {
    assert (front + [last])[..|front|] == front;
  }

  lemma ValuesConsSnoc(line: Bytes, front: seq<Bytes>, last: Bytes)
    requires Values([line] + front) == Values([line]) + Values(front)
    ensures Values([line] + (front + [last])) == Values([line]) + Values(front + [last])
  {
    ValuesSnoc(front, last);
    ValuesSnoc([line] + front, last);
    Associates([line], front, [last]);
    Associates(Values([line]), Values(front), More(last));
  }

  lemma {:induction false} ValuesCons(line: Bytes, block: seq<Bytes>)
    ensures Values([line] + block) == Values([line]) + Values(block)
    decreases |block|
  {
    if block == [] {
      assert [line] + block == [line] && Values(block) == [];
    } else {
      var front, last := block[..|block| - 1], block[|block| - 1];
      assert block == front + [last];
      ValuesCons(line, front);
      ValuesConsSnoc(line, front, last);
    }
  }

  lemma ValueOne(line: Bytes)
    ensures Values([line]) == More(line)
  {
    assert [line][..0] == [] && Values([]) == [];
  }

  lemma {:induction false} TerminatedAppend(a: seq<Bytes>, b: seq<Bytes>)
    ensures Terminated(a + b) == Terminated(a) + Terminated(b)
    decreases |b|
  {
    if b == [] {
      assert a + b == a;
    } else {
      assert (a + b)[..|a + b| - 1] == a + b[..|b| - 1];
      TerminatedAppend(a, b[..|b| - 1]);
    }
  }

  /** What the standard collects from a line: unlike the decoder, an empty value from a `data` line without a colon. */
  function StandardMore(line: Bytes): seq<Bytes> {
    if StripCr(line) == DATA then [[]] else More(line)
  }

  function StandardValues(block: seq<Bytes>): seq<Bytes> {
    if block == [] then [] else StandardValues(block[..|block| - 1]) + StandardMore(block[|block| - 1])
  }

  lemma StandardValuesSnoc(front: seq<Bytes>, last: Bytes)
    ensures StandardValues(front + [last]) == StandardValues(front) + StandardMore(last)
  {
    assert (front + [last])[..|front|] == front;
  }

  lemma {:induction false} StandardValuesCons(line: Bytes, block: seq<Bytes>)
    ensures StandardValues([line] + block) == StandardMore(line) + StandardValues(block)
    decreases |block|
  {
    if block == [] {
      assert [line] + block == [] + [line];
      StandardValuesSnoc([], line);
    } else {
      var front, last := block[..|block| - 1], block[|block| - 1];
      assert block == front + [last];
      StandardValuesCons(line, front);
      Associates([line], front, [last]);
      StandardValuesSnoc([line] + front, last);
      Associates(StandardMore(line), StandardValues(front), StandardMore(last));
    }
  }

  lemma AppendsIsValue(line: Bytes)
    ensures Appends(StripCr(line)) == Terminated(StandardMore(line))
  {
    var s := StripCr(line);
    var colon := Find(s, COLON);
    if colon == |s| {
      assert s[..colon] == s;
    }
    if s == DATA {
      BareDataLine();
    }
    var values := StandardMore(line);
    if values != [] {
      assert values[..0] == [] && [] + values[0] == values[0];
      assert Terminated(values) == Terminated([]) + values[0] + [LF];
    }
  }

  lemma StandardEventsCons(line: Bytes, lines: seq<Bytes>, buffer: Bytes)
    ensures StandardEvents([line] + lines, buffer) ==
            if line == [] then (if buffer == [] then [] else [ChopLf(buffer)]) + StandardEvents(lines, [])
            else StandardEvents(lines, buffer + Appends(line))
  {
    assert ([line] + lines)[1..] == lines;
  }

  lemma StrippedConcat(a: seq<Bytes>, b: seq<Bytes>)
    ensures Stripped(a + b) == Stripped(a) + Stripped(b)
  {
  }

  lemma StrippedOne(line: Bytes)
    ensures Stripped([line]) == [StripCr(line)]
  {
  }

  lemma StrippedFirst(line: Bytes, more: seq<Bytes>, rest: seq<Bytes>)
    ensures Stripped([line] + more) + rest == [StripCr(line)] + (Stripped(more) + rest)
  {
  }

  lemma BufferGrows(line: Bytes, more: seq<Bytes>, buffer: Bytes)
    ensures buffer + Terminated(StandardValues([line] + more))
            == buffer + Appends(StripCr(line)) + Terminated(StandardValues(more))
  {
    AppendsIsValue(line);
    StandardValuesCons(line, more);
    TerminatedAppend(StandardMore(line), StandardValues(more));
    Associates(buffer, Terminated(StandardMore(line)), Terminated(StandardValues(more)));
  }

  lemma LineFillsBuffer(line: Bytes, more: seq<Bytes>, rest: seq<Bytes>, buffer: Bytes)
    requires !IsBlank(line)
    ensures StandardEvents(Stripped([line] + more) + rest, buffer)
            == StandardEvents(Stripped(more) + rest, buffer + Appends(StripCr(line)))
  {
    StrippedFirst(line, more, rest);
    StandardEventsCons(StripCr(line), Stripped(more) + rest, buffer);
  }

  // The lines of a block up to its end fill the buffer with their values.
  lemma {:induction false} BlockFillsBuffer(block: seq<Bytes>, rest: seq<Bytes>, buffer: Bytes)
    requires forall line <- block :: !IsBlank(line)
    ensures StandardEvents(Stripped(block) + rest, buffer)
            == StandardEvents(rest, buffer + Terminated(StandardValues(block)))
    decreases |block|
  {
    if block == [] {
      assert Stripped(block) + rest == rest && buffer + Terminated([]) == buffer;
    } else {
      var line, more := block[0], block[1..];
      assert block == [line] + more;
      LineFillsBuffer(line, more, rest, buffer);
      BlockFillsBuffer(more, rest, buffer + Appends(StripCr(line)));
      BufferGrows(line, more, buffer);
    }
  }

  lemma {:induction false} ChoppedIsJoin(values: seq<Bytes>)
    requires values != []
    ensures Terminated(values) == Join(values) + [LF] && ChopLf(Terminated(values)) == Join(values)
    decreases |values|
  {
    var front := values[..|values| - 1];
    if front != [] {
      ChoppedIsJoin(front);
    } else {
      assert Terminated(front) + values[0] == values[0];
    }
  }

  lemma {:induction false} JoinCons(value: Bytes, values: seq<Bytes>)
    requires values != []
    ensures Join([value] + values) == value + [LF] + Join(values)
    decreases |values|
  {
    var all := [value] + values;
    assert all[..|all| - 1] == [value] + values[..|values| - 1];
    if |values| > 1 {
      JoinCons(value, values[..|values| - 1]);
    } else {
      assert [value] + values[..0] == [value];
    }
  }

  lemma {:induction false} LeadingLfsAreEmptyValues(values: seq<Bytes>)
    requires forall value <- values :: LF !in value
    ensures StripLeadingLf(Join(values)) == Join(DropLeadingEmpty(values))
    decreases |values|
  {
    if values != [] {
      assert values == [values[0]] + values[1..];
      if values[1..] != [] {
        JoinCons(values[0], values[1..]);
      }
      if values[0] == [] {
        LeadingLfsAreEmptyValues(values[1..]);
        if values[1..] != [] {
          assert Join(values)[1..] == Join(values[1..]);
        }
      } else {
        assert Join(values)[0] == values[0][0] && values[0][0] in values[0];
      }
    }
  }

  lemma {:induction false} ValuesHaveNoLf(block: seq<Bytes>)
    requires forall line <- block :: LF !in line
    ensures forall value <- Values(block) + StandardValues(block) :: LF !in value
    decreases |block|
  {
    if block != [] {
      ValuesHaveNoLf(block[..|block| - 1]);
      ValueHasNoLf(block[|block| - 1]);
    }
  }

  lemma ValueHasNoLf(line: Bytes)
    requires LF !in line
    ensures var value := DataOf(StripCr(line)); value.Some? ==> LF !in value.value
  {
    var value := DataOf(StripCr(line));
    if value.Some? {
      forall i | 0 <= i < |value.value| ensures value.value[i] in line {
        var s := StripCr(line);
        var tail := s[Find(s, COLON) + 1..];
        assert value.value[i] in tail;
        assert forall b <- tail :: b in s;
        assert forall b <- s :: b in line;
      }
    }
  }

  // ---- the whole stream ----

  /** The standard's events as blocks of lines: what is kept of the data of each block that a blank line ends. */
  function StandardFrames(lines: seq<Bytes>): seq<Bytes>
    decreases |lines|
  {
    var k := FirstBlank(lines);
    if k == |lines| then []
    else AsEvent(Join(DropLeadingEmpty(StandardValues(lines[..k])))) + StandardFrames(lines[k + 1..])
  }

  lemma StandardFramesAt(lines: seq<Bytes>, block: seq<Bytes>, rest: seq<Bytes>)
    requires var k := FirstBlank(lines); k < |lines| && block == lines[..k] && rest == lines[k + 1..]
    ensures StandardFrames(lines) == AsEvent(Join(DropLeadingEmpty(StandardValues(block)))) + StandardFrames(rest)
  {
  }

  lemma NoBlankNoEvents(lines: seq<Bytes>)
    requires FirstBlank(lines) == |lines|
    ensures StandardEvents(Stripped(lines), []) == [] && StandardFrames(lines) == []
  {
    assert Stripped(lines) + [] == Stripped(lines);
    BlockFillsBuffer(lines, [], []);
  }

  /** The lines around the first blank one. */
  lemma AroundBlank(lines: seq<Bytes>, k: nat)
    requires k == FirstBlank(lines) < |lines|
    ensures lines == lines[..k] + ([lines[k]] + lines[k + 1..])
    ensures forall line | line in lines[..k] || line in lines[k + 1..] :: line in lines
    ensures forall line <- lines[..k] :: !IsBlank(line)
  {
    Around(lines, k);
  }

  lemma KeptAtBlank(lines: seq<Bytes>, block: seq<Bytes>, blank: Bytes, rest: seq<Bytes>)
    requires FirstBlank(lines) == |block| && lines == block + ([blank] + rest)
    requires IsBlank(blank) && forall line <- block :: LF !in line && !IsBlank(line)
    requires Kept(StandardEvents(Stripped(rest), [])) == StandardFrames(rest)
    ensures Kept(StandardEvents(Stripped(lines), [])) == StandardFrames(lines)
  {
    AroundIs(block, blank, rest);
    StandardFramesAt(lines, block, rest);
    FirstBlockIsKept(block, blank, rest);
  }

  lemma {:induction false} KeptIsFrames(lines: seq<Bytes>)
    requires forall line <- lines :: LF !in line
    ensures Kept(StandardEvents(Stripped(lines), [])) == StandardFrames(lines)
    decreases |lines|
  {
    var k := FirstBlank(lines);
    if k == |lines| {
      NoBlankNoEvents(lines);
    } else {
      AroundBlank(lines, k);
      KeptIsFrames(lines[k + 1..]);
      KeptAtBlank(lines, lines[..k], lines[k], lines[k + 1..]);
    }
  }

  lemma FirstBlockIsKept(block: seq<Bytes>, blank: Bytes, rest: seq<Bytes>)
    requires IsBlank(blank) && forall line <- block :: LF !in line && !IsBlank(line)
    ensures Kept(StandardEvents(Stripped(block + ([blank] + rest)), []))
            == AsEvent(Join(DropLeadingEmpty(StandardValues(block)))) + Kept(StandardEvents(Stripped(rest), []))
  {
    StrippedConcat(block, [blank] + rest);
    StrippedConcat([blank], rest);
    StrippedOne(blank);
    BlockFillsBuffer(block, [[]] + Stripped(rest), []);
    BlockIsKept(block, Stripped(rest));
  }

  lemma BlockIsKept(block: seq<Bytes>, rest: seq<Bytes>)
    requires forall line <- block :: LF !in line
    ensures Kept(StandardEvents([[]] + rest, [] + Terminated(StandardValues(block))))
            == AsEvent(Join(DropLeadingEmpty(StandardValues(block)))) + Kept(StandardEvents(rest, []))
  {
    var values := StandardValues(block);
    assert [] + Terminated(values) == Terminated(values);
    StandardEventsCons([], rest, Terminated(values));
    var more := StandardEvents(rest, []);
    if values != [] {
      ChoppedIsJoin(values);
      ValuesHaveNoLf(block);
      LeadingLfsAreEmptyValues(values);
      assert ([Join(values)] + more)[1..] == more;
    } else {
      assert [] + more == more;
    }
  }

  lemma BareDataLine()
    ensures StripCr(DATA) == DATA && DataOf(DATA) == None && Appends(DATA) == [LF] && Utf8.Valid(DATA)
  {
    assert DATA[1..] == [97, 116, 97] && DATA[1..][1..] == [116, 97] && DATA[1..][1..][1..] == [97];
    assert COLON !in DATA;
  }
}
