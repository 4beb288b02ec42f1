/** How a pack is cut into lines and rules, and why one is refused, spelled out on its bytes. */
module SemgrepLines {
  import opened Wrappers
  import opened Bytes
  import opened Sequences
  import opened Sorting
  import opened SemgrepPacks

  // ---- lines ----

  /** A line holds no line break but one at its end: LF, CR, or CR LF. */
  predicate IsOneLine(line: Bytes) {
    && line != []
    && forall i | 0 <= i < |line| - 1 :: line[i] != 10 && (line[i] == 13 ==> i == |line| - 2 && line[|line| - 1] == 10)
  }

  lemma {:induction false} LineIffOne(line: Bytes)
    ensures IsLine(line) ==> IsOneLine(line)
    ensures IsOneLine(line) && (EndsBreak(line) || (LF !in line && CR !in line)) ==> IsLine(line)
    decreases |line|
  {
    if |line| > 1 {
      var rest := line[1..];
      LineIffOne(rest);
      assert forall i | 0 <= i < |rest| - 1 :: rest[i] == line[i + 1];
      if IsLine(line) && line[0] != LF && line[0] != CR {
        forall i | 0 <= i < |line| - 1
          ensures line[i] != LF && (line[i] == CR ==> i == |line| - 2 && line[|line| - 1] == LF)
        {
          if i > 0 {
            assert line[i] == rest[i - 1] && rest[|rest| - 1] == line[|line| - 1];
          }
        }
      }
      if IsOneLine(line) && line[0] != CR {
        forall i | 0 <= i < |rest| - 1
          ensures rest[i] != LF && (rest[i] == CR ==> i == |rest| - 2 && rest[|rest| - 1] == LF)
        {
          assert line[i + 1] == rest[i];
        }
        assert EndsBreak(line) ==> EndsBreak(rest);
        assert forall b <- rest :: b in line;
      }
    }
  }

  // Between two lines: after a line break, and not inside CR LF.
  predicate Cut(before: Bytes, line: Bytes) {
    && before != [] && line != []
    && (before[|before| - 1] == 10 || before[|before| - 1] == 13)
    && !(before[|before| - 1] == 13 && line[0] == 10)
  }

  /** The lines are the text cut after every line break and nowhere else. */
  lemma LinesAreCut(s: Bytes)
    ensures Concat(SplitLines(s)) == s
    ensures forall i | 0 <= i < |SplitLines(s)| :: IsOneLine(SplitLines(s)[i])
    ensures forall i | 0 < i < |SplitLines(s)| :: Cut(SplitLines(s)[i - 1], SplitLines(s)[i])
  {
    SplitIsProper(s);
    var lines := SplitLines(s);
    forall i | 0 <= i < |lines| ensures IsOneLine(lines[i]) {
      LineIffOne(lines[i]);
    }
    forall i | 0 < i < |lines| ensures Cut(lines[i - 1], lines[i]) {
      assert Seam(lines[i - 1], lines[i]);
    }
  }

  // ---- white space ----

  // Tab, LF, VT, FF, CR and space.
  predicate White(b: byte) {
    b in [9, 10, 11, 12, 13, 32]
  }

  predicate AllSpace(s: Bytes) {
    forall i | 0 <= i < |s| :: White(s[i])
  }

  lemma WhiteIff(b: byte)
    ensures White(b) <==> IsSpace(b)
  {
  }

  lemma {:induction false} StripStartIs(s: Bytes) returns (before: Bytes)
    ensures s == before + StripStart(s) && AllSpace(before)
    ensures StripStart(s) != [] ==> !White(StripStart(s)[0])
    decreases |s|
  {
    before := [];
    if s != [] {
      WhiteIff(s[0]);
      if IsSpace(s[0]) {
        var rest := StripStartIs(s[1..]);
        before := [s[0]] + rest;
        Halves(s, 1);
        Associates([s[0]], rest, StripStart(s[1..]));
      }
    }
  }

  lemma {:induction false} StripEndIs(s: Bytes) returns (after: Bytes)
    ensures s == StripEnd(s) + after && AllSpace(after)
    ensures StripEnd(s) != [] ==> !White(StripEnd(s)[|StripEnd(s)| - 1])
    decreases |s|
  {
    after := [];
    if s != [] {
      var n := |s| - 1;
      WhiteIff(s[n]);
      if IsSpace(s[n]) {
        var rest := StripEndIs(s[..n]);
        after := rest + [s[n]];
        Halves(s, n);
        Associates(StripEnd(s[..n]), rest, [s[n]]);
      }
    }
  }

  /** Stripping takes the white space at both ends away and nothing else. */
  lemma StripIs(s: Bytes) returns (before: Bytes, after: Bytes)
    ensures s == before + Strip(s) + after && AllSpace(before) && AllSpace(after)
    ensures Strip(s) != [] ==> !White(Strip(s)[0]) && !White(Strip(s)[|Strip(s)| - 1])
  {
    before := StripStartIs(s);
    var inner := StripStart(s);
    after := StripEndIs(inner);
    Associates(before, Strip(s), after);
    if Strip(s) != [] {
      assert (Strip(s) + after)[0] == Strip(s)[0] == inner[0];
    }
  }

  lemma EmptyIffSpace(s: Bytes)
    ensures Strip(s) == [] <==> AllSpace(s)
  {
    var before, after := StripIs(s);
    if Strip(s) == [] {
      assert s == before + after;
    } else {
      assert s[|before|] == Strip(s)[0];
    }
  }

  // ---- refusals ----

  // "- id: "
  predicate Starts(line: Bytes) {
    |line| >= 6 && line[..6] == [45, 32, 105, 100, 58, 32]
  }

  // Something other than white space before the first rule.
  predicate Stray(lines: seq<Bytes>, k: nat)
    requires k < |lines|
  {
    !AllSpace(lines[k]) && forall j | 0 <= j <= k :: !Starts(lines[j])
  }

  // A rule that is not named.
  predicate Unnamed(line: Bytes) {
    Starts(line) && AllSpace(line[6..])
  }

  predicate Refused(lines: seq<Bytes>, k: nat)
    requires k < |lines|
  {
    Stray(lines, k) || Unnamed(lines[k])
  }

  lemma StartsIff(line: Bytes)
    ensures StartsRule(line) <==> Starts(line)
    ensures Starts(line) ==> (IdOf(line) == [] <==> Unnamed(line))
  {
    if Starts(line) {
      EmptyIffSpace(line[6..]);
    }
  }

  lemma {:induction false} ScanAccepts(lines: seq<Bytes>)
    requires forall k | 0 <= k < |lines| :: !Refused(lines, k)
    ensures Scan(NOTHING, lines).Ok?
    ensures var p := Scan(NOTHING, lines).value;
            && (p.current.None? ==> p.done == [])
            && (p.current.None? <==> forall k | 0 <= k < |lines| :: !Starts(lines[k]))
    decreases |lines|
  {
    if lines != [] {
      var n := |lines| - 1;
      var front, line := lines[..n], lines[n];
      assert forall k | 0 <= k < n :: front[k] == lines[k];
      forall k | 0 <= k < n ensures !Refused(front, k) {
        assert !Refused(lines, k);
      }
      ScanAccepts(front);
      assert !Refused(lines, n);
      StartsIff(line);
      EmptyIffSpace(line);
      if Scan(NOTHING, front).value.current.None? {
        assert forall k | 0 <= k < n :: !Starts(lines[k]);
      } else {
        assert exists k | 0 <= k < n :: Starts(lines[k]);
      }
    }
  }

  lemma ScanRefuses(lines: seq<Bytes>, k: nat)
    requires k < |lines| && Refused(lines, k) && forall j | 0 <= j < k :: !Refused(lines, j)
    ensures Scan(NOTHING, lines) == Err(if Starts(lines[k]) then BlankId else ContentBeforeRules)
  {
    var front, line := lines[..k], lines[k];
    forall j | 0 <= j < k ensures !Refused(front, j) {
      RefusedInFront(lines, k, j);
    }
    RefusedAfter(lines, k);
    LineStops(front, line);
    PrefixIs(lines, k);
    ScanStaysErr(NOTHING, lines, k + 1);
  }

  lemma PrefixIs(lines: seq<Bytes>, k: nat)
    requires k < |lines|
    ensures lines[..k + 1] == lines[..k] + [lines[k]]
  {
  }

  // The line with nothing but what comes before it.
  predicate Stops(front: seq<Bytes>, line: Bytes) {
    Unnamed(line) || (!Starts(line) && !AllSpace(line) && forall j | 0 <= j < |front| :: !Starts(front[j]))
  }

  lemma RefusedAfter(lines: seq<Bytes>, k: nat)
    requires k < |lines| && Refused(lines, k)
    ensures Stops(lines[..k], lines[k])
  {
    assert forall j | 0 <= j < k :: lines[..k][j] == lines[j];
  }

  lemma RefusedInFront(lines: seq<Bytes>, k: nat, j: nat)
    requires j < k <= |lines|
    ensures Refused(lines[..k], j) <==> Refused(lines, j)
  {
    assert forall i | 0 <= i < k :: lines[..k][i] == lines[i];
  }

  lemma LineStops(front: seq<Bytes>, line: Bytes)
    requires forall j | 0 <= j < |front| :: !Refused(front, j)
    requires Stops(front, line)
    ensures Scan(NOTHING, front + [line]) == Err(if Starts(line) then BlankId else ContentBeforeRules)
  {
    ScanAccepts(front);
    StartsIff(line);
    EmptyIffSpace(line);
    assert (front + [line])[..|front|] == front;
  }

  lemma {:induction false} ScanErrors(lines: seq<Bytes>)
    ensures Scan(NOTHING, lines).Err? ==> Scan(NOTHING, lines).error in {BlankId, ContentBeforeRules}
    decreases |lines|
  {
    if lines != [] {
      ScanErrors(lines[..|lines| - 1]);
    }
  }

  /** A pack is refused before its rules are looked at if it does not start with "rules:" and a line feed, and then if
      it is larger than 8 MiB. */
  lemma OtherTextIsRefused(content: Bytes)
    ensures RulesOf(content) == Err(NotRules)
            <==> !(|content| >= 7 && content[..7] == [114, 117, 108, 101, 115, 58, 10])
    ensures RulesOf(content) == Err(TooLarge)
            <==> |content| >= 7 && content[..7] == [114, 117, 108, 101, 115, 58, 10] && |content| > 8388608
  {
    ScanErrors(Body(content));
  }

  /** The first line that is refused decides how the pack is refused. */
  lemma LineIsRefused(content: Bytes, rest: Bytes, k: nat)
    requires content == HEADER + rest && |content| <= 8388608 && k < |SplitLines(rest)|
    requires Refused(SplitLines(rest), k) && forall j | 0 <= j < k :: !Refused(SplitLines(rest), j)
    ensures RulesOf(content) == Err(if Starts(SplitLines(rest)[k]) then BlankId else ContentBeforeRules)
  {
    BodyAfterHeader(rest);
    ScanRefuses(SplitLines(rest), k);
  }

  /** Where no line is refused, the pack has no rules exactly if no line starts one, and is refused besides exactly if
      two of its rules have one identifier. */
  lemma LinesAreTaken(content: Bytes, rest: Bytes)
    requires content == HEADER + rest && |content| <= 8388608
    requires forall k | 0 <= k < |SplitLines(rest)| :: !Refused(SplitLines(rest), k)
    ensures RulesOf(content) == Err(NoRules) <==> forall line <- SplitLines(rest) :: !Starts(line)
    ensures RulesOf(content).Err? ==> RulesOf(content).error in {NoRules, DuplicateIds}
    ensures RulesOf(content) == Err(DuplicateIds)
            <==> && RulesOfLines(SplitLines(rest)).Ok?
                 && exists a, b :: TwoRules(RulesOfLines(SplitLines(rest)).value, a, b) && a.id == b.id
  {
    var lines := SplitLines(rest);
    BodyAfterHeader(rest);
    ScanAccepts(lines);
    assert (forall line <- lines :: !Starts(line)) <==> forall k | 0 <= k < |lines| :: !Starts(lines[k]);
    if RulesOfLines(lines).Ok? {
      TwoAlike(RulesOfLines(lines).value);
    }
  }

  predicate TwoRules(rules: seq<Rule>, a: Rule, b: Rule) {
    exists i, j :: 0 <= i < j < |rules| && rules[i] == a && rules[j] == b
  }

  lemma TwoAlike(rules: seq<Rule>)
    ensures DistinctIds(rules) <==> forall a, b | TwoRules(rules, a, b) :: a.id != b.id
  {
    if !DistinctIds(rules) {
      var i, j :| 0 <= i < j < |rules| && rules[i].id == rules[j].id;
      assert TwoRules(rules, rules[i], rules[j]);
    }
  }

  // The identifiers of two rules in the order of their bytes, a prefix first.
  predicate InByteOrder(a: Rule, b: Rule) {
    Alphabetical(a.id, b.id, (x: byte) => x as int)
  }

  /** The canonical form lists the rules in the order of the bytes of their identifiers. */
  lemma CanonicalIsInByteOrder(rules: seq<Rule>)
    ensures multiset(Sort(rules, IdLe)) == multiset(rules)
    ensures Sorted(Sort(rules, IdLe), InByteOrder)
  {
    IdOrder();
    SortSorts(rules, IdLe);
    var sorted := Sort(rules, IdLe);
    forall i, j | 0 <= i < j < |sorted| ensures InByteOrder(sorted[i], sorted[j]) {
      LexIsAlphabetical(sorted[i].id, sorted[j].id, Rank);
    }
  }
}
