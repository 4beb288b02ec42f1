/**
 The canonical form of a pack that does not end in a line break. Sorting can move its last rule to the front, where
 it is read together with the rule that then follows it.
 */
module SemgrepMerged {
  import opened Wrappers
  import opened Bytes
  import opened Sequences
  import opened Sorting
  import opened SemgrepPacks

  // ---- the canonical form of any pack ----

  /** A rule without a line break at its end and the one after it are read as one. */
  function Joined(first: Rule, second: Rule): Rule {
    var text := first.text + second.text;
    var lines := SplitLines(text);
    Rule(if lines != [] && StartsRule(lines[0]) then IdOf(lines[0]) else [], text)
  }

  /** What rules put one after the other are read as, where at most one of them lacks a line break. */
  function Merged(rules: seq<Rule>): seq<Rule> {
    if |rules| < 2 then rules
    else if EndsBreak(rules[0].text) then [rules[0]] + Merged(rules[1..])
    else [Joined(rules[0], rules[1])] + rules[2..]
  }

  predicate OneOpen(rules: seq<Rule>) {
    forall i, j | 0 <= i < j < |rules| :: EndsBreak(rules[i].text) || EndsBreak(rules[j].text)
  }

  lemma {:induction false} OpenLine(a: Bytes, b: Bytes)
    requires a != [] && !EndsBreak(a) && LineLength(a) == |a|
    ensures LineLength(a + b) == |a| + LineLength(b)
    decreases |a|
  {
    assert (a + b)[1..] == a[1..] + b && (a + b)[0] == a[0];
    if |a| > 1 {
      OpenLine(a[1..], b);
    } else {
      assert a[1..] + b == b;
    }
  }

  lemma SplitOpenLine(a: Bytes, b: Bytes)
    requires a != [] && !EndsBreak(a) && LineLength(a) == |a| && b != []
    ensures SplitLines(a) == [a] && SplitLines(b) != []
    ensures SplitLines(a + b) == [a + SplitLines(b)[0]] + SplitLines(b)[1..]
  {
    OpenLine(a, b);
    OpenSlices(a, b, LineLength(b));
    OneLine(a);
  }

  /** Without a line break between them the last line of the one and the first of the other are one line. */
  lemma {:induction false} SplitOpen(a: Bytes, b: Bytes)
    requires a != [] && !EndsBreak(a) && b != []
    ensures SplitLines(a) != [] && SplitLines(b) != []
    ensures var first, second := SplitLines(a), SplitLines(b);
            SplitLines(a + b) == first[..|first| - 1] + [first[|first| - 1] + second[0]] + second[1..]
    decreases |a|
  {
    var n := LineLength(a);
    if n == |a| {
      SplitOpenLine(a, b);
    } else {
      FirstLine(a);
      Halves(a, n);
      SplitOpen(a[n..], b);
      OpenCons(a[..n], a[n..], b);
    }
  }

  lemma OpenCons(line: Bytes, rest: Bytes, b: Bytes)
    requires IsLine(line) && rest != [] && Seam(line, rest) && b != []
    requires SplitLines(rest) != [] && SplitLines(b) != []
    requires var first, second := SplitLines(rest), SplitLines(b);
             SplitLines(rest + b) == first[..|first| - 1] + [first[|first| - 1] + second[0]] + second[1..]
    ensures SplitLines(line + rest) != []
    ensures var first, second := SplitLines(line + rest), SplitLines(b);
            SplitLines(line + rest + b) == first[..|first| - 1] + [first[|first| - 1] + second[0]] + second[1..]
  {
    SplitFirst(line, rest);
    assert (rest + b)[0] == rest[0];
    SplitFirst(line, rest + b);
    Associates(line, rest, b);
    FrontOfCons(line, SplitLines(rest), SplitLines(b));
  }

  lemma OpenSlices(a: Bytes, b: Bytes, k: nat)
    requires k <= |b|
    ensures (a + b)[..|a| + k] == a + b[..k] && (a + b)[|a| + k..] == b[k..]
  {
  }

  lemma FrontOfCons(line: Bytes, first: seq<Bytes>, second: seq<Bytes>)
    requires first != [] && second != []
    ensures var all := [line] + first;
            [line] + (first[..|first| - 1] + [first[|first| - 1] + second[0]] + second[1..])
            == all[..|all| - 1] + [all[|all| - 1] + second[0]] + second[1..]
  {
    var all := [line] + first;
    assert all[..|all| - 1] == [line] + first[..|first| - 1] && all[|all| - 1] == first[|first| - 1];
  }

  // What starts no rule starts none with a rule appended, for no proper part of the start of a rule is followed by it.
  lemma StillNoStart(line: Bytes, more: Bytes)
    requires line != [] && !StartsRule(line) && more != [] && more[0] == RULE_START[0]
    ensures !StartsRule(line + more)
  {
    var s := line + more;
    assert forall k | 0 < k < |RULE_START| :: RULE_START[k] != RULE_START[0];
    if |line| < |RULE_START| {
      assert s[|line|] == RULE_START[0];
      assert |s| >= |RULE_START| ==> s[..|RULE_START|][|line|] == s[|line|];
    } else {
      assert s[..|RULE_START|] == line[..|RULE_START|];
    }
  }

  lemma StillStarts(line: Bytes, more: Bytes)
    requires StartsRule(line)
    ensures StartsRule(line + more) && (line + more)[|RULE_START|..] == line[|RULE_START|..] + more
  {
    assert (line + more)[..|RULE_START|] == line[..|RULE_START|];
  }

  predicate IsBlank(s: Bytes) {
    forall b <- s :: IsSpace(b)
  }

  lemma {:induction false} StripStartOf(s: Bytes, more: Bytes)
    ensures !IsBlank(s) ==> StripStart(s) != [] && StripStart(s + more) == StripStart(s) + more
    ensures IsBlank(s) ==> StripStart(s) == []
    ensures StripStart(s) != [] ==> !IsSpace(StripStart(s)[0])
  {
    if s != [] {
      assert s == [s[0]] + s[1..];
      if IsSpace(s[0]) {
        StripStartOf(s[1..], more);
        assert (s + more)[1..] == s[1..] + more;
      }
    }
  }

  // Something that is no space keeps everything before it.
  lemma {:induction false} StripEndKeeps(s: Bytes, more: Bytes)
    requires !IsBlank(more)
    ensures s < StripEnd(s + more)
    decreases |more|
  {
    var all := s + more;
    var front, last := more[..|more| - 1], more[|more| - 1];
    assert more == front + [last] && all[|all| - 1] == last;
    if IsSpace(last) {
      assert all[..|all| - 1] == s + front;
      StripEndKeeps(s, front);
    } else {
      assert StripEnd(all) == all;
    }
  }

  lemma {:induction false} StripEndIsPrefix(s: Bytes)
    ensures StripEnd(s) <= s
    ensures s != [] && !IsSpace(s[0]) ==> StripEnd(s) != []
    decreases |s|
  {
    if s != [] && IsSpace(s[|s| - 1]) {
      StripEndIsPrefix(s[..|s| - 1]);
    }
  }

  /** An identifier only grows when something that is not blank is appended to its line. */
  lemma StripGrows(s: Bytes, more: Bytes)
    requires Strip(s) != [] && !IsBlank(more)
    ensures Strip(s) < Strip(s + more)
  {
    assert StripEnd([]) == [];
    StripStartOf(s, more);
    StripEndIsPrefix(StripStart(s));
    StripEndKeeps(StripStart(s), more);
  }

  lemma {:induction false} PrefixLe(a: Bytes, b: Bytes)
    requires a <= b
    ensures LexLe(a, b, Rank)
  {
    if a != [] {
      assert a[0] == b[0] && a[1..] <= b[1..];
      PrefixLe(a[1..], b[1..]);
    }
  }

  lemma RuleLines(r: Rule)
    requires IsRule(r)
    ensures var lines := SplitLines(r.text);
            && (forall i | 0 <= i < |lines| :: lines[i] != []) && lines[0][0] == RULE_START[0]
  {
    RuleStarts(r);
    SplitIsProper(r.text);
    SplitHead(r.text);
  }

  lemma JoinedEnd(u: Rule, n: Rule)
    requires n.text != []
    ensures EndsBreak(Joined(u, n).text) <==> EndsBreak(n.text)
  {
    assert Joined(u, n).text[|Joined(u, n).text| - 1] == n.text[|n.text| - 1];
  }

  lemma JoinedIsRule(u: Rule, n: Rule)
    requires IsRule(u) && IsRule(n) && !EndsBreak(u.text)
    ensures IsRule(Joined(u, n)) && u.id <= Joined(u, n).id
    ensures EndsBreak(Joined(u, n).text) <==> EndsBreak(n.text)
  {
    RuleStarts(u);
    RuleStarts(n);
    SplitOpen(u.text, n.text);
    RuleLines(u);
    JoinedLines(u.id, SplitLines(u.text), SplitLines(n.text));
    JoinedEnd(u, n);
  }

  lemma JoinedLines(id: Bytes, first: seq<Bytes>, second: seq<Bytes>)
    requires first != [] && second != [] && StartsRule(first[0]) && IdOf(first[0]) == id != []
    requires forall i | 0 < i < |first| :: first[i] != [] && !StartsRule(first[i])
    requires forall i | 0 < i < |second| :: !StartsRule(second[i])
    requires StartsRule(second[0])
    ensures var lines := first[..|first| - 1] + [first[|first| - 1] + second[0]] + second[1..];
            && StartsRule(lines[0]) && id <= IdOf(lines[0])
            && forall i | 0 < i < |lines| :: !StartsRule(lines[i])
  {
    var last, start := first[|first| - 1], second[0];
    assert start[..|RULE_START|][0] == start[0];
    if |first| == 1 {
      StillStarts(last, start);
      assert start[0] in start;
      StripGrows(last[|RULE_START|..], start);
    } else {
      StillNoStart(last, start);
    }
  }

  lemma {:induction false} MergedStacks(rules: seq<Rule>)
    requires OneOpen(rules) && forall r <- rules :: IsRule(r)
    ensures Stackable(Merged(rules)) && Concat(Texts(Merged(rules))) == Concat(Texts(rules))
    ensures Merged(rules) == rules <==> Stackable(rules)
    decreases |rules|
  {
    if |rules| >= 2 {
      assert rules == [rules[0]] + rules[1..] && rules[0] in rules && forall r <- rules[1..] :: r in rules;
      if EndsBreak(rules[0].text) {
        OneOpenRest(rules);
        MergedStacks(rules[1..]);
        MergedCons(rules[0], rules[1..]);
      } else {
        OneOpenRest(rules);
        OpenFirst(rules[0], rules[1], rules[2..]);
      }
    }
  }

  lemma OneOpenRest(rules: seq<Rule>)
    requires rules != [] && OneOpen(rules)
    ensures OneOpen(rules[1..])
    ensures !EndsBreak(rules[0].text) ==> forall r <- rules[1..] :: EndsBreak(r.text)
    ensures |rules| >= 2 ==> rules == [rules[0]] + ([rules[1]] + rules[2..]) && rules[1..] == [rules[1]] + rules[2..]
  {
    assert forall i | 0 <= i < |rules| - 1 :: rules[1..][i] == rules[i + 1];
  }

  // One more rule in front of what is merged.
  lemma MergedCons(first: Rule, rest: seq<Rule>)
    requires IsRule(first) && EndsBreak(first.text) && rest != []
    requires Stackable(Merged(rest)) && Concat(Texts(Merged(rest))) == Concat(Texts(rest))
    requires Merged(rest) == rest <==> Stackable(rest)
    ensures Merged([first] + rest) == [first] + Merged(rest)
    ensures Stackable([first] + Merged(rest))
    ensures Concat(Texts([first] + Merged(rest))) == Concat(Texts([first] + rest))
    ensures [first] + Merged(rest) == [first] + rest <==> Stackable([first] + rest)
  {
    assert ([first] + rest)[1..] == rest;
    StackCons(first, Merged(rest));
    StackCons(first, rest);
    TextsConcat([first], Merged(rest));
    TextsConcat([first], rest);
    if [first] + Merged(rest) == [first] + rest {
      SameTail([first], Merged(rest), rest);
    }
  }

  lemma {:induction false} MergedLength(rules: seq<Rule>)
    ensures |Merged(rules)| <= |rules| && (rules != [] ==> Merged(rules) != [])
    decreases |rules|
  {
    if |rules| >= 2 && EndsBreak(rules[0].text) {
      MergedLength(rules[1..]);
    }
  }

  lemma StackCons(first: Rule, rest: seq<Rule>)
    requires IsRule(first) && EndsBreak(first.text)
    ensures Stackable([first] + rest) <==> Stackable(rest)
  {
    var all := [first] + rest;
    assert all[0] == first && forall i | 0 <= i < |rest| :: all[i + 1] == rest[i];
    assert forall r :: r in all <==> r == first || r in rest;
    if Stackable(all) {
      forall i | 0 <= i < |rest| - 1 ensures EndsBreak(rest[i].text) {
        assert EndsBreak(all[i + 1].text);
      }
    }
  }

  lemma JoinedTexts(u: Rule, n: Rule, rest: seq<Rule>)
    ensures Concat(Texts([Joined(u, n)] + rest)) == Concat(Texts([u] + ([n] + rest)))
  {
    var w := Joined(u, n);
    TextsConcat([w], rest);
    TextsConcat([n], rest);
    TextsConcat([u], [n] + rest);
    TextsOne(u);
    TextsOne(n);
    TextsOne(w);
    Associates(u.text, n.text, Concat(Texts(rest)));
  }

  lemma OpenFirst(u: Rule, n: Rule, rest: seq<Rule>)
    requires IsRule(u) && !EndsBreak(u.text) && forall r <- [n] + rest :: IsRule(r) && EndsBreak(r.text)
    ensures var rules, merged := [u] + ([n] + rest), [Joined(u, n)] + rest;
            && Merged(rules) == merged && Stackable(merged) && Concat(Texts(merged)) == Concat(Texts(rules))
            && merged != rules && !Stackable(rules)
  {
    var rules := [u] + ([n] + rest);
    assert rules[0] == u && rules[1] == n && rules[2..] == rest && n in [n] + rest;
    assert forall r <- rest :: r in [n] + rest;
    JoinedIsRule(u, n);
    StackCons(Joined(u, n), rest);
    JoinedTexts(u, n, rest);
  }

  // ---- what a pack's canonical form says ----

  lemma SortedIsOpenOnce(rules: seq<Rule>, sorted: seq<Rule>)
    requires rules != [] && Stackable(rules) && DistinctIds(sorted) && multiset(rules) == multiset(sorted)
    ensures OneOpen(sorted)
  {
    SameElements(rules, sorted);
    var last := rules[|rules| - 1];
    forall r | r in sorted && r != last ensures EndsBreak(r.text) {
      OthersEndInBreaks(rules, r);
    }
    forall i, j | 0 <= i < j < |sorted| ensures EndsBreak(sorted[i].text) || EndsBreak(sorted[j].text) {
      assert sorted[i] in sorted && sorted[j] in sorted && sorted[i].id != sorted[j].id;
    }
  }

  lemma PackIsOpenOnce(content: Bytes)
    requires RulesOf(content).Ok?
    ensures var sorted := Sort(RulesOf(content).value, IdLe);
            && sorted != [] && OneOpen(sorted) && (forall r <- sorted :: IsRule(r)) && DistinctIds(sorted)
            && Sorted(sorted, IdLe)
  {
    var rules := RulesOf(content).value;
    PackIsStacked(content);
    SortedRules(rules);
    SortedIsOpenOnce(rules, Sort(rules, IdLe));
  }

  /** The canonical form of any accepted pack is cut into its sorted rules, two of them joined where the first lacks a
      line break. */
  lemma CanonicalIsCut(content: Bytes)
    requires RulesOf(content).Ok?
    ensures RulesOfLines(Body(Canonical(RulesOf(content).value))) == Ok(Merged(Sort(RulesOf(content).value, IdLe)))
  {
    var sorted := Sort(RulesOf(content).value, IdLe);
    PackIsOpenOnce(content);
    MergedStacks(sorted);
    MergedLength(sorted);
    BodyAfterHeader(Concat(Texts(sorted)));
    StackedRulesReadBack(NOTHING, Merged(sorted));
    assert All(NOTHING) + Merged(sorted) == Merged(sorted);
  }

  /** Two accepted packs have the same canonical form exactly when their sorted rules are the same once joined so. */
  lemma SameCanonicalIffMerged(a: Bytes, b: Bytes)
    requires RulesOf(a).Ok? && RulesOf(b).Ok?
    ensures Canonical(RulesOf(a).value) == Canonical(RulesOf(b).value)
            <==> Merged(Sort(RulesOf(a).value, IdLe)) == Merged(Sort(RulesOf(b).value, IdLe))
  {
    CanonicalIsCut(a);
    CanonicalIsCut(b);
    PackIsOpenOnce(a);
    PackIsOpenOnce(b);
    MergedStacks(Sort(RulesOf(a).value, IdLe));
    MergedStacks(Sort(RulesOf(b).value, IdLe));
  }

  /** The same rules in any order have the same canonical form, whatever packs they come from. */
  lemma SameRulesSameCanonical(a: Bytes, b: Bytes)
    requires RulesOf(a).Ok? && RulesOf(b).Ok? && multiset(RulesOf(a).value) == multiset(RulesOf(b).value)
    ensures Canonical(RulesOf(a).value) == Canonical(RulesOf(b).value)
  {
    IdOrder();
    DistinctIsStrict(RulesOf(a).value);
    SortForgetsOrder(RulesOf(a).value, RulesOf(b).value, IdLe);
  }

  // The canonical form is read back: the pack ends in a line break or its last rule also sorts last.
  predicate ReadsBack(content: Bytes)
    requires RulesOf(content).Ok?
  {
    var rules := RulesOf(content).value;
    var sorted := Sort(rules, IdLe);
    EndsBreak(content) || (rules != [] && sorted != [] && sorted[|sorted| - 1] == rules[|rules| - 1])
  }

  /** Where both are read back, the canonical forms are the same only if the rules are. */
  lemma SameCanonicalIff(a: Bytes, b: Bytes)
    requires RulesOf(a).Ok? && RulesOf(b).Ok? && ReadsBack(a) && ReadsBack(b)
    ensures Canonical(RulesOf(a).value) == Canonical(RulesOf(b).value)
            <==> multiset(RulesOf(a).value) == multiset(RulesOf(b).value)
  {
    CanonicalReadsBackIff(a);
    CanonicalReadsBackIff(b);
    if multiset(RulesOf(a).value) == multiset(RulesOf(b).value) {
      SameRulesSameCanonical(a, b);
    }
  }

  // ---- when canonicalising twice is canonicalising once ----

  predicate Less(a: Rule, b: Rule) {
    IdLe(a, b) && a.id != b.id
  }

  predicate Ascending(rules: seq<Rule>) {
    forall i, j | 0 <= i < j < |rules| :: Less(rules[i], rules[j])
  }

  /** A rule without a line break, joined with the next, no longer comes before the one after that. */
  predicate OutOfPlace(rules: seq<Rule>) {
    exists k :: 0 <= k < |rules| - 2 && OutAt(rules, k)
  }

  predicate OutAt(rules: seq<Rule>, k: nat)
    requires k + 2 < |rules|
  {
    !EndsBreak(rules[k].text) && IdLe(rules[k + 2], Joined(rules[k], rules[k + 1]))
  }

  lemma LessIsStrict()
    ensures forall a, b :: Less(a, b) <==> !IdLe(b, a)
    ensures forall a, b, c :: (Less(a, b) && IdLe(b, c)) || (IdLe(a, b) && Less(b, c)) ==> Less(a, c)
  {
    IdOrder();
  }

  lemma AscendingCons(first: Rule, rest: seq<Rule>)
    ensures Ascending([first] + rest) <==> Ascending(rest) && forall r <- rest :: Less(first, r)
  {
    var all := [first] + rest;
    assert all[0] == first && forall i | 0 <= i < |rest| :: all[i + 1] == rest[i];
    if Ascending(all) {
      forall i, j | 0 <= i < j < |rest| ensures Less(rest[i], rest[j]) {
        assert Less(all[i + 1], all[j + 1]);
      }
    }
  }

  lemma {:induction false} MergedAbove(first: Rule, rules: seq<Rule>)
    requires OneOpen(rules) && forall r <- rules :: IsRule(r) && Less(first, r)
    ensures forall r <- Merged(rules) :: Less(first, r)
    decreases |rules|
  {
    if |rules| >= 2 {
      assert rules[0] in rules && rules[1] in rules && forall r <- rules[1..] :: r in rules;
      if EndsBreak(rules[0].text) {
        OneOpenRest(rules);
        MergedAbove(first, rules[1..]);
      } else {
        JoinedIsRule(rules[0], rules[1]);
        PrefixLe(rules[0].id, Joined(rules[0], rules[1]).id);
        LessIsStrict();
        assert forall r <- rules[2..] :: r in rules;
      }
    }
  }

  lemma OutOfPlaceCons(first: Rule, rest: seq<Rule>)
    requires EndsBreak(first.text)
    ensures OutOfPlace([first] + rest) <==> OutOfPlace(rest)
  {
    var all := [first] + rest;
    forall k: nat | k + 2 < |rest| ensures OutAt(all, k + 1) <==> OutAt(rest, k) {
      assert all[k + 1] == rest[k] && all[k + 2] == rest[k + 1] && all[k + 3] == rest[k + 2];
    }
    if OutOfPlace(rest) {
      var k :| 0 <= k < |rest| - 2 && OutAt(rest, k);
      assert OutAt(all, k + 1);
    }
    if OutOfPlace(all) {
      var k :| 0 <= k < |all| - 2 && OutAt(all, k);
      assert k > 0 && OutAt(rest, k - 1);
    }
  }

  lemma OpenAscendsIff(u: Rule, n: Rule, rest: seq<Rule>)
    requires !EndsBreak(u.text) && forall r <- [n] + rest :: EndsBreak(r.text)
    requires Ascending(rest)
    ensures Ascending([Joined(u, n)] + rest) <==> !OutOfPlace([u] + ([n] + rest))
  {
    OutOfPlaceFirst(u, n, rest);
    AscendingCons(Joined(u, n), rest);
    LessIsStrict();
    if rest != [] {
      assert rest[0] in rest;
    }
  }

  // Only the first rule can be out of place.
  lemma OutOfPlaceFirst(u: Rule, n: Rule, rest: seq<Rule>)
    requires !EndsBreak(u.text) && forall r <- [n] + rest :: EndsBreak(r.text)
    ensures OutOfPlace([u] + ([n] + rest)) <==> rest != [] && IdLe(rest[0], Joined(u, n))
  {
    var rules := [u] + ([n] + rest);
    assert rules[0] == u && rules[1] == n && rules[2..] == rest;
    forall i | 1 <= i < |rules| ensures EndsBreak(rules[i].text) {
      assert rules[i] == ([n] + rest)[i - 1];
    }
    if rest != [] {
      assert rules[2] == rest[0];
      assert OutAt(rules, 0) <==> IdLe(rest[0], Joined(u, n));
    }
  }

  lemma {:induction false} MergedAscendsIff(rules: seq<Rule>)
    requires OneOpen(rules) && Ascending(rules) && forall r <- rules :: IsRule(r)
    ensures Ascending(Merged(rules)) <==> !OutOfPlace(rules)
    decreases |rules|
  {
    if |rules| >= 2 {
      var first, rest := rules[0], rules[1..];
      assert rules == [first] + rest && forall r <- rest :: r in rules;
      OneOpenRest(rules);
      AscendingCons(first, rest);
      if EndsBreak(first.text) {
        MergedAscendsIff(rest);
        MergedAbove(first, rest);
        AscendingCons(first, Merged(rest));
        OutOfPlaceCons(first, rest);
      } else {
        AscendingCons(rules[1], rules[2..]);
        OpenAscendsIff(first, rules[1], rules[2..]);
      }
    }
  }

  lemma AscendingIsSorted(rules: seq<Rule>)
    ensures Ascending(rules) <==> DistinctIds(rules) && Sorted(rules, IdLe)
  {
  }

  lemma ClosedReadsBack(rules: seq<Rule>)
    requires forall r <- rules :: IsRule(r) && EndsBreak(r.text)
    ensures var p := Scan(NOTHING, SplitLines(Concat(Texts(rules)))); p.Ok? && All(p.value) == rules
  {
    StackedRulesReadBack(NOTHING, rules);
    assert All(NOTHING) + rules == rules;
  }

  /** Rules that all end in a line break are told apart by their texts alone. */
  lemma ClosedTextsDiffer(a: seq<Rule>, b: seq<Rule>)
    requires (forall r <- a :: IsRule(r) && EndsBreak(r.text)) && forall r <- b :: IsRule(r) && EndsBreak(r.text)
    requires Concat(Texts(a)) == Concat(Texts(b))
    ensures a == b
  {
    ClosedReadsBack(a);
    ClosedReadsBack(b);
  }

  lemma {:induction false} MergedIsClosed(rules: seq<Rule>)
    requires OneOpen(rules) && !Stackable(rules) && forall r <- rules :: IsRule(r)
    ensures forall r <- Merged(rules) :: IsRule(r) && EndsBreak(r.text)
    ensures |Merged(rules)| < |rules|
    decreases |rules|
  {
    if |rules| >= 2 {
      assert rules == [rules[0]] + rules[1..] && rules[0] in rules && rules[1] in rules;
      assert forall r <- rules[1..] :: r in rules;
      OneOpenRest(rules);
      if EndsBreak(rules[0].text) {
        StackCons(rules[0], rules[1..]);
        MergedIsClosed(rules[1..]);
      } else {
        JoinedIsRule(rules[0], rules[1]);
        assert rules[1] in rules[1..];
        assert forall r <- rules[2..] :: r in rules && r in rules[1..];
      }
    }
  }

  lemma CanonicalIsRead(content: Bytes)
    requires RulesOf(content).Ok?
    ensures var merged := Merged(Sort(RulesOf(content).value, IdLe));
            RulesOf(Canonical(RulesOf(content).value))
            == if DistinctIds(merged) then Ok(merged) else Err(DuplicateIds)
  {
    CanonicalIsCut(content);
    CanonicalFits(content);
    BodyAfterHeader(Concat(Texts(Sort(RulesOf(content).value, IdLe))));
  }

  ghost predicate Idempotent(content: Bytes)
    requires RulesOf(content).Ok?
  {
    var again := RulesOf(Canonical(RulesOf(content).value));
    again.Ok? && Canonical(again.value) == Canonical(RulesOf(content).value)
  }

  lemma SortedTextsIff(rules: seq<Rule>)
    requires DistinctIds(rules) && forall r <- rules :: IsRule(r) && EndsBreak(r.text)
    ensures Concat(Texts(Sort(rules, IdLe))) == Concat(Texts(rules)) <==> Sorted(rules, IdLe)
  {
    SortedRules(rules);
    SameElements(rules, Sort(rules, IdLe));
    if Sorted(rules, IdLe) {
      SortedStays(rules, IdLe);
    }
    if Concat(Texts(Sort(rules, IdLe))) == Concat(Texts(rules)) {
      ClosedTextsDiffer(Sort(rules, IdLe), rules);
    }
  }

  /** Canonicalising an accepted pack twice is canonicalising it once exactly if the rule that lacks a line break, if
      there is one, is not joined to one out of place. */
  lemma CanonicalIsIdempotentIff(content: Bytes)
    requires RulesOf(content).Ok?
    ensures Idempotent(content) <==> !OutOfPlace(Sort(RulesOf(content).value, IdLe))
  {
    var sorted := Sort(RulesOf(content).value, IdLe);
    var merged := Merged(sorted);
    PackIsOpenOnce(content);
    AscendingIsSorted(sorted);
    AscendingIsSorted(merged);
    MergedAscendsIff(sorted);
    CanonicalIsRead(content);
    MergedStacks(sorted);
    if Stackable(sorted) {
      SortedStays(sorted, IdLe);
    } else if DistinctIds(merged) {
      MergedIsClosed(sorted);
      SortedTextsIff(merged);
      SameTexts(sorted, merged);
    }
  }

  lemma SameTexts(sorted: seq<Rule>, merged: seq<Rule>)
    requires Concat(Texts(sorted)) == Concat(Texts(merged))
    ensures Canonical(merged) == HEADER + Concat(Texts(sorted))
            <==> Concat(Texts(Sort(merged, IdLe))) == Concat(Texts(merged))
  {
    if Canonical(merged) == HEADER + Concat(Texts(sorted)) {
      SameTail(HEADER, Concat(Texts(Sort(merged, IdLe))), Concat(Texts(sorted)));
    }
  }

  /** In particular where the canonical form is read back. */
  lemma CanonicalIsIdempotent(content: Bytes)
    requires RulesOf(content).Ok? && ReadsBack(content)
    ensures Idempotent(content)
  {
    CanonicalReadsBackIff(content);
    PackIsOpenOnce(content);
    SortedStays(Sort(RulesOf(content).value, IdLe), IdLe);
  }

  /** Where it is not read back and yet nothing is out of place, a pack and its own canonical form are two packs with
      the same canonical form and different rules. */
  lemma CanonicalFormsCollide(content: Bytes)
    requires RulesOf(content).Ok? && !ReadsBack(content) && !OutOfPlace(Sort(RulesOf(content).value, IdLe))
    ensures var other := RulesOf(Canonical(RulesOf(content).value));
            && other.Ok? && Canonical(other.value) == Canonical(RulesOf(content).value)
            && multiset(other.value) != multiset(RulesOf(content).value)
  {
    CanonicalIsIdempotentIff(content);
    CanonicalIsRead(content);
    CanonicalReadsBackIff(content);
    var sorted := Sort(RulesOf(content).value, IdLe);
    PackIsOpenOnce(content);
    MergedStacks(sorted);
    MergedIsClosed(sorted);
    if multiset(Merged(sorted)) == multiset(RulesOf(content).value) {
      SameElements(Merged(sorted), RulesOf(content).value);
    }
  }

  // ---- packs on which it fails, and packs that collide ----

  predicate Plain(id: Bytes) {
    id != [] && forall b <- id :: !IsSpace(b)
  }

  function Line(id: Bytes): Bytes {
    RULE_START + id
  }

  lemma {:induction false} PlainLine(s: Bytes)
    requires s != [] && LF !in s && CR !in s
    ensures LineLength(s) == |s| && LineLength(s + [LF]) == |s| + 1
    decreases |s|
  {
    assert (s + [LF])[1..] == s[1..] + [LF] && s[0] in s;
    if |s| > 1 {
      assert forall b <- s[1..] :: b in s;
      PlainLine(s[1..]);
    } else {
      assert s[1..] == [] && s[1..] + [LF] == [LF];
    }
  }

  lemma StripPlain(id: Bytes)
    requires Plain(id)
    ensures Strip(id) == id && Strip(id + [LF]) == id
  {
    assert id[0] in id && id[|id| - 1] in id;
    assert (id + [LF])[0] == id[0] && (id + [LF])[..|id|] == id && (id + [LF])[|id|] == LF;
    assert StripEnd(id + [LF]) == StripEnd(id);
  }

  lemma LineIsPlain(id: Bytes)
    requires Plain(id)
    ensures Line(id) != [] && LF !in Line(id) && CR !in Line(id) && !EndsBreak(Line(id))
    ensures StartsRule(Line(id)) && Line(id)[|RULE_START|..] == id
    ensures StartsRule(Line(id) + [LF]) && (Line(id) + [LF])[|RULE_START|..] == id + [LF]
  {
    var line := Line(id);
    forall b | b in line ensures b != LF && b != CR {
      assert b in RULE_START || b in id;
    }
    assert line[|line| - 1] == id[|id| - 1] && id[|id| - 1] in id;
    assert line[..|RULE_START|] == RULE_START && line[|RULE_START|..] == id;
    StillStarts(line, [LF]);
  }

  // A rule of one line, with and without its line break.
  lemma PlainRule(id: Bytes)
    requires Plain(id)
    ensures IsRule(Closed(id)) && EndsBreak(Closed(id).text)
    ensures IsRule(Open(id)) && !EndsBreak(Open(id).text)
  {
    LineIsPlain(id);
    PlainLine(Line(id));
    OneLine(Line(id));
    OneLine(Line(id) + [LF]);
    StripPlain(id);
  }

  function Closed(id: Bytes): Rule {
    Rule(id, Line(id) + [LF])
  }

  function Open(id: Bytes): Rule {
    Rule(id, Line(id))
  }

  const BANG: byte := 33
  const QUOTE: byte := 34
  const DASH: byte := 45

  lemma {:induction false} LexAt(p: Bytes, x: byte, y: byte, z: Bytes)
    requires x < y && p + [y] <= z
    ensures LexLe(p + [x], z, Rank)
  {
    if p == [] {
      assert z[0] == y;
    } else {
      assert (p + [x])[1..] == p[1..] + [x] && (p + [y])[1..] == p[1..] + [y];
      assert p[1..] + [y] <= z[1..] && z[0] == p[0] && (p + [x])[0] == p[0];
      LexAt(p[1..], x, y, z[1..]);
    }
  }

  // The identifier of a rule that was joined to one without a line break goes on with the start of that rule.
  lemma JoinedPlain(p: Bytes, q: Bytes)
    requires Plain(p) && Plain(q)
    ensures p + [DASH] <= Joined(Open(p), Closed(q)).id
  {
    LineIsPlain(p);
    PlainLine(Line(p));
    PlainRule(q);
    var tail := Line(q) + [LF];
    SplitOpenLine(Line(p), tail);
    LineIsPlain(q);
    PlainLine(Line(q));
    OneLine(tail);
    StillStarts(Line(p), tail);
    var more := tail[1..];
    assert tail == [DASH] + more && more[1] == RULE_START[2] && more[1] in more;
    Associates(p, [DASH], more);
    var x := p + [DASH];
    assert x[0] == p[0] && p[0] in p;
    StripEndKeeps(x, more);
    assert StripStart(x + more) == x + more;
  }

  lemma PackOf(rules: seq<Rule>)
    requires rules != [] && DistinctIds(rules) && Stackable(rules)
    requires |HEADER + Concat(Texts(rules))| <= MAX_PACK_BYTES
    ensures RulesOf(HEADER + Concat(Texts(rules))) == Ok(rules)
    ensures EndsBreak(HEADER + Concat(Texts(rules))) <==> EndsBreak(rules[|rules| - 1].text)
  {
    StackReadsBackIff(rules);
    PackIsStacked(HEADER + Concat(Texts(rules)));
  }

  lemma SortIs(rules: seq<Rule>, sorted: seq<Rule>)
    requires multiset(rules) == multiset(sorted) && Ascending(sorted)
    ensures Sort(rules, IdLe) == sorted && DistinctIds(rules)
  {
    IdOrder();
    AscendingIsSorted(sorted);
    SameElements(rules, sorted);
    DistinctIsStrict(sorted);
    SortForgetsOrder(sorted, rules, IdLe);
    SortedStays(sorted, IdLe);
    IdsCount(rules);
    IdsCount(sorted);
    assert Ids(rules) == Ids(sorted);
  }

  lemma PlainAnd(p: Bytes, b: byte)
    requires Plain(p) && !IsSpace(b)
    ensures Plain(p + [b]) && p + [b] != p && LexLe(p, p + [b], Rank)
  {
    PrefixLe(p, p + [b]);
  }

  lemma LessPlain(p: Bytes)
    requires Plain(p)
    ensures Less(Open(p), Closed(p + [BANG])) && Less(Closed(p + [BANG]), Closed(p + [QUOTE]))
  {
    PlainAnd(p, BANG);
    LexAt(p, BANG, QUOTE, p + [QUOTE]);
    assert (p + [BANG])[|p|] == BANG && (p + [QUOTE])[|p|] == QUOTE;
  }

  lemma TwoRules(closed: Rule, open: Rule)
    requires IsRule(closed) && IsRule(open) && EndsBreak(closed.text) && !EndsBreak(open.text) && Less(open, closed)
    requires |HEADER + Concat(Texts([closed, open]))| <= MAX_PACK_BYTES
    ensures RulesOf(HEADER + Concat(Texts([closed, open]))) == Ok([closed, open])
    ensures !EndsBreak(HEADER + Concat(Texts([closed, open]))) && Sort([closed, open], IdLe) == [open, closed]
  {
    LastFirst([closed], open);
    assert [closed] + [open] == [closed, open] && [open] + [closed] == [open, closed];
    SortIs([closed, open], [open, closed]);
    PackOf([closed, open]);
  }

  lemma TwoRulesCollide(closed: Rule, open: Rule, content: Bytes)
    requires IsRule(closed) && IsRule(open) && EndsBreak(closed.text) && !EndsBreak(open.text) && Less(open, closed)
    requires content == HEADER + Concat(Texts([closed, open])) && |content| <= MAX_PACK_BYTES
    ensures RulesOf(content) == Ok([closed, open])
    ensures var other := RulesOf(Canonical([closed, open]));
            && other.Ok? && multiset(other.value) != multiset([closed, open])
            && Canonical(other.value) == Canonical([closed, open])
  {
    TwoRules(closed, open);
    CanonicalFormsCollide(content);
  }

  /** A pack of two rules that has the canonical form of a pack of one. */
  lemma TwoPacksCollide(p: Bytes)
    requires Plain(p)
    requires |HEADER + Concat(Texts([Closed(p + [BANG]), Open(p)]))| <= MAX_PACK_BYTES
    ensures var rules := [Closed(p + [BANG]), Open(p)];
            && RulesOf(HEADER + Concat(Texts(rules))) == Ok(rules)
            && var other := RulesOf(Canonical(rules));
            && other.Ok? && multiset(other.value) != multiset(rules) && Canonical(other.value) == Canonical(rules)
  {
    PlainAnd(p, BANG);
    PlainRule(p);
    PlainRule(p + [BANG]);
    LessPlain(p);
    var rules := [Closed(p + [BANG]), Open(p)];
    TwoRulesCollide(rules[0], rules[1], HEADER + Concat(Texts(rules)));
  }

  lemma ThreeAscend(a: Rule, b: Rule, c: Rule)
    requires Less(a, b) && Less(b, c)
    ensures Ascending([a, b, c])
  {
    LessIsStrict();
  }

  lemma ThreeStack(a: Rule, b: Rule, c: Rule)
    requires IsRule(a) && IsRule(b) && IsRule(c) && EndsBreak(a.text) && EndsBreak(b.text)
    ensures Stackable([a, b, c])
  {
  }

  lemma ThreeRules(a: Rule, b: Rule, open: Rule)
    requires Less(open, a) && Less(a, b)
    ensures DistinctIds([a, b, open]) && Sort([a, b, open], IdLe) == [open, a, b]
  {
    var sorted := [open, a, b];
    ThreeAscend(open, a, b);
    assert Less(sorted[0], sorted[1]) && Less(sorted[0], sorted[2]) && Less(sorted[1], sorted[2]);
    LastFirst([a, b], open);
    assert [a, b] + [open] == [a, b, open] && [open] + [a, b] == sorted;
    SortIs([a, b, open], sorted);
  }

  lemma LastFirst(rules: seq<Rule>, r: Rule)
    ensures multiset(rules + [r]) == multiset([r] + rules)
  {
  }

  lemma ThreeRulesFail(a: Rule, b: Rule, open: Rule, content: Bytes)
    requires IsRule(a) && IsRule(b) && IsRule(open) && EndsBreak(a.text) && EndsBreak(b.text) && !EndsBreak(open.text)
    requires Less(open, a) && Less(a, b) && IdLe(b, Joined(open, a))
    requires content == HEADER + Concat(Texts([a, b, open])) && |content| <= MAX_PACK_BYTES
    ensures RulesOf(content) == Ok([a, b, open]) && !Idempotent(content)
  {
    ThreeRules(a, b, open);
    ThreeStack(a, b, open);
    PackOf([a, b, open]);
    OutAtFirst(open, a, b);
    CanonicalIsIdempotentIff(content);
  }

  lemma OutAtFirst(open: Rule, a: Rule, b: Rule)
    requires !EndsBreak(open.text) && IdLe(b, Joined(open, a))
    ensures OutOfPlace([open, a, b])
  {
    assert OutAt([open, a, b], 0);
  }

  /** A pack of three rules whose canonical form, canonicalised, is another one or refused. */
  lemma CanonicalisingTwiceDiffers(p: Bytes)
    requires Plain(p)
    requires |HEADER + Concat(Texts([Closed(p + [BANG]), Closed(p + [QUOTE]), Open(p)]))| <= MAX_PACK_BYTES
    ensures var rules := [Closed(p + [BANG]), Closed(p + [QUOTE]), Open(p)];
            RulesOf(HEADER + Concat(Texts(rules))) == Ok(rules) && !Idempotent(HEADER + Concat(Texts(rules)))
  {
    PlainAnd(p, BANG);
    PlainAnd(p, QUOTE);
    PlainRule(p);
    PlainRule(p + [BANG]);
    PlainRule(p + [QUOTE]);
    LessPlain(p);
    JoinedPlain(p, p + [BANG]);
    LexAt(p, QUOTE, DASH, Joined(Open(p), Closed(p + [BANG])).id);
    var rules := [Closed(p + [BANG]), Closed(p + [QUOTE]), Open(p)];
    ThreeRulesFail(rules[0], rules[1], rules[2], HEADER + Concat(Texts(rules)));
  }
}
