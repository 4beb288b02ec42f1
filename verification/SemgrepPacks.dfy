/**
 The canonical form of a rule pack: the pack is cut into its rules at the lines that start one, and the rules are
 sorted by identifier, so that a digest does not depend on the order in which a registry lists them.
 */
module SemgrepPacks {
  import opened Wrappers
  import opened Bytes
  import opened Sequences
  import opened Sorting

  const MAX_PACK_BYTES := 8 * 1024 * 1024

  // "rules:\n" and "- id: ".
  const HEADER: Bytes := [114, 117, 108, 101, 115, 58, 10]
  const RULE_START: Bytes := [45, 32, 105, 100, 58, 32]

  datatype Rule = Rule(id: Bytes, text: Bytes)

  datatype PackError = NotRules | TooLarge | BlankId | ContentBeforeRules | NoRules | DuplicateIds

  // ---- bytes as Python sees them ----

  predicate IsSpace(b: byte) {
    9 <= b <= 13 || b == 32
  }

  function StripStart(s: Bytes): Bytes {
    if s != [] && IsSpace(s[0]) then StripStart(s[1..]) else s
  }

  function StripEnd(s: Bytes): Bytes {
    if s != [] && IsSpace(s[|s| - 1]) then StripEnd(s[..|s| - 1]) else s
  }

  function Strip(s: Bytes): Bytes {
    StripEnd(StripStart(s))
  }

  predicate StartsWith(s: Bytes, prefix: Bytes) {
    |prefix| <= |s| && s[..|prefix|] == prefix
  }

  /** The first line with its line break: LF, CR or CR LF. */
  function LineLength(s: Bytes): (n: nat)
    ensures n <= |s| && (s != [] ==> n > 0)
  {
    if s == [] then 0
    else if s[0] == LF then 1
    else if s[0] == CR then (if |s| > 1 && s[1] == LF then 2 else 1)
    else 1 + LineLength(s[1..])
  }

  // `bytes.splitlines(keepends=True)`.
  function SplitLines(s: Bytes): seq<Bytes> {
    if s == [] then [] else [s[..LineLength(s)]] + SplitLines(s[LineLength(s)..])
  }

  predicate EndsBreak(s: Bytes) {
    s != [] && (s[|s| - 1] == LF || s[|s| - 1] == CR)
  }

  // A line can end between the two: not without a break, and not inside CR LF.
  predicate Seam(a: Bytes, b: Bytes) {
    EndsBreak(a) && !(a[|a| - 1] == CR && b != [] && b[0] == LF)
  }

  lemma {:induction false} LineLengthStays(a: Bytes, b: Bytes)
    requires a != [] && (Seam(a, b) || LineLength(a) < |a|)
    ensures LineLength(a + b) == LineLength(a)
    decreases |a|
  {
    var s := a + b;
    assert s[0] == a[0];
    if a[0] != LF && a[0] != CR {
      assert s[1..] == a[1..] + b;
      LineLengthStays(a[1..], b);
    } else if a[0] == CR && |s| > 1 {
      assert s[1] == if |a| > 1 then a[1] else b[0];
    }
  }

  lemma SplitFirst(line: Bytes, s: Bytes)
    requires IsLine(line) && (s == [] || Seam(line, s))
    ensures SplitLines(line + s) == [line] + SplitLines(s)
  {
    if s == [] {
      assert line + s == line;
    } else {
      LineLengthStays(line, s);
    }
    assert (line + s)[..|line|] == line && (line + s)[|line|..] == s;
  }

  /** Where a line can end, the lines of the whole are the lines of the parts. */
  lemma {:induction false} SplitConcat(a: Bytes, b: Bytes)
    requires a == [] || Seam(a, b)
    ensures SplitLines(a + b) == SplitLines(a) + SplitLines(b)
    decreases |a|
  {
    if a == [] {
      assert a + b == b;
    } else {
      var n := LineLength(a);
      var line, rest := a[..n], a[n..];
      FirstLine(a);
      assert a == line + rest;
      Associates(line, rest, b);
      if rest != [] {
        assert rest[|rest| - 1] == a[|a| - 1] && (rest + b)[0] == rest[0];
      }
      SplitConcat(rest, b);
      SplitFirst(line, rest + b);
      Associates([line], SplitLines(rest), SplitLines(b));
    }
  }

  predicate IsLine(line: Bytes) {
    line != [] && LineLength(line) == |line|
  }

  /** Lines of some text: each of them a line, and each boundary a seam. */
  predicate Proper(lines: seq<Bytes>) {
    && (forall i | 0 <= i < |lines| :: IsLine(lines[i]))
    && (forall i | 0 < i < |lines| :: Seam(lines[i - 1], lines[i]))
  }

  lemma {:induction false} FirstLine(s: Bytes)
    requires s != []
    ensures IsLine(s[..LineLength(s)])
    ensures LineLength(s) < |s| ==> Seam(s[..LineLength(s)], s[LineLength(s)..])
  {
    var n := LineLength(s);
    if s[0] != LF && s[0] != CR && |s| > 1 {
      FirstLine(s[1..]);
      assert s[1..][..n - 1] == s[..n][1..] && s[1..][n - 1..] == s[n..];
    }
  }

  lemma ProperCons(line: Bytes, lines: seq<Bytes>)
    requires IsLine(line) && Proper(lines) && (lines != [] ==> Seam(line, lines[0]))
    ensures Proper([line] + lines) && Concat([line] + lines) == line + Concat(lines)
  {
    var all := [line] + lines;
    assert all[0] == line && all[1..] == lines;
    assert forall i | 0 <= i < |lines| :: all[i + 1] == lines[i];
  }

  lemma SplitHead(s: Bytes)
    requires s != []
    ensures SplitLines(s) == [s[..LineLength(s)]] + SplitLines(s[LineLength(s)..])
    ensures SplitLines(s)[0] == s[..LineLength(s)] && SplitLines(s)[0][0] == s[0]
  {
  }

  lemma {:induction false} SplitIsProper(s: Bytes)
    ensures Proper(SplitLines(s)) && Concat(SplitLines(s)) == s
    decreases |s|
  {
    if s != [] {
      var n := LineLength(s);
      FirstLine(s);
      SplitHead(s);
      SplitIsProper(s[n..]);
      if s[n..] != [] {
        SplitHead(s[n..]);
      }
      ProperCons(s[..n], SplitLines(s[n..]));
      Halves(s, n);
    }
  }

  lemma OneLine(line: Bytes)
    requires IsLine(line)
    ensures SplitLines(line) == [line]
  {
    assert line[..|line|] == line && line[|line|..] == [];
    assert SplitLines([]) == [];
  }

  // ---- cutting into rules ----

  predicate StartsRule(line: Bytes) {
    StartsWith(line, RULE_START)
  }

  function IdOf(line: Bytes): Bytes
    requires StartsRule(line)
  {
    Strip(line[|RULE_START|..])
  }

  // The rules that are complete, and the one whose lines are being read.
  datatype Parsed = Parsed(done: seq<Rule>, current: Option<Rule>)

  function All(p: Parsed): seq<Rule> {
    p.done + if p.current.Some? then [p.current.value] else []
  }

  function AddLine(p: Parsed, line: Bytes): Result<Parsed, PackError> {
    if StartsRule(line) then
      if IdOf(line) == [] then Err(BlankId) else Ok(Parsed(All(p), Some(Rule(IdOf(line), line))))
    else if p.current.None? then
      if Strip(line) != [] then Err(ContentBeforeRules) else Ok(p)
    else Ok(p.(current := Some(p.current.value.(text := p.current.value.text + line))))
  }

  function Scan(p: Parsed, lines: seq<Bytes>): Result<Parsed, PackError>
    decreases |lines|
  {
    if lines == [] then Ok(p)
    else
      match Scan(p, lines[..|lines| - 1])
      case Err(error) => Err(error)
      case Ok(before) => AddLine(before, lines[|lines| - 1])
  }

  const NOTHING := Parsed([], None)

  function RulesOfLines(lines: seq<Bytes>): Result<seq<Rule>, PackError> {
    match Scan(NOTHING, lines)
    case Err(error) => Err(error)
    case Ok(p) => if All(p) == [] then Err(NoRules) else Ok(All(p))
  }

  // The lines after the first.
  function Body(content: Bytes): seq<Bytes> {
    var lines := SplitLines(content);
    if lines == [] then [] else lines[1..]
  }

  method ParseRuleBlocks(content: Bytes) returns (r: Result<seq<Rule>, PackError>)
    ensures r == RulesOfLines(Body(content))
  {
    var blocks: seq<Rule> := [];
    var currentId: Option<Bytes> := None;
    var currentLines: seq<Bytes> := [];
    var lines := Body(content);
    for i := 0 to |lines|
      invariant Scan(NOTHING, lines[..i]) ==
                Ok(Parsed(blocks, if currentId.Some? then Some(Rule(currentId.value, Concat(currentLines))) else None))
    {
      var line := lines[i];
      assert lines[..i + 1][..i] == lines[..i];
      ScanStaysErr(NOTHING, lines, i + 1);
      assert blocks + [] == blocks;
      if StartsRule(line) {
        if currentId.Some? {
          blocks := blocks + [Rule(currentId.value, Concat(currentLines))];
        }
        var id := IdOf(line);
        if id == [] {
          return Err(BlankId);
        }
        currentId := Some(id);
        currentLines := [line];
        ConcatOne(line);
      } else if currentId.None? {
        if Strip(line) != [] {
          return Err(ContentBeforeRules);
        }
      } else {
        ConcatAppend(currentLines, [line]);
        ConcatOne(line);
        currentLines := currentLines + [line];
      }
    }
    assert lines[..|lines|] == lines && blocks + [] == blocks;
    if currentId.Some? {
      blocks := blocks + [Rule(currentId.value, Concat(currentLines))];
    }
    if blocks == [] {
      return Err(NoRules);
    }
    return Ok(blocks);
  }

  lemma {:induction false} ScanStaysErr(p: Parsed, lines: seq<Bytes>, k: nat)
    requires k <= |lines|
    ensures Scan(p, lines[..k]).Err? ==> Scan(p, lines) == Scan(p, lines[..k])
    decreases |lines|
  {
    if k == |lines| {
      assert lines[..k] == lines;
    } else {
      assert lines[..|lines| - 1][..k] == lines[..k];
      ScanStaysErr(p, lines[..|lines| - 1], k);
    }
  }

  // ---- what a rule is ----

  /** The text of a rule is a line that names it and lines that start no other. */
  ghost predicate IsRule(r: Rule) {
    var lines := SplitLines(r.text);
    && lines != [] && StartsRule(lines[0]) && IdOf(lines[0]) == r.id && r.id != []
    && forall i | 0 < i < |lines| :: !StartsRule(lines[i])
  }

  // The last byte of a is the last byte of b.
  predicate EndAlike(a: Bytes, b: Bytes) {
    a != [] && b != [] && a[|a| - 1] == b[|b| - 1]
  }

  function Texts(rules: seq<Rule>): seq<Bytes> {
    Apply((r: Rule) => r.text, rules)
  }

  ghost predicate Cuts(lines: seq<Bytes>, p: Parsed) {
    && (forall r <- p.done :: IsRule(r) && EndsBreak(r.text))
    && (p.current.None? ==> p.done == [])
    && (p.current.Some? ==>
          lines != [] && IsRule(p.current.value) && EndAlike(p.current.value.text, lines[|lines| - 1]))
  }

  lemma RuleGrows(r: Rule, line: Bytes)
    requires IsRule(r) && IsLine(line) && Seam(r.text, line) && !StartsRule(line)
    ensures IsRule(r.(text := r.text + line)) && EndAlike(r.text + line, line)
  {
    SplitConcat(r.text, line);
    OneLine(line);
  }

  /** Reading the lines of any text gives rules, and every rule but the last ends in a line break. */
  lemma {:induction false} ScanCuts(lines: seq<Bytes>)
    requires Proper(lines) && Scan(NOTHING, lines).Ok?
    ensures Cuts(lines, Scan(NOTHING, lines).value)
    decreases |lines|
  {
    if lines != [] {
      var front, line := lines[..|lines| - 1], lines[|lines| - 1];
      assert Proper(front);
      ScanCuts(front);
      var p := Scan(NOTHING, front).value;
      if front != [] {
        assert Seam(front[|front| - 1], line);
      }
      if StartsRule(line) {
        OneLine(line);
      } else if p.current.Some? {
        RuleGrows(p.current.value, line);
      }
    }
  }

  lemma LineIsKept(p: Parsed, line: Bytes)
    requires AddLine(p, line).Ok?
    ensures var q := AddLine(p, line).value;
            q.current.Some? ==> Concat(Texts(All(q))) == Concat(Texts(All(p))) + line
  {
    if StartsRule(line) {
      var r := Rule(IdOf(line), line);
      TextsConcat(All(p), [r]);
      TextsOne(r);
    } else if p.current.Some? {
      var r := p.current.value;
      var more := r.(text := r.text + line);
      TextsConcat(p.done, [r]);
      TextsConcat(p.done, [more]);
      TextsOne(r);
      TextsOne(more);
      assert Concat(Texts(p.done)) + (r.text + line) == Concat(Texts(p.done)) + r.text + line;
    }
  }

  lemma TextsOne(r: Rule)
    ensures Concat(Texts([r])) == r.text
  {
    assert Texts([r]) == [r.text];
    ConcatOne(r.text);
  }

  /** Only blank lines before the first rule are left out of the rules. */
  ghost predicate Keeps(blank: seq<Bytes>, kept: seq<Bytes>, p: Parsed) {
    && (forall line <- blank :: Strip(line) == [])
    && Concat(Texts(All(p))) == Concat(kept)
    && (p.current.None? ==> kept == [])
  }

  lemma {:induction false} ScanKeeps(lines: seq<Bytes>) returns (blank: seq<Bytes>, kept: seq<Bytes>)
    requires Scan(NOTHING, lines).Ok?
    ensures lines == blank + kept && Keeps(blank, kept, Scan(NOTHING, lines).value)
    decreases |lines|
  {
    if lines == [] {
      blank, kept := [], [];
    } else {
      var front, line := lines[..|lines| - 1], lines[|lines| - 1];
      blank, kept := ScanKeeps(front);
      assert lines == blank + kept + [line];
      blank, kept := LineKeeps(blank, kept, Scan(NOTHING, front).value, line);
    }
  }

  lemma LineKeeps(blank: seq<Bytes>, kept: seq<Bytes>, p: Parsed, line: Bytes)
    returns (blank': seq<Bytes>, kept': seq<Bytes>)
    requires Keeps(blank, kept, p) && AddLine(p, line).Ok?
    ensures blank' + kept' == blank + kept + [line] && Keeps(blank', kept', AddLine(p, line).value)
  {
    if AddLine(p, line).value.current.None? {
      return blank + [line], [];
    }
    LineIsKept(p, line);
    MoreIsKept(Concat(Texts(All(p))), kept, line);
    assert blank + (kept + [line]) == blank + kept + [line];
    return blank, kept + [line];
  }

  lemma MoreIsKept(text: Bytes, kept: seq<Bytes>, line: Bytes)
    requires text == Concat(kept)
    ensures text + line == Concat(kept + [line])
  {
    ConcatAppend(kept, [line]);
    ConcatOne(line);
  }

  // ---- reading rules back ----

  lemma {:induction false} ScanConcat(p: Parsed, a: seq<Bytes>, b: seq<Bytes>)
    ensures Scan(p, a + b) ==
            match Scan(p, a) {
              case Err(error) => Err(error)
              case Ok(q) => Scan(q, b)
            }
    decreases |b|
  {
    if b == [] {
      assert a + b == a;
    } else {
      assert (a + b)[..|a + b| - 1] == a + b[..|b| - 1];
      ScanConcat(p, a, b[..|b| - 1]);
    }
  }

  lemma {:induction false} ScanRest(p: Parsed, lines: seq<Bytes>)
    requires p.current.Some? && forall line <- lines :: !StartsRule(line)
    ensures Scan(p, lines)
            == Ok(p.(current := Some(p.current.value.(text := p.current.value.text + Concat(lines)))))
    decreases |lines|
  {
    if lines == [] {
      assert p.current.value.text + Concat([]) == p.current.value.text;
    } else {
      var front, last := lines[..|lines| - 1], lines[|lines| - 1];
      assert forall line <- front :: line in lines;
      assert last in lines && lines == front + [last];
      ScanRest(p, front);
      ConcatAppend(front, [last]);
      ConcatOne(last);
      var text := p.current.value.text;
      assert text + (Concat(front) + last) == text + Concat(front) + last;
    }
  }

  lemma ScanRule(p: Parsed, r: Rule)
    requires IsRule(r)
    ensures Scan(p, SplitLines(r.text)) == Ok(Parsed(All(p), Some(r)))
  {
    var lines := SplitLines(r.text);
    var first, rest := lines[..1], lines[1..];
    SplitIsProper(r.text);
    assert lines == first + rest && first == [lines[0]];
    assert first[..0] == [];
    assert Scan(p, first) == AddLine(p, lines[0]);
    ScanConcat(p, first, rest);
    ScanRest(Parsed(All(p), Some(Rule(r.id, lines[0]))), rest);
    ConcatAppend(first, rest);
    ConcatOne(lines[0]);
  }

  lemma RuleStarts(r: Rule)
    requires IsRule(r)
    ensures r.text != [] && r.text[0] == RULE_START[0]
  {
    assert SplitLines(r.text)[0] == r.text[..LineLength(r.text)];
    assert SplitLines(r.text)[0][..|RULE_START|][0] == r.text[0];
  }

  ghost predicate Stackable(rules: seq<Rule>) {
    && (forall r <- rules :: IsRule(r))
    && (forall i | 0 <= i < |rules| - 1 :: EndsBreak(rules[i].text))
  }

  // A rule and the text of those that follow it.
  lemma RuleThenRest(p: Parsed, r: Rule, rest: seq<Rule>)
    requires IsRule(r) && (rest != [] ==> EndsBreak(r.text) && IsRule(rest[0]))
    ensures Scan(p, SplitLines(r.text + Concat(Texts(rest))))
            == Scan(Parsed(All(p), Some(r)), SplitLines(Concat(Texts(rest))))
  {
    var more := Concat(Texts(rest));
    if rest != [] {
      RuleStarts(rest[0]);
      assert Texts(rest)[0] == rest[0].text;
      assert more == rest[0].text + Concat(Texts(rest)[1..]);
      SplitConcat(r.text, more);
    } else {
      assert r.text + more == r.text && SplitLines(more) == [];
      assert SplitLines(r.text) + [] == SplitLines(r.text);
    }
    ScanRule(p, r);
    ScanConcat(p, SplitLines(r.text), SplitLines(more));
  }

  /** Rules that end in a line break, one after the other, are read back as they are. */
  lemma {:induction false} StackedRulesReadBack(p: Parsed, rules: seq<Rule>)
    requires Stackable(rules)
    ensures var q := Scan(p, SplitLines(Concat(Texts(rules))));
            q.Ok? && All(q.value) == All(p) + rules
    decreases |rules|
  {
    if rules != [] {
      var r, rest := rules[0], rules[1..];
      assert rules == [r] + rest && r in rules;
      StackableTail(r, rest);
      TextsConcat([r], rest);
      TextsOne(r);
      RuleThenRest(p, r, rest);
      var q := Parsed(All(p), Some(r));
      StackedRulesReadBack(q, rest);
      Associates(All(p), [r], rest);
    } else {
      assert All(p) + rules == All(p);
    }
  }

  lemma StackableTail(r: Rule, rest: seq<Rule>)
    requires Stackable([r] + rest)
    ensures Stackable(rest) && IsRule(r) && (rest != [] ==> EndsBreak(r.text) && IsRule(rest[0]))
  {
    var rules := [r] + rest;
    assert rules[0] == r && r in rules && forall x <- rest :: x in rules;
    assert forall i | 0 <= i < |rest| :: rules[i + 1] == rest[i];
  }

  // ---- packs ----

  predicate DistinctIds(rules: seq<Rule>) {
    forall i, j | 0 <= i < j < |rules| :: rules[i].id != rules[j].id
  }

  /** The rules of a pack, or why it is refused. */
  function RulesOf(content: Bytes): Result<seq<Rule>, PackError> {
    if !StartsWith(content, HEADER) then Err(NotRules)
    else if |content| > MAX_PACK_BYTES then Err(TooLarge)
    else match RulesOfLines(Body(content))
      case Err(error) => Err(error)
      case Ok(rules) => if DistinctIds(rules) then Ok(rules) else Err(DuplicateIds)
  }

  function Rank(b: byte): int {
    b as int
  }

  predicate IdLe(a: Rule, b: Rule) {
    LexLe(a.id, b.id, Rank)
  }

  function Canonical(rules: seq<Rule>): Bytes {
    HEADER + Concat(Texts(Sort(rules, IdLe)))
  }

  lemma IdOrder()
    ensures Order(IdLe) && forall a, b :: IdLe(a, b) && IdLe(b, a) ==> a.id == b.id
  {
    assert Injective(Rank);
    forall a, b ensures IdLe(a, b) || IdLe(b, a) { LexTotal(a.id, b.id, Rank); }
    forall a, b, c | IdLe(a, b) && IdLe(b, c) ensures IdLe(a, c) { LexTransitive(a.id, b.id, c.id, Rank); }
    forall a, b | IdLe(a, b) && IdLe(b, a) ensures a.id == b.id { LexAntisymmetric(a.id, b.id, Rank); }
  }

  lemma DistinctIsStrict(rules: seq<Rule>)
    requires DistinctIds(rules)
    ensures Strict(rules, IdLe)
  {
    IdOrder();
    forall x, y | x in rules && y in rules && IdLe(x, y) && IdLe(y, x) ensures x == y {
      var i :| 0 <= i < |rules| && rules[i] == x;
      var j :| 0 <= j < |rules| && rules[j] == y;
    }
  }

  function Ids(rules: seq<Rule>): set<Bytes> {
    set r <- rules :: r.id
  }

  lemma IdsSnoc(front: seq<Rule>, last: Rule)
    ensures Ids(front + [last]) == Ids(front) + {last.id}
    ensures DistinctIds(front + [last]) <==> DistinctIds(front) && last.id !in Ids(front)
  {
    var rules := front + [last];
    assert forall i | 0 <= i < |front| :: rules[i] == front[i] && front[i] in front;
    assert rules[|front|] == last;
  }

  lemma {:induction false} IdsCount(rules: seq<Rule>)
    ensures |Ids(rules)| <= |rules| && (|Ids(rules)| == |rules| <==> DistinctIds(rules))
    decreases |rules|
  {
    if rules != [] {
      var front, last := rules[..|rules| - 1], rules[|rules| - 1];
      assert rules == front + [last];
      IdsCount(front);
      IdsSnoc(front, last);
    }
  }

  /** The canonical form whose digest is compared, the size and the number of rules. */
  method ValidatePackContent(content: Bytes) returns (r: Result<(Bytes, nat, nat), PackError>)
    ensures r == match RulesOf(content) {
                   case Err(error) => Err(error)
                   case Ok(rules) => Ok((Canonical(rules), |content|, |rules|))
                 }
  {
    if !StartsWith(content, HEADER) {
      return Err(NotRules);
    }
    if |content| > MAX_PACK_BYTES {
      return Err(TooLarge);
    }
    var parsed := ParseRuleBlocks(content);
    if parsed.Err? {
      return Err(parsed.error);
    }
    var rules := parsed.value;
    IdsCount(rules);
    if |Ids(rules)| != |rules| {
      return Err(DuplicateIds);
    }
    return Ok((Canonical(rules), |content|, |rules|));
  }

  lemma {:induction false} FirstBreak(s: Bytes, k: nat)
    requires k < |s| && s[k] == LF && LF !in s[..k] && CR !in s[..k]
    ensures LineLength(s) == k + 1
    decreases k
  {
    if k > 0 {
      assert s[..k][0] == s[0];
      assert forall b <- s[1..][..k - 1] :: b in s[..k];
      FirstBreak(s[1..], k - 1);
    }
  }

  lemma BodyAfterHeader(rest: Bytes)
    ensures Body(HEADER + rest) == SplitLines(rest) && StartsWith(HEADER + rest, HEADER)
  {
    FirstBreak(HEADER, 6);
    OneLine(HEADER);
    SplitConcat(HEADER, rest);
  }

  function EndOf(rules: seq<Rule>): Bytes
    requires rules != []
  {
    rules[|rules| - 1].text
  }

  lemma ScannedIsStacked(lines: seq<Bytes>)
    requires lines != [] && Proper(lines) && Scan(NOTHING, lines).Ok? && All(Scan(NOTHING, lines).value) != []
    ensures var rules := All(Scan(NOTHING, lines).value);
            Stackable(rules) && EndAlike(EndOf(rules), lines[|lines| - 1])
  {
    ScanCuts(lines);
    var p := Scan(NOTHING, lines).value;
    forall i | 0 <= i < |All(p)| - 1 ensures EndsBreak(All(p)[i].text) {
      assert All(p)[i] == p.done[i];
    }
  }

  /** The rules of a pack are rules, every one but the last ends in a line break, and the last does if the pack does. */
  lemma PackIsStacked(content: Bytes)
    requires RulesOf(content).Ok?
    ensures var rules := RulesOf(content).value;
            rules != [] && Stackable(rules) && (EndsBreak(EndOf(rules)) <==> EndsBreak(content))
  {
    var rest := content[|HEADER|..];
    assert content == HEADER + rest;
    BodyAfterHeader(rest);
    SplitIsProper(rest);
    NoLinesNoRules(SplitLines(rest));
    ScannedIsStacked(SplitLines(rest));
    LastLine(SplitLines(rest));
    assert EndAlike(rest, content);
  }

  lemma NoLinesNoRules(lines: seq<Bytes>)
    ensures RulesOfLines(lines).Ok? ==> lines != []
  {
  }

  lemma LastLine(lines: seq<Bytes>)
    requires lines != [] && lines[|lines| - 1] != []
    ensures EndAlike(Concat(lines), lines[|lines| - 1])
  {
    var front, last := lines[..|lines| - 1], lines[|lines| - 1];
    assert lines == front + [last];
    ConcatAppend(front, [last]);
    ConcatOne(last);
  }

  /** The text of rules that are put one after the other is read back as those rules exactly if they can be stacked. */
  lemma StackReadsBackIff(rules: seq<Rule>)
    requires rules != [] && DistinctIds(rules) && forall r <- rules :: IsRule(r)
    requires |HEADER + Concat(Texts(rules))| <= MAX_PACK_BYTES
    ensures RulesOf(HEADER + Concat(Texts(rules))) == Ok(rules) <==> Stackable(rules)
  {
    var content := HEADER + Concat(Texts(rules));
    BodyAfterHeader(Concat(Texts(rules)));
    if Stackable(rules) {
      StackedRulesReadBack(NOTHING, rules);
      assert All(NOTHING) + rules == rules;
    }
    if RulesOf(content) == Ok(rules) {
      PackIsStacked(content);
    }
  }

  lemma {:induction false} TextSize(a: seq<Rule>, b: seq<Rule>)
    requires multiset(a) == multiset(b)
    ensures |Concat(Texts(a))| == |Concat(Texts(b))|
    decreases |a|
  {
    SameElements(a, b);
    if a != [] {
      var x, rest := a[0], a[1..];
      assert a == [x] + rest && multiset(a) == multiset{x} + multiset(rest);
      var left, right := Pick(b, x, multiset(rest));
      TextSize(rest, left + right);
      TextsConcat([x], rest);
      TextsConcat(left, right);
      TextsConcat(left + [x], right);
      TextsConcat(left, [x]);
    }
  }

  lemma TextsConcat(a: seq<Rule>, b: seq<Rule>)
    ensures Concat(Texts(a + b)) == Concat(Texts(a)) + Concat(Texts(b))
  {
    ApplyConcat((r: Rule) => r.text, a, b);
    assert Texts(a + b) == Texts(a) + Texts(b);
    ConcatAppend(Texts(a), Texts(b));
  }

  // ---- the canonical form ----

  /** Nothing of a pack is lost but blank lines before its first rule. */
  lemma PackIsKept(content: Bytes) returns (blank: seq<Bytes>)
    requires RulesOf(content).Ok?
    ensures blank <= Body(content) && forall line <- blank :: Strip(line) == []
    ensures content == HEADER + (Concat(blank) + Concat(Texts(RulesOf(content).value)))
  {
    var rest := content[|HEADER|..];
    assert content == HEADER + rest;
    BodyAfterHeader(rest);
    SplitIsProper(rest);
    var kept;
    blank, kept := ScanKeeps(Body(content));
    ConcatAppend(blank, kept);
  }

  lemma CanonicalFits(content: Bytes)
    requires RulesOf(content).Ok?
    ensures |Canonical(RulesOf(content).value)| <= |content| <= MAX_PACK_BYTES
  {
    var blank := PackIsKept(content);
    var rules := RulesOf(content).value;
    TextSize(rules, Sort(rules, IdLe));
  }

  lemma SortedRules(rules: seq<Rule>)
    requires DistinctIds(rules) && forall r <- rules :: IsRule(r)
    ensures DistinctIds(Sort(rules, IdLe)) && forall r <- Sort(rules, IdLe) :: IsRule(r)
    ensures |Sort(rules, IdLe)| == |rules| && Sorted(Sort(rules, IdLe), IdLe)
  {
    IdOrder();
    SortSorts(rules, IdLe);
    SameElements(rules, Sort(rules, IdLe));
    IdsCount(rules);
    IdsCount(Sort(rules, IdLe));
    assert Ids(rules) == Ids(Sort(rules, IdLe));
  }

  /** The canonical form of an accepted pack is read as its rules in sorted order exactly if the pack ends in a line
      break or the rule it ends with also sorts last. */
  lemma CanonicalReadsBackIff(content: Bytes)
    requires RulesOf(content).Ok?
    ensures var rules := RulesOf(content).value;
            var sorted := Sort(rules, IdLe);
            && |sorted| == |rules| > 0
            && (RulesOf(Canonical(rules)) == Ok(sorted)
                <==> EndsBreak(content) || sorted[|sorted| - 1] == rules[|rules| - 1])
  {
    var rules := RulesOf(content).value;
    var sorted := Sort(rules, IdLe);
    PackIsStacked(content);
    CanonicalFits(content);
    SortedRules(rules);
    StackReadsBackIff(sorted);
    SortedIsStackableIff(rules);
  }

  lemma OthersEndInBreaks(rules: seq<Rule>, r: Rule)
    requires Stackable(rules) && r in rules && r != rules[|rules| - 1]
    ensures EndsBreak(r.text)
  {
    var j :| 0 <= j < |rules| && rules[j] == r;
  }

  // Where the one rule that may lack a line break ends up.
  lemma PlaceOf(rules: seq<Rule>, r: Rule) returns (k: nat)
    requires DistinctIds(rules) && r in rules
    ensures k < |rules| && rules[k] == r && forall i | 0 <= i < |rules| && i != k :: rules[i] != r
  {
    k :| 0 <= k < |rules| && rules[k] == r;
    forall i | 0 <= i < |rules| && i != k ensures rules[i] != r {
      assert rules[i].id != rules[k].id;
    }
  }

  lemma SortedIsStackableIff(rules: seq<Rule>)
    requires rules != [] && Stackable(rules) && DistinctIds(rules)
    ensures var sorted := Sort(rules, IdLe);
            && |sorted| == |rules|
            && (Stackable(sorted) <==> EndsBreak(EndOf(rules)) || sorted[|sorted| - 1] == rules[|rules| - 1])
  {
    var sorted, last := Sort(rules, IdLe), rules[|rules| - 1];
    SortedRules(rules);
    SameElements(rules, sorted);
    assert last in rules;
    var k := PlaceOf(sorted, last);
    forall i | 0 <= i < |sorted| && i != k ensures EndsBreak(sorted[i].text) {
      assert sorted[i] in sorted;
      OthersEndInBreaks(rules, sorted[i]);
    }
  }
}
