/**
 The terminal rendering of a prompt, an answer or a diagnostic: line ends become LF, control characters and characters
 that reorder text become visible escapes, and the text ends in an LF.
 */
module Renderer {
  import opened Text
  import opened Sequences
  import opened Numerals

  predicate IsBidiControl(c: char) {
    var n := c as int;
    n == 0x61c || 0x200e <= n <= 0x200f || 0x202a <= n <= 0x202e || 0x2066 <= n <= 0x2069
  }

  predicate ShouldEscape(c: char) {
    IsControl(c) || IsBidiControl(c)
  }

  predicate IsPlain(c: char) {
    c == '\n' || c == '\t' || ' ' <= c <= '~'
  }

  /** What a terminal shows without acting on it. */
  predicate Harmless(c: char) {
    !IsBidiControl(c) && (IsControl(c) ==> c == '\n' || c == '\t')
  }

  predicate EndsLine(s: string) {
    s != "" && s[|s| - 1] == '\n'
  }

  predicate Clean(s: string) {
    EndsLine(s) && forall c <- s :: Harmless(c)
  }

  // `char::escape_unicode`.
  function EscapeUnicode(c: char): string {
    "\\u{" + Numeral(c as int, 16) + "}"
  }

  function RenderChar(c: char): string {
    if IsPlain(c) then [c] else if ShouldEscape(c) then EscapeUnicode(c) else [c]
  }

  /** The text without the final LF that may be missing. CR LF is one line end. */
  function RenderAll(s: string): string {
    if s == "" then ""
    else if s[0] == '\r' then "\n" + RenderAll(if |s| > 1 && s[1] == '\n' then s[2..] else s[1..])
    else RenderChar(s[0]) + RenderAll(s[1..])
  }

  function Render(s: string): string {
    if EndsLine(RenderAll(s)) then RenderAll(s) else RenderAll(s) + "\n"
  }

  lemma RenderedFrom(text: string, i: nat, before: string)
    requires i < |text|
    ensures text[i] == '\r' ==>
              before + RenderAll(text[i..])
              == before + "\n"
                 + RenderAll(if i + 1 < |text| && text[i + 1] == '\n' then text[i + 2..] else text[i + 1..])
    ensures text[i] != '\r' ==>
              before + RenderAll(text[i..]) == before + RenderChar(text[i]) + RenderAll(text[i + 1..])
  {
    var s := text[i..];
    assert s[1..] == text[i + 1..];
    if |s| > 1 {
      assert s[2..] == text[i + 2..];
    }
  }

  method RenderModelText(text: string) returns (rendered: string)
    ensures rendered == Render(text)
  {
    rendered := "";
    var next := 0;
    while next < |text|
      invariant next <= |text|
      invariant rendered + RenderAll(text[next..]) == RenderAll(text)
    {
      var character := text[next];
      RenderedFrom(text, next, rendered);
      next := next + 1;
      if character == '\r' {
        if next < |text| && text[next] == '\n' {
          next := next + 1;
        }
        rendered := rendered + "\n";
      } else if character == '\n' || character == '\t' || ' ' <= character <= '~' {
        rendered := rendered + [character];
      } else if ShouldEscape(character) {
        rendered := rendered + EscapeUnicode(character);
      } else {
        rendered := rendered + [character];
      }
    }
    if !EndsLine(rendered) {
      rendered := rendered + "\n";
    }
  }

  lemma RenderedCharIsHarmless(c: char)
    ensures c != '\r' ==> forall d <- RenderChar(c) :: Harmless(d)
  {
  }

  lemma {:induction false} RenderedIsHarmless(s: string)
    ensures forall c <- RenderAll(s) :: Harmless(c)
    decreases |s|
  {
    if s != "" {
      if s[0] == '\r' {
        RenderedIsHarmless(if |s| > 1 && s[1] == '\n' then s[2..] else s[1..]);
      } else {
        RenderedCharIsHarmless(s[0]);
        RenderedIsHarmless(s[1..]);
      }
    }
  }

  lemma HarmlessCharStays(c: char)
    requires Harmless(c)
    ensures c != '\r' && RenderChar(c) == [c]
  {
  }

  // What is harmless is left as it is.
  lemma {:induction false} HarmlessStays(s: string)
    requires forall c <- s :: Harmless(c)
    ensures RenderAll(s) == s
  {
    if s != "" {
      assert s[0] in s && forall c <- s[1..] :: c in s;
      HarmlessCharStays(s[0]);
      HarmlessStays(s[1..]);
      assert s == [s[0]] + s[1..];
    }
  }

  /** Whatever the text, its rendering ends in an LF and holds no control but LF and tab and no bidirectional control;
      and the texts that rendering leaves alone are exactly those. Rendering again changes nothing. */
  lemma RenderCleans(s: string)
    ensures Clean(Render(s))
    ensures Render(s) == s <==> Clean(s)
    ensures Render(Render(s)) == Render(s)
  {
    RenderedIsHarmless(s);
    HarmlessStays(Render(s));
    if Clean(s) {
      HarmlessStays(s);
    }
  }

  lemma RenderedCharSize(c: char)
    ensures ByteLength(RenderChar(c)) <= 6 * CharBytes(c)
  {
    if !IsPlain(c) && ShouldEscape(c) {
      AsciiByteLength(EscapeUnicode(c));
      assert Power(16, 2) == 256 && Power(16, 4) == 0x10000;
      NumeralLength(c as int, 16, if IsControl(c) then 2 else 4);
    } else {
      assert [c][1..] == "";
    }
  }

  lemma {:induction false} RenderedSize(s: string)
    ensures ByteLength(RenderAll(s)) <= 6 * ByteLength(s)
    decreases |s|
  {
    if s != "" {
      if s[0] == '\r' {
        var rest := if |s| > 1 && s[1] == '\n' then s[2..] else s[1..];
        RenderedSize(rest);
        ByteLengthConcat("\n", RenderAll(rest));
        AsciiByteLength("\n");
        if |s| > 1 && s[1] == '\n' {
          assert s[1..][1..] == s[2..];
        }
      } else {
        RenderedSize(s[1..]);
        RenderedCharSize(s[0]);
        ByteLengthConcat(RenderChar(s[0]), RenderAll(s[1..]));
      }
    }
  }

  /** The buffer that is reserved before rendering always suffices. */
  lemma RenderFits(s: string)
    ensures ByteLength(Render(s)) <= 6 * ByteLength(s) + 1
  {
    RenderedSize(s);
    ByteLengthConcat(RenderAll(s), "\n");
    AsciiByteLength("\n");
  }

  // ---- what the documentation says ----

  /** What is promised: control and bidirectional control characters other than LF and tab become visible escapes, and
      every other character is preserved. */
  function Documented(s: string): string {
    if s == "" then "" else (if Harmless(s[0]) then [s[0]] else EscapeUnicode(s[0])) + Documented(s[1..])
  }

  // Only CR is rendered otherwise: as an LF, or as nothing before one.
  lemma DocumentedChar(c: char)
    ensures c != '\r' ==> RenderChar(c) == if Harmless(c) then [c] else EscapeUnicode(c)
    ensures Harmless('\r') == false && EscapeUnicode(c)[0] == '\\'
  {
  }

  /** The program does what is promised exactly for the texts without a CR. */
  lemma {:induction false} RenderIsDocumentedIff(s: string)
    ensures RenderAll(s) == Documented(s) <==> '\r' !in s
  {
    if s != "" {
      DocumentedChar(s[0]);
      assert s == [s[0]] + s[1..];
      if s[0] == '\r' {
        assert RenderAll(s)[0] == '\n' && Documented(s)[0] == '\\';
      } else {
        RenderIsDocumentedIff(s[1..]);
        if RenderAll(s) == Documented(s) {
          SameTail(RenderChar(s[0]), RenderAll(s[1..]), Documented(s[1..]));
        }
      }
    }
  }

  /** CR LF and CR as LF. */
  function LineEnds(s: string): string {
    if s == "" then ""
    else if s[0] == '\r' then "\n" + LineEnds(if |s| > 1 && s[1] == '\n' then s[2..] else s[1..])
    else [s[0]] + LineEnds(s[1..])
  }

  /** On every text it does what is promised for the text with its line ends made LF. */
  lemma {:induction false} RenderIsDocumentedForLines(s: string)
    ensures RenderAll(s) == Documented(LineEnds(s))
    decreases |s|
  {
    if s != "" {
      var rest := if s[0] == '\r' && |s| > 1 && s[1] == '\n' then s[2..] else s[1..];
      var first := if s[0] == '\r' then '\n' else s[0];
      RenderIsDocumentedForLines(rest);
      DocumentedChar(first);
      assert LineEnds(s) == [first] + LineEnds(rest) && ([first] + LineEnds(rest))[1..] == LineEnds(rest);
    }
  }

  /** The bidirectional controls. */
  const BIDI_CONTROLS := {0x61c, 0x200e, 0x200f, 0x202a, 0x202b, 0x202c, 0x202d, 0x202e, 0x2066, 0x2067, 0x2068, 0x2069}

  /** Character by character: CR as LF; any other control but LF and tab, and every bidirectional control, as its number
      in hexadecimal between `\u{` and `}`; and anything else as it is. */
  lemma CharactersAreRendered(c: char)
    ensures var n := c as int;
            RenderAll([c]) == if c == '\r' then "\n"
                              else if (n < 0x20 && n != 9 && n != 10) || 0x7f <= n < 0xa0 || n in BIDI_CONTROLS
                              then "\\u{" + Numeral(n, 16) + "}"
                              else [c]
    ensures Value(Numeral(c as int, 16), 16) == c as int
  {
    NumeralValue(c as int, 16);
    OneIsRendered(c);
    EscapedIff(c);
  }

  lemma OneIsRendered(c: char)
    ensures RenderAll([c]) == if c == '\r' then "\n" else RenderChar(c)
  {
    assert [c][1..] == "" && RenderAll("") == "";
    assert RenderChar(c) + "" == RenderChar(c);
  }

  lemma EscapedIff(c: char)
    ensures var n := c as int;
            c != '\r' ==>
              RenderChar(c) == if (n < 0x20 && n != 9 && n != 10) || 0x7f <= n < 0xa0 || n in BIDI_CONTROLS
                               then "\\u{" + Numeral(n, 16) + "}"
                               else [c]
  {
    BidiIff(c);
  }

  lemma BidiIff(c: char)
    ensures IsBidiControl(c) <==> c as int in BIDI_CONTROLS
  {
  }

  // ---- what can be told from a rendering ----

  /** The two characters by which different texts can be rendered alike: CR as an LF, and a written escape as an
      escape. */
  predicate Unambiguous(s: string) {
    '\r' !in s && '\\' !in s
  }

  function Ended(s: string): string {
    if EndsLine(s) then s else s + "\n"
  }

  lemma EscapeParts(c: char, x: string)
    ensures EscapeUnicode(c) + x == "\\u{" + (Numeral(c as int, 16) + ("}" + x))
  {
  }

  lemma EscapeIsDelimited(c: char, x: string, d: char, y: string)
    requires EscapeUnicode(c) + x == EscapeUnicode(d) + y
    ensures c == d && x == y
  {
    EscapeParts(c, x);
    EscapeParts(d, y);
    SameTail("\\u{", Numeral(c as int, 16) + ("}" + x), Numeral(d as int, 16) + ("}" + y));
    NumeralIsDelimited(c as int, "}" + x, d as int, "}" + y, 16);
    SameTail("}", x, y);
  }

  lemma RenderedCharIsDelimited(c: char, x: string, d: char, y: string)
    requires c != '\r' && c != '\\' && d != '\r' && d != '\\'
    requires RenderChar(c) + x == RenderChar(d) + y
    ensures c == d && x == y
  {
    assert RenderChar(c)[0] == (RenderChar(c) + x)[0] == (RenderChar(d) + y)[0] == RenderChar(d)[0];
    if RenderChar(c)[0] == '\\' {
      EscapeIsDelimited(c, x, d, y);
    } else {
      SameTail([c], x, y);
    }
  }

  lemma {:induction false} RenderAllIsInjective(a: string, b: string)
    requires Unambiguous(a) && Unambiguous(b) && RenderAll(a) == RenderAll(b)
    ensures a == b
  {
    if a != "" && b != "" {
      assert a[0] in a && b[0] in b;
      RenderedCharIsDelimited(a[0], RenderAll(a[1..]), b[0], RenderAll(b[1..]));
      assert (forall c <- a[1..] :: c in a) && (forall c <- b[1..] :: c in b);
      RenderAllIsInjective(a[1..], b[1..]);
      assert a == [a[0]] + a[1..] && b == [b[0]] + b[1..];
    }
  }

  lemma RenderFirst(c: char, rest: string)
    requires c != '\r'
    ensures RenderAll([c] + rest) == RenderChar(c) + RenderAll(rest)
  {
    assert ([c] + rest)[1..] == rest;
  }

  lemma {:induction false} RenderAllAppends(a: string, b: string)
    requires '\r' !in a
    ensures RenderAll(a + b) == RenderAll(a) + RenderAll(b)
  {
    if a == "" {
      assert a + b == b;
    } else {
      var c, rest := a[0], a[1..];
      assert a == [c] + rest && a + b == [c] + (rest + b);
      RenderFirst(c, rest);
      RenderFirst(c, rest + b);
      RenderAllAppends(rest, b);
      Associates(RenderChar(c), RenderAll(rest), RenderAll(b));
    }
  }

  lemma RenderEnds(s: string)
    requires Unambiguous(s)
    ensures Render(s) == RenderAll(Ended(s))
  {
    RenderAllAppends(s, "\n");
    assert RenderAll("\n") == "\n";
    if s != "" {
      var front, last := s[..|s| - 1], s[|s| - 1];
      assert s == front + [last] && last in s;
      assert forall c <- front :: c in s;
      RenderAllAppends(front, [last]);
      assert [last][1..] == "";
      assert RenderAll([last]) == RenderChar(last);
    }
  }

  /** Rendering hides nothing else: texts without CR and backslash are rendered alike only if they are the same, but
      for a final LF. */
  lemma RenderIsFaithful(a: string, b: string)
    requires Unambiguous(a) && Unambiguous(b)
    ensures Render(a) == Render(b) <==> Ended(a) == Ended(b)
  {
    RenderEnds(a);
    RenderEnds(b);
    if Render(a) == Render(b) {
      RenderAllIsInjective(Ended(a), Ended(b));
    }
  }

  /** With a CR or a backslash that is not so. */
  lemma RenderConfusesLineEnds()
    ensures Render("\r") == Render("\n") && Ended("\r") != Ended("\n")
  {
  }

  lemma RenderConfusesWrittenEscapes(c: char)
    requires !IsPlain(c) && ShouldEscape(c) && c != '\r'
    ensures Render(EscapeUnicode(c)) == Render([c]) && Ended(EscapeUnicode(c)) != Ended([c])
  {
    HarmlessStays(EscapeUnicode(c));
    RenderFirst(c, "");
    assert [c] + "" == [c];
    assert Ended([c])[0] == c && Ended(EscapeUnicode(c))[0] == '\\';
  }
}
