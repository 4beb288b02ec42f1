/**
 The query of the authorization callback: a strict check of its percent-encoding before a lenient form parser (section
 5.1 of the WHATWG URL Standard) reads it, and what is accepted as an answer.
 */
module CallbackQuery {
  import opened Wrappers
  import opened Bytes
  import opened Text
  import opened Numerals
  import Utf8

  const PERCENT: byte := 37
  const AMPERSAND: byte := 38
  const PLUS: byte := 43
  const EQUALS: byte := 61
  const QUESTION: byte := 63
  const SPACE: byte := 32

  function HexByte(b: byte): (r: Option<byte>)
    ensures r.Some? ==> r.value < 16
  {
    var value := HexValue(b as char);
    if value.Some? then Some(value.value as byte) else None
  }

  // The byte that an escape at the start stands for (section 2.1 of RFC 3986).
  function Escaped(s: Bytes): Option<byte> {
    if |s| < 3 || s[0] != PERCENT || HexByte(s[1]).None? || HexByte(s[2]).None? then None
    else Some(16 * HexByte(s[1]).value + HexByte(s[2]).value)
  }

  // ---- the strict check ----

  // The first byte behind the escapes and how much of the query it takes.
  function Next(s: Bytes): (r: Option<(byte, nat)>)
    requires s != []
    ensures r.Some? ==> 1 <= r.value.1 <= |s|
  {
    if s[0] == PERCENT then (if Escaped(s).Some? then Some((Escaped(s).value, 3)) else None)
    else if Utf8.IsAscii(s[0]) then Some((s[0], 1))
    else None
  }

  function Prepended(front: Bytes, rest: Option<Bytes>): Option<Bytes> {
    if rest.Some? then Some(front + rest.value) else None
  }

  /** The bytes behind the escapes; None if an escape is incomplete or a byte is not ASCII. */
  function Strict(s: Bytes): Option<Bytes> {
    if s == [] then Some([])
    else match Next(s)
      case None => None
      case Some((b, n)) => Prepended([b], Strict(s[n..]))
  }

  predicate WellFormed(query: Bytes) {
    Strict(query).Some? && Utf8.Valid(Strict(query).value)
  }

  method QueryIsWellFormed(query: Bytes) returns (ok: bool)
    ensures ok == WellFormed(query)
  {
    var decoded: Bytes := [];
    var index := 0;
    assert query[0..] == query && (Strict(query).Some? ==> [] + Strict(query).value == Strict(query).value);
    while index < |query|
      invariant index <= |query|
      invariant Strict(query) == Prepended(decoded, Strict(query[index..]))
    {
      ghost var s := query[index..];
      if Next(s).Some? {
        PrependTwice(decoded, Next(s).value.0, Strict(s[Next(s).value.1..]));
      }
      if query[index] == PERCENT {
        if index + 1 >= |query| || HexByte(query[index + 1]).None? {
          return false;
        }
        if index + 2 >= |query| || HexByte(query[index + 2]).None? {
          return false;
        }
        assert s[3..] == query[index + 3..];
        decoded := decoded + [16 * HexByte(query[index + 1]).value + HexByte(query[index + 2]).value];
        index := index + 3;
      } else if Utf8.IsAscii(query[index]) {
        assert s[1..] == query[index + 1..];
        decoded := decoded + [query[index]];
        index := index + 1;
      } else {
        return false;
      }
    }
    assert query[index..] == [] && decoded + [] == decoded;
    return Utf8.Valid(decoded);
  }

  lemma PrependTwice(front: Bytes, b: byte, rest: Option<Bytes>)
    ensures Prepended(front, Prepended([b], rest)) == Prepended(front + [b], rest)
  {
    if rest.Some? {
      assert front + ([b] + rest.value) == front + [b] + rest.value;
    }
  }

  // ---- the form parser ----

  /** Escapes that are not complete stand for themselves, and a plus sign for a space. */
  function Lenient(s: Bytes): Bytes {
    if s == [] then []
    else if Escaped(s).Some? then [Escaped(s).value] + Lenient(s[3..])
    else [if s[0] == PLUS then SPACE else s[0]] + Lenient(s[1..])
  }

  function After(s: Bytes, i: nat): (r: Bytes)
    requires i <= |s|
    ensures i < |s| ==> s == s[..i] + [s[i]] + r
    ensures i == |s| ==> s == s[..i] && r == []
  {
    if i < |s| then s[i + 1..] else []
  }

  function Pair(s: Bytes): (Bytes, Bytes) {
    var i := Find(s, EQUALS);
    (Lenient(s[..i]), Lenient(After(s, i)))
  }

  /** The names and values of a form, still as bytes. */
  function Pairs(query: Bytes): seq<(Bytes, Bytes)>
    decreases |query|
  {
    if query == [] then []
    else
      var i := Find(query, AMPERSAND);
      (if i == 0 then [] else [Pair(query[..i])]) + Pairs(After(query, i))
  }

  predicate IsText(pair: (Bytes, Bytes)) {
    Utf8.Valid(pair.0) && Utf8.Valid(pair.1)
  }

  // ---- the check suffices ----

  function Joined(a: Option<Bytes>, c: byte, b: Option<Bytes>): Option<Bytes> {
    if a.Some? && b.Some? then Some(a.value + [c] + b.value) else None
  }

  /** An unescaped byte that is no part of an escape splits the bytes behind the escapes where it splits the query. */
  lemma {:induction false} StrictSplits(a: Bytes, c: byte, b: Bytes)
    requires Utf8.IsAscii(c) && c != PERCENT && HexByte(c).None?
    ensures Strict(a + [c] + b) == Joined(Strict(a), c, Strict(b))
    decreases |a|
  {
    var s := a + [c] + b;
    if a == [] {
      assert s[1..] == b && [] + [c] == [c];
    } else {
      EscapeStops(a, c, b);
      assert s[0] == a[0];
      if Next(a).Some? {
        var (v, n) := Next(a).value;
        assert s[n..] == a[n..] + [c] + b;
        StrictSplits(a[n..], c, b);
        JoinedPrepends(v, Strict(a[n..]), c, Strict(b));
      }
    }
  }

  lemma JoinedPrepends(v: byte, a: Option<Bytes>, c: byte, b: Option<Bytes>)
    ensures Prepended([v], Joined(a, c, b)) == Joined(Prepended([v], a), c, b)
  {
    if a.Some? && b.Some? {
      assert [v] + (a.value + [c] + b.value) == [v] + a.value + [c] + b.value;
    }
  }

  lemma EscapeStops(a: Bytes, c: byte, b: Bytes)
    requires a != [] && HexByte(c).None?
    ensures Escaped(a + [c] + b) == Escaped(a)
  {
    var s := a + [c] + b;
    assert s[|a|] == c;
    assert forall i | 0 <= i < |a| :: s[i] == a[i];
  }

  ghost predicate SpacedAlike(a: Bytes, b: Bytes) {
    |a| == |b| && forall i | 0 <= i < |a| :: a[i] == b[i] || (a[i] == PLUS && b[i] == SPACE)
  }

  // Where the strict reading accepts, the lenient one differs by spaces only.
  lemma {:induction false} LenientIsStrict(s: Bytes)
    requires Strict(s).Some?
    ensures SpacedAlike(Strict(s).value, Lenient(s))
  {
    if s != [] {
      LenientIsStrict(s[Next(s).value.1..]);
    }
  }

  lemma {:induction false} SpacesKeepText(a: Bytes, b: Bytes)
    requires SpacedAlike(a, b)
    ensures Utf8.Valid(a) <==> Utf8.Valid(b)
    decreases |a|
  {
    if a != [] {
      SpacesKeepHead(a, b);
      var n := Utf8.Head(a);
      if n > 0 {
        SpacesKeepText(a[n..], b[n..]);
      }
    }
  }

  lemma SpacesKeepHead(a: Bytes, b: Bytes)
    requires SpacedAlike(a, b)
    ensures Utf8.Head(a) == Utf8.Head(b)
  {
  }

  lemma LenientIsText(s: Bytes)
    requires Strict(s).Some?
    ensures Utf8.Valid(Lenient(s)) <==> Utf8.Valid(Strict(s).value)
  {
    LenientIsStrict(s);
    SpacesKeepText(Strict(s).value, Lenient(s));
  }

  lemma PairIsText(s: Bytes)
    requires Strict(s).Some?
    ensures IsText(Pair(s)) <==> Utf8.Valid(Strict(s).value)
  {
    var i := Find(s, EQUALS);
    var a, b := s[..i], After(s, i);
    if i < |s| {
      StrictSplits(a, EQUALS, b);
      Utf8.ValidAroundAscii(Strict(a).value, EQUALS, Strict(b).value);
      LenientIsText(b);
    }
    LenientIsText(a);
  }

  /** For a query without broken escapes, the check accepts exactly when every name and value that the form parser
      reads is well-formed UTF-8: it never has to substitute a character, and no such query is turned away. */
  lemma {:induction false} CheckSuffices(query: Bytes)
    requires Strict(query).Some?
    ensures WellFormed(query) <==> forall pair <- Pairs(query) :: IsText(pair)
    decreases |query|
  {
    if query != [] {
      var i := Find(query, AMPERSAND);
      var a, b := query[..i], After(query, i);
      if i < |query| {
        StrictSplits(a, AMPERSAND, b);
        Utf8.ValidAroundAscii(Strict(a).value, AMPERSAND, Strict(b).value);
      }
      PairIsText(a);
      CheckSuffices(b);
    }
  }

  // ---- the answer ----

  const CALLBACK_PATH := "/auth/callback"
  const ACCEPTED_STATE_SUFFIX := ".onboarding_entrypoint=life_sciences"
  const MAX_REQUEST_TARGET_BYTES := 8 * 1024

  datatype Outcome = Code(code: string) | Denied | TemporarilyUnavailable | AuthorizationFailed | Invalid | Oversized

  type Form = seq<(string, string)>

  /** The form, where every name and value is text. */
  function FormOf(pairs: seq<(Bytes, Bytes)>): (r: Form)
    requires forall pair <- pairs :: IsText(pair)
    ensures |r| == |pairs|
    ensures forall i | 0 <= i < |pairs| ::
              Utf8.Encode(r[i].0) == pairs[i].0 && Utf8.Encode(r[i].1) == pairs[i].1
  {
    if pairs == [] then []
    else
      assert IsText(pairs[0]);
      Utf8.DecodedEncodes(pairs[0].0);
      Utf8.DecodedEncodes(pairs[0].1);
      [(Utf8.Decode(pairs[0].0), Utf8.Decode(pairs[0].1))] + FormOf(pairs[1..])
  }

  /** The values given for a name, in order. */
  function Values(form: Form, name: string): seq<string> {
    if form == [] then []
    else
      var (n, v) := form[|form| - 1];
      Values(form[..|form| - 1], name) + (if n == name then [v] else [])
  }

  predicate AcceptedState(candidate: string, expected: string) {
    candidate == expected || candidate == expected + ACCEPTED_STATE_SUFFIX
  }

  predicate IsSafe(value: string) {
    value != "" && !HasControl(value)
  }

  function ErrorOutcome(error: string): Outcome {
    if error == "access_denied" then Denied
    else if error == "server_error" || error == "temporarily_unavailable" then TemporarilyUnavailable
    else AuthorizationFailed
  }

  /** Exactly one state, the expected one, and exactly one of a code and an error. */
  function Answer(form: Form, expected: string): Outcome {
    var states, codes, errors := Values(form, "state"), Values(form, "code"), Values(form, "error");
    if |states| != 1 || states[0] == "" || !AcceptedState(states[0], expected) then Invalid
    else if |codes| == 1 && errors == [] && IsSafe(codes[0]) then Code(codes[0])
    else if codes == [] && |errors| == 1 && IsSafe(errors[0]) then ErrorOutcome(errors[0])
    else Invalid
  }

  function Single(values: seq<string>): Option<string> {
    if |values| == 1 then Some(values[0]) else None
  }

  lemma {:induction false} ValuesGrow(form: Form, k: nat, name: string)
    requires k <= |form|
    ensures |Values(form[..k], name)| <= |Values(form, name)|
    decreases |form|
  {
    if k == |form| {
      assert form[..k] == form;
    } else {
      assert form[..|form| - 1][..k] == form[..k];
      ValuesGrow(form[..|form| - 1], k, name);
    }
  }

  /** The loop over the form, which stops at the first name that is given twice. */
  method ReadForm(form: Form, expected: string) returns (r: Outcome)
    ensures r == Answer(form, expected)
  {
    var state: Option<string>, code: Option<string>, error: Option<string> := None, None, None;
    for i := 0 to |form|
      invariant |Values(form[..i], "state")| <= 1 && state == Single(Values(form[..i], "state"))
      invariant |Values(form[..i], "code")| <= 1 && code == Single(Values(form[..i], "code"))
      invariant |Values(form[..i], "error")| <= 1 && error == Single(Values(form[..i], "error"))
    {
      assert form[..i + 1][..i] == form[..i];
      ValuesGrow(form, i + 1, "state");
      ValuesGrow(form, i + 1, "code");
      ValuesGrow(form, i + 1, "error");
      var (name, value) := form[i];
      if name == "state" {
        if state.Some? { return Invalid; }
        state := Some(value);
      } else if name == "code" {
        if code.Some? { return Invalid; }
        code := Some(value);
      } else if name == "error" {
        if error.Some? { return Invalid; }
        error := Some(value);
      }
    }
    assert form[..|form|] == form;
    if state.None? || state.value == "" || !AcceptedState(state.value, expected) {
      return Invalid;
    }
    if code.Some? && error.None? && IsSafe(code.value) {
      return Code(code.value);
    }
    if code.None? && error.Some? && IsSafe(error.value) {
      return ErrorOutcome(error.value);
    }
    return Invalid;
  }

  /** A GET request for the callback path, short enough and with a well-formed query, is answered as its form says; any
      other request gives nothing away and ends nothing. */
  function Decision(isGet: bool, target: Bytes, expected: string): Outcome {
    var i := Find(target, QUESTION);
    var query := After(target, i);
    if !isGet then Invalid
    else if |target| > MAX_REQUEST_TARGET_BYTES then Oversized
    else if target[..i] != Utf8.Encode(CALLBACK_PATH) || !WellFormed(query) then Invalid
    else
      CheckSuffices(query);
      Answer(FormOf(Pairs(query)), expected)
  }

  method ValidateRequest(isGet: bool, target: Bytes, expected: string) returns (r: Outcome)
    ensures r == Decision(isGet, target, expected)
  {
    if !isGet {
      return Invalid;
    }
    if |target| > MAX_REQUEST_TARGET_BYTES {
      return Oversized;
    }
    var i := Find(target, QUESTION);
    var query := After(target, i);
    if target[..i] != Utf8.Encode(CALLBACK_PATH) {
      return Invalid;
    }
    var ok := QueryIsWellFormed(query);
    if !ok {
      return Invalid;
    }
    CheckSuffices(query);
    r := ReadForm(FormOf(Pairs(query)), expected);
  }

  // ---- what a provider sends is what is read ----

  // The bytes that the form serializer leaves alone.
  predicate IsUnreserved(b: byte) {
    48 <= b <= 57 || 65 <= b <= 90 || 97 <= b <= 122 || b == 42 || b == 45 || b == 46 || b == 95
  }

  function HexOf(n: byte): byte
    requires n < 16
  {
    if n < 10 then 48 + n else 65 + n - 10
  }

  /** The form serializer (section 5.2 of the WHATWG URL Standard). */
  function FormEncoded(s: Bytes): Bytes {
    if s == [] then []
    else
      (if IsUnreserved(s[0]) then [s[0]]
       else if s[0] == SPACE then [PLUS]
       else [PERCENT, HexOf(s[0] / 16), HexOf(s[0] % 16)]) + FormEncoded(s[1..])
  }

  function Piece(pair: (Bytes, Bytes)): Bytes {
    FormEncoded(pair.0) + [EQUALS] + FormEncoded(pair.1)
  }

  function Serialized(pairs: seq<(Bytes, Bytes)>): Bytes {
    if pairs == [] then []
    else if |pairs| == 1 then Piece(pairs[0])
    else Piece(pairs[0]) + [AMPERSAND] + Serialized(pairs[1..])
  }

  lemma HexBack(n: byte)
    requires n < 16
    ensures HexByte(HexOf(n)) == Some(n) && Utf8.IsAscii(HexOf(n)) && HexOf(n) != AMPERSAND && HexOf(n) != EQUALS
  {
  }

  lemma EscapeReads(b: byte, rest: Bytes)
    ensures var e := [PERCENT, HexOf(b / 16), HexOf(b % 16)] + rest;
            && Lenient(e) == [b] + Lenient(rest)
            && Strict(e) == Prepended([b], Strict(rest))
  {
    var e := [PERCENT, HexOf(b / 16), HexOf(b % 16)] + rest;
    HexBack(b / 16);
    HexBack(b % 16);
    assert Escaped(e) == Some(b) && e[3..] == rest;
  }

  lemma PlainReads(b: byte, rest: Bytes)
    requires b != PERCENT && Utf8.IsAscii(b)
    ensures Lenient([b] + rest) == [if b == PLUS then SPACE else b] + Lenient(rest)
    ensures Strict([b] + rest) == Prepended([b], Strict(rest))
  {
    assert ([b] + rest)[1..] == rest;
  }

  lemma {:induction false} EncodedReadsBack(s: Bytes)
    ensures Lenient(FormEncoded(s)) == s && Strict(FormEncoded(s)).Some?
    ensures AMPERSAND !in FormEncoded(s) && EQUALS !in FormEncoded(s)
  {
    if s != [] {
      var b, rest := s[0], FormEncoded(s[1..]);
      assert s == [b] + s[1..];
      EncodedReadsBack(s[1..]);
      if IsUnreserved(b) || b == SPACE {
        PlainReads(if b == SPACE then PLUS else b, rest);
      } else {
        EscapeReads(b, rest);
        HexBack(b / 16);
        HexBack(b % 16);
      }
    }
  }

  lemma SplitsThere(a: Bytes, c: byte, b: Bytes)
    requires c !in a
    ensures Find(a + [c] + b, c) == |a| && (a + [c] + b)[..|a|] == a && After(a + [c] + b, |a|) == b
  {
    FindsFirst(a, c, b);
  }

  lemma FindsNone(a: Bytes, c: byte)
    requires c !in a
    ensures Find(a, c) == |a|
  {
  }

  lemma PieceReadsBack(pair: (Bytes, Bytes))
    ensures Pair(Piece(pair)) == pair && Strict(Piece(pair)).Some? && Piece(pair) != [] && AMPERSAND !in Piece(pair)
  {
    EncodedReadsBack(pair.0);
    EncodedReadsBack(pair.1);
    SplitsThere(FormEncoded(pair.0), EQUALS, FormEncoded(pair.1));
    StrictSplits(FormEncoded(pair.0), EQUALS, FormEncoded(pair.1));
  }

  lemma OnePiece(pair: (Bytes, Bytes))
    ensures Pairs(Piece(pair)) == [pair]
  {
    var s := Piece(pair);
    PieceReadsBack(pair);
    FindsNone(s, AMPERSAND);
    assert s[..|s|] == s && Pairs([]) == [];
  }

  lemma PieceAndMore(pair: (Bytes, Bytes), s: Bytes)
    requires Strict(s).Some?
    ensures Pairs(Piece(pair) + [AMPERSAND] + s) == [pair] + Pairs(s)
    ensures Strict(Piece(pair) + [AMPERSAND] + s).Some?
  {
    PieceReadsBack(pair);
    SplitsThere(Piece(pair), AMPERSAND, s);
    StrictSplits(Piece(pair), AMPERSAND, s);
  }

  lemma {:induction false} SerializedReadsBack(pairs: seq<(Bytes, Bytes)>)
    ensures Pairs(Serialized(pairs)) == pairs && Strict(Serialized(pairs)).Some?
  {
    if |pairs| == 1 {
      OnePiece(pairs[0]);
      PieceReadsBack(pairs[0]);
    } else if pairs != [] {
      SerializedReadsBack(pairs[1..]);
      PieceAndMore(pairs[0], Serialized(pairs[1..]));
    }
  }

  function BytesOf(form: Form): (r: seq<(Bytes, Bytes)>)
    ensures |r| == |form|
    ensures forall i | 0 <= i < |form| :: r[i] == (Utf8.Encode(form[i].0), Utf8.Encode(form[i].1))
  {
    seq(|form|, i requires 0 <= i < |form| => (Utf8.Encode(form[i].0), Utf8.Encode(form[i].1)))
  }

  /** Whatever texts a provider serializes, the check accepts them and the form parser gives them back. */
  lemma SerializedFormsAreRead(form: Form)
    ensures WellFormed(Serialized(BytesOf(form)))
    ensures forall pair <- Pairs(Serialized(BytesOf(form))) :: IsText(pair)
    ensures FormOf(Pairs(Serialized(BytesOf(form)))) == form
  {
    var pairs := BytesOf(form);
    SerializedReadsBack(pairs);
    forall i | 0 <= i < |pairs| ensures IsText(pairs[i]) {
      Utf8.EncodedIsValid(form[i].0);
      Utf8.EncodedIsValid(form[i].1);
    }
    CheckSuffices(Serialized(pairs));
    var back := FormOf(pairs);
    forall i | 0 <= i < |form| ensures back[i] == form[i] {
      Utf8.EncodeIsInjective(back[i].0, form[i].0);
      Utf8.EncodeIsInjective(back[i].1, form[i].1);
    }
  }

  function Target(form: Form): Bytes {
    Utf8.Encode(CALLBACK_PATH) + [QUESTION] + Serialized(BytesOf(form))
  }

  /** A callback of any length that fits is decided by its form alone. */
  lemma SerializedCallbacksAreDecided(form: Form, expected: string)
    ensures Decision(true, Target(form), expected)
            == if |Target(form)| > MAX_REQUEST_TARGET_BYTES then Oversized else Answer(form, expected)
  {
    PathHasNoQuestion();
    SplitsThere(Utf8.Encode(CALLBACK_PATH), QUESTION, Serialized(BytesOf(form)));
    SerializedFormsAreRead(form);
  }

  lemma {:induction false} EncodedAscii(s: string, c: byte)
    requires Utf8.IsAscii(c) && (c as char) !in s
    ensures c !in Utf8.Encode(s)
  {
    if s != "" {
      assert s[0] in s && forall d <- s[1..] :: d in s;
      EncodedAscii(s[1..], c);
    }
  }

  lemma PathHasNoQuestion()
    ensures QUESTION !in Utf8.Encode(CALLBACK_PATH)
  {
    EncodedAscii(CALLBACK_PATH, QUESTION);
  }

  lemma ValuesOfTwo(a: (string, string), b: (string, string), name: string)
    ensures Values([a, b], name) == (if a.0 == name then [a.1] else []) + (if b.0 == name then [b.1] else [])
  {
    assert [a, b][..1] == [a] && [a][..0] == [];
    assert Values([a], name) == [] + if a.0 == name then [a.1] else [];
  }

  /** Every code that holds no control character reaches the exchange as the provider sent it. */
  lemma CodesArrive(code: string, expected: string)
    requires IsSafe(code) && expected != ""
    ensures var target := Target([("code", code), ("state", expected)]);
            |target| <= MAX_REQUEST_TARGET_BYTES ==> Decision(true, target, expected) == Code(code)
  {
    var a, b := ("code", code), ("state", expected);
    SerializedCallbacksAreDecided([a, b], expected);
    ValuesOfTwo(a, b, "code");
    ValuesOfTwo(a, b, "state");
    ValuesOfTwo(a, b, "error");
    assert Answer([a, b], expected) == Code(code);
  }
}
