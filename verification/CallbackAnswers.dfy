/**
 What a callback request is answered with, said of the request itself: which states are let in, which fields may come
 with them, and which queries, paths and methods are turned away.
 */
module CallbackAnswers {
  import opened Wrappers
  import opened Bytes
  import opened Sequences
  import opened CallbackQuery
  import Utf8

  // ---- fields ----

  /** The field is given with this value and not again. */
  predicate Once(form: Form, name: string, value: string) {
    exists i :: 0 <= i < |form| && form[i] == (name, value) && OnlyAt(form, name, i)
  }

  predicate OnlyAt(form: Form, name: string, i: int) {
    forall j | 0 <= j < |form| && j != i :: form[j].0 != name
  }

  predicate Never(form: Form, name: string) {
    forall j | 0 <= j < |form| :: form[j].0 != name
  }

  lemma {:induction false} ValuesAre(form: Form, name: string)
    ensures Values(form, name) == [] <==> Never(form, name)
    ensures forall value :: Values(form, name) == [value] <==> Once(form, name, value)
    decreases |form|
  {
    if form != [] {
      var front, last := form[..|form| - 1], form[|form| - 1];
      assert form == front + [last];
      ValuesAre(front, name);
      NeverSnoc(front, last, name);
      forall value ensures Values(form, name) == [value] <==> Once(form, name, value) {
        OnceSnoc(front, last, name, value);
        if last.0 == name {
          OneMore(Values(front, name), last.1, value);
        } else {
          assert Values(front, name) + [] == Values(front, name);
        }
      }
    }
  }

  lemma OneMore(front: seq<string>, last: string, value: string)
    ensures front + [last] == [value] <==> front == [] && last == value
  {
    if front + [last] == [value] {
      assert |front + [last]| == 1 && (front + [last])[0] == value;
    }
  }

  lemma NeverSnoc(front: Form, last: (string, string), name: string)
    ensures Never(front + [last], name) <==> Never(front, name) && last.0 != name
  {
    var form := front + [last];
    assert form[|front|] == last && forall i | 0 <= i < |front| :: form[i] == front[i];
  }

  lemma OnceSnoc(front: Form, last: (string, string), name: string, value: string)
    ensures Once(front + [last], name, value)
            <==> if last.0 == name then last.1 == value && Never(front, name) else Once(front, name, value)
  {
    var form := front + [last];
    assert form[|front|] == last && forall i | 0 <= i < |front| :: form[i] == front[i];
    if last.0 == name && last.1 == value && Never(front, name) {
      assert form[|front|] == (name, value) && OnlyAt(form, name, |front|);
    }
    if last.0 != name && Once(front, name, value) {
      var i :| 0 <= i < |front| && front[i] == (name, value) && OnlyAt(front, name, i);
      assert form[i] == (name, value) && OnlyAt(form, name, i);
    }
    if Once(form, name, value) {
      var i :| 0 <= i < |form| && form[i] == (name, value) && OnlyAt(form, name, i);
      if i < |front| {
        assert form[|front|].0 != name && front[i] == (name, value) && OnlyAt(front, name, i);
      } else {
        forall j | 0 <= j < |front| ensures front[j].0 != name {
          assert form[j].0 != name;
        }
      }
    }
  }

  // ---- who is let in ----

  // Unicode general category Cc.
  predicate NoControl(value: string) {
    forall i | 0 <= i < |value| :: ' ' <= value[i] && !('\U{7f}' <= value[i] <= '\U{9f}')
  }

  predicate StateMatches(form: Form, expected: string) {
    || (expected != "" && Once(form, "state", expected))
    || Once(form, "state", expected + ".onboarding_entrypoint=life_sciences")
  }

  predicate Fits(form: Form) {
    |Target(form)| <= 8192
  }

  /** A code comes through exactly if the callback is short enough, names the expected state once, alone or with the one
      suffix that is pinned, and gives one code, not empty and without control characters, and no error. */
  lemma CodesComeThroughExactly(form: Form, expected: string, code: string)
    ensures Decision(true, Target(form), expected) == Code(code)
            <==> && Fits(form) && StateMatches(form, expected) && Never(form, "error")
                 && Once(form, "code", code) && code != "" && NoControl(code)
  {
    SerializedCallbacksAreDecided(form, expected);
    FieldsAre(form, expected, code);
  }

  predicate Refused(form: Form, expected: string, error: string) {
    StateMatches(form, expected) && Never(form, "code") && Once(form, "error", error)
  }

  predicate IsKnown(error: string) {
    error == "access_denied" || error == "server_error" || error == "temporarily_unavailable"
  }

  ghost predicate OtherwiseRefused(form: Form, expected: string) {
    exists error :: Refused(form, expected, error) && error != "" && NoControl(error) && !IsKnown(error)
  }

  /** A refusal by the provider comes through the same way, without a code, and each kind is told by its own name. */
  lemma RefusalsAreToldApart(form: Form, expected: string)
    ensures var answer := Decision(true, Target(form), expected);
            && (answer == Denied <==> Fits(form) && Refused(form, expected, "access_denied"))
            && (answer == TemporarilyUnavailable <==>
                  && Fits(form)
                  && (Refused(form, expected, "server_error") || Refused(form, expected, "temporarily_unavailable")))
            && (answer == AuthorizationFailed <==> Fits(form) && OtherwiseRefused(form, expected))
  {
    SerializedCallbacksAreDecided(form, expected);
    ToldInForm(form, expected);
  }

  lemma ToldInForm(form: Form, expected: string)
    ensures var answer := Answer(form, expected);
            && (answer == Denied <==> Refused(form, expected, "access_denied"))
            && (answer == TemporarilyUnavailable <==>
                  Refused(form, expected, "server_error") || Refused(form, expected, "temporarily_unavailable"))
            && (answer == AuthorizationFailed <==> OtherwiseRefused(form, expected))
            && answer != Oversized
  {
    if |Values(form, "error")| == 1 {
      var error := Values(form, "error")[0];
      OneRefusal(form, expected, error);
      assert Once(form, "error", error);
    } else {
      NoRefusal(form, expected);
    }
  }

  lemma OneRefusal(form: Form, expected: string, error: string)
    requires Values(form, "error") == [error]
    ensures var answer := Answer(form, expected);
            && (forall other :: Once(form, "error", other) <==> other == error)
            && (answer == Denied <==>
                  StateMatches(form, expected) && Never(form, "code") && error == "access_denied")
            && (answer == TemporarilyUnavailable <==>
                  && StateMatches(form, expected) && Never(form, "code")
                  && (error == "server_error" || error == "temporarily_unavailable"))
            && (answer == AuthorizationFailed <==>
                  && StateMatches(form, expected) && Never(form, "code")
                  && error != "" && NoControl(error) && !IsKnown(error))
  {
    RefusalOf(form, expected, error);
    KnownErrorsAreSafe();
    SafeIff(error);
  }

  /** No other state is let in, and a callback that is too long is told so before anything is read. */
  lemma OtherStatesAreRefused(form: Form, expected: string, state: string)
    requires ("state", state) in form
    requires state != expected && state != expected + ".onboarding_entrypoint=life_sciences"
    ensures Decision(true, Target(form), expected) == if Fits(form) then Invalid else Oversized
  {
    SerializedCallbacksAreDecided(form, expected);
    FieldsAre(form, expected, "");
    if StateMatches(form, expected) {
      var i :| 0 <= i < |form| && form[i] == ("state", state);
      assert form[i].0 == "state";
    }
  }

  // ---- from fields to values ----

  lemma StatesAre(form: Form, expected: string)
    ensures var states := Values(form, "state");
            StateMatches(form, expected) <==> |states| == 1 && states[0] != "" && AcceptedState(states[0], expected)
  {
    var states := Values(form, "state");
    ValuesAre(form, "state");
    if |states| == 1 {
      assert states == [states[0]];
    }
    assert |expected + ".onboarding_entrypoint=life_sciences"| > 0;
    assert states == [expected] ==> states[0] == expected;
  }

  lemma SafeIff(value: string)
    ensures IsSafe(value) <==> value != "" && NoControl(value)
  {
  }

  lemma KnownErrorsAreSafe()
    ensures IsSafe("access_denied") && IsSafe("server_error") && IsSafe("temporarily_unavailable")
  {
    SafeIff("access_denied");
    SafeIff("server_error");
    SafeIff("temporarily_unavailable");
  }

  lemma FieldsAre(form: Form, expected: string, code: string)
    ensures !StateMatches(form, expected) ==> Answer(form, expected) == Invalid
    ensures Answer(form, expected) == Code(code)
            <==> && StateMatches(form, expected) && Never(form, "error")
                 && Once(form, "code", code) && code != "" && NoControl(code)
  {
    StatesAre(form, expected);
    ValuesAre(form, "code");
    ValuesAre(form, "error");
    SafeIff(code);
    var codes := Values(form, "code");
    if |codes| == 1 {
      assert codes == [codes[0]];
    }
  }

  lemma RefusalOf(form: Form, expected: string, error: string)
    requires Values(form, "error") == [error]
    ensures forall other :: Once(form, "error", other) <==> other == error
    ensures Answer(form, expected) ==
            if StateMatches(form, expected) && Never(form, "code") && error != "" && NoControl(error)
            then ErrorOutcome(error) else Invalid
  {
    StatesAre(form, expected);
    ValuesAre(form, "code");
    ValuesAre(form, "error");
    SafeIff(error);
    forall other ensures Once(form, "error", other) <==> other == error {
      assert [error] == [other] <==> error == other;
    }
  }

  lemma NoRefusal(form: Form, expected: string)
    requires |Values(form, "error")| != 1
    ensures forall other :: !Once(form, "error", other)
    ensures Answer(form, expected).Code? || Answer(form, expected).Invalid?
  {
    ValuesAre(form, "error");
    forall other ensures !Once(form, "error", other) {
      assert |[other]| == 1;
    }
  }

  // ---- requests that no form describes ----

  /** Whatever follows, only a GET of this one path is read. */
  lemma OtherRequestsAreRefused(isGet: bool, path: Bytes, query: Bytes, expected: string)
    requires QUESTION !in path && (!isGet || path != Utf8.Encode("/auth/callback"))
    ensures Decision(isGet, path + [QUESTION] + query, expected)
            == if isGet && |path| + 1 + |query| > 8192 then Oversized else Invalid
  {
    SplitsThere(path, QUESTION, query);
  }

  predicate IsHexDigit(b: byte) {
    48 <= b <= 57 || 65 <= b <= 70 || 97 <= b <= 102
  }

  /** A query that the strict check can read: ASCII, and two hexadecimal digits after every percent sign. */
  predicate Readable(query: Bytes) {
    forall i | 0 <= i < |query| :: ReadableAt(query, i)
  }

  predicate ReadableAt(query: Bytes, i: nat)
    requires i < |query|
  {
    query[i] < 128 && (query[i] == 37 ==> i + 2 < |query| && IsHexDigit(query[i + 1]) && IsHexDigit(query[i + 2]))
  }

  lemma HexIff(b: byte)
    ensures HexByte(b).Some? <==> IsHexDigit(b)
    ensures HexByte(b).Some? ==> HexByte(b).value == if b <= 57 then b - 48 else if b <= 70 then b - 55 else b - 87
  {
  }

  /** The strict reading exists for exactly those, so any other query is refused. */
  lemma {:induction false} StrictIff(query: Bytes)
    ensures Strict(query).Some? <==> Readable(query)
    decreases |query|
  {
    if query != [] {
      if |query| >= 3 {
        HexIff(query[1]);
        HexIff(query[2]);
      }
      var next := Next(query);
      ReadableHere(query);
      if next.Some? {
        StrictIff(query[next.value.1..]);
      }
    }
  }

  lemma ReadableHere(query: Bytes)
    requires query != [] && (|query| >= 3 ==> (HexByte(query[1]).Some? <==> IsHexDigit(query[1]))
                                              && (HexByte(query[2]).Some? <==> IsHexDigit(query[2])))
    ensures Readable(query) <==> Next(query).Some? && Readable(query[Next(query).value.1..])
  {
    assert ReadableAt(query, 0) <==> Next(query).Some?;
    if Next(query).Some? {
      var n := Next(query).value.1;
      var rest := query[n..];
      assert n == 3 ==> ReadableAt(query, 1) && ReadableAt(query, 2);
      forall i: nat | i < |rest| ensures ReadableAt(rest, i) <==> ReadableAt(query, i + n) {
      }
      if Readable(rest) {
        forall i | 0 <= i < |query| ensures ReadableAt(query, i) {
          if i >= n {
            assert ReadableAt(rest, i - n);
          }
        }
      }
    }
  }

  lemma UnreadableIsRefused(query: Bytes, expected: string)
    requires !Readable(query)
    ensures Decision(true, Utf8.Encode("/auth/callback") + [QUESTION] + query, expected)
            == if |Utf8.Encode("/auth/callback")| + 1 + |query| > 8192 then Oversized else Invalid
  {
    StrictIff(query);
    PathHasNoQuestion();
    SplitsThere(Utf8.Encode("/auth/callback"), QUESTION, query);
  }

  // ---- how a form is read ----

  /** Fields are split at every `&` and empty ones skipped; a field without `=` has an empty value; and the first `=`
      ends the name. */
  lemma FieldsAreSplit(first: Bytes, rest: Bytes)
    requires AMPERSAND !in first
    ensures Pairs(first + [AMPERSAND] + rest) == (if first == [] then [] else Pairs(first)) + Pairs(rest)
  {
    SplitsThere(first, AMPERSAND, rest);
    OneField(first);
  }

  lemma OneField(field: Bytes)
    requires AMPERSAND !in field
    ensures field != [] ==> Pairs(field) == [Pair(field)]
  {
    FindsNone(field, AMPERSAND);
    assert field[..|field|] == field && Pairs([]) == [];
  }

  lemma FieldIsRead(name: Bytes, value: Bytes)
    requires AMPERSAND !in name && AMPERSAND !in value && EQUALS !in name
    ensures Pairs(name + [EQUALS] + value) == [(Lenient(name), Lenient(value))]
    ensures name != [] ==> Pairs(name) == [(Lenient(name), [])]
  {
    var s := name + [EQUALS] + value;
    SplitsThere(name, EQUALS, value);
    FindsNone(s, AMPERSAND);
    FindsNone(name, AMPERSAND);
    FindsNone(name, EQUALS);
    assert s[..|s|] == s && name[..|name|] == name && Pairs([]) == [] && Lenient([]) == [];
  }
}
