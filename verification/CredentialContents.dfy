/** What a record holds and why one is refused, field by field and error by error. */
module CredentialContents {
  import opened Wrappers
  import opened Text
  import opened Bytes
  import opened Integers
  import opened Credential

  // ---- what is read from strings ----

  /** A value may stand in a header if it is not empty, does not start or end with white space, holds no control
      character and is a header value. */
  lemma HeaderValues(lib: Library, value: string)
    ensures ValidHeader(lib, value)
            <==> && value != "" && !IsWhitespace(value[0]) && !IsWhitespace(value[|value| - 1])
                 && (forall i | 0 <= i < |value| :: ' ' <= value[i] && !('\U{7f}' <= value[i] <= '\U{9f}'))
                 && lib.headerValue(value)
  {
    var before, after := TrimIs(value);
    if value != "" && !IsWhitespace(value[0]) && !IsWhitespace(value[|value| - 1]) {
      TrimKeeps(value);
    }
  }

  /** The payload of a token is that of the middle of its three parts, none of them empty. */
  lemma TokenParts(lib: Library, a: string, b: string, c: string)
    requires '.' !in a && '.' !in b && '.' !in c
    ensures DecodeJwtPayload(lib, a + "." + b + "." + c)
            == if a != "" && b != "" && c != "" then lib.payload(b) else None
  {
    SplitOne(c);
    SplitAt(b, c);
    SplitAt(a, b + "." + c);
    assert a + "." + b + "." + c == a + "." + (b + "." + c);
  }

  /** And any other token has none. */
  lemma OtherTokens(lib: Library, token: string) returns (a: string, b: string, c: string)
    requires DecodeJwtPayload(lib, token).Some?
    ensures token == a + "." + b + "." + c && '.' !in a && '.' !in b && '.' !in c
  {
    var parts := SplitDots(token);
    SplitIs(token);
    a, b, c := parts[0], parts[1], parts[2];
    assert parts[1..] == [b, c] && [b, c][1..] == [c];
    assert Dotted([c]) == c && Dotted([b, c]) == b + "." + Dotted([c]);
    assert Dotted(parts) == a + "." + Dotted([b, c]);
    assert a + "." + (b + "." + c) == a + "." + b + "." + c;
  }

  function Dotted(parts: seq<string>): string
    requires parts != []
  {
    if |parts| == 1 then parts[0] else parts[0] + "." + Dotted(parts[1..])
  }

  lemma {:induction false} SplitIs(s: string)
    ensures Dotted(SplitDots(s)) == s && forall part <- SplitDots(s) :: '.' !in part
  {
    if s != "" {
      SplitIs(s[1..]);
      var rest, parts := SplitDots(s[1..]), SplitDots(s);
      assert s == [s[0]] + s[1..];
      if s[0] == '.' {
        assert parts[1..] == rest;
      } else {
        assert parts[1..] == rest[1..];
      }
    }
  }

  lemma {:induction false} SplitOne(s: string)
    requires '.' !in s
    ensures SplitDots(s) == [s]
  {
    if s != "" {
      assert s == [s[0]] + s[1..] && s[0] in s;
      SplitOne(s[1..]);
    }
  }

  lemma {:induction false} SplitAt(a: string, rest: string)
    requires '.' !in a
    ensures SplitDots(a + "." + rest) == [a] + SplitDots(rest)
  {
    var s := a + "." + rest;
    if a == "" {
      assert s[0] == '.' && s[1..] == rest;
    } else {
      assert a[0] in a && s[0] == a[0] && s[1..] == a[1..] + "." + rest && a == [a[0]] + a[1..];
      SplitAt(a[1..], rest);
    }
  }

  /** An account is named by a claim that is more than white space, with none around it. */
  lemma AccountsAre(claims: Option<Claims>)
    ensures AccountId(claims).Some? <==>
              claims.Some? && claims.value.account.Some? && exists i :: 0 <= i < |claims.value.account.value|
                                                                        && !IsWhitespace(claims.value.account.value[i])
    ensures AccountId(claims).Some? ==> AccountId(claims).value == Trim(claims.value.account.value)
  {
    if claims.Some? && claims.value.account.Some? {
      BlankIff(claims.value.account.value);
    }
  }

  /** What is displayed of a claim: its text without white space around it, if some is left, it is short enough and has
      no control character. */
  lemma DisplayedClaims(value: string, maximum: nat)
    ensures var text := Trim(value);
            SafeClaim(Some(value), maximum)
            == if 1 <= |text| <= maximum && (forall i | 0 <= i < |text| :: !IsControl(text[i])) then Some(text)
               else None
    ensures SafeClaim(None, maximum) == None
  {
  }

  /** A lifetime counts from now, if it is positive and the sum can be told. */
  lemma Lifetimes(expiresIn: Option<I64>, now: U64)
    ensures forall deadline: U64 ::
              ResponseExpiry(expiresIn, now) == Some(deadline)
              <==> expiresIn.Some? && expiresIn.value >= 1 && deadline == now + expiresIn.value
  {
  }

  // ---- a login ----

  // The account a token names.
  function AccountIn(lib: Library, token: string): Option<string> {
    AccountId(DecodeJwtPayload(lib, token))
  }

  function ExpiryIn(lib: Library, token: string): Option<U64> {
    var claims := DecodeJwtPayload(lib, token);
    if claims.Some? then claims.value.exp else None
  }

  /** An accepted login stores the three tokens of the response, each as what it is, the account of the id token or else
      of the access token, the claims of the id token for display, and the deadline that comes first: that of the
      lifetime, or of a claim of the access token that has not passed. */
  lemma LoginIsStored(lib: Library, response: TokenResponse, now: U64, record: Record)
    requires Validate(lib, response, now) == Ok(record)
    ensures record.accessToken == response.accessToken && record.refreshToken == response.refreshToken
    ensures record.idToken == response.idToken && record.schemaVersion == 1
    ensures var account := AccountIn(lib, response.idToken);
            Some(record.accountId) == if account.Some? then account else AccountIn(lib, response.accessToken)
    ensures var claims := DecodeJwtPayload(lib, response.idToken);
            && claims.Some?
            && record.email == SafeClaim(claims.value.email, 254) && record.plan == SafeClaim(claims.value.plan, 64)
    ensures var exp, lifetime := ExpiryIn(lib, response.accessToken), ResponseExpiry(response.expiresIn, now);
            record.expiresAt == if exp.None? || exp.value <= now then lifetime
                                else if lifetime.None? || exp.value <= lifetime.value then exp else lifetime
  {
  }

  predicate AllWhite(s: string) {
    forall i | 0 <= i < |s| :: IsWhitespace(s[i])
  }

  predicate LoginMalformed(lib: Library, response: TokenResponse) {
    || AllWhite(response.accessToken) || AllWhite(response.refreshToken) || AllWhite(response.idToken)
    || DecodeJwtPayload(lib, response.idToken).None?
  }

  predicate LoginExpired(lib: Library, response: TokenResponse, now: U64) {
    var exp := ExpiryIn(lib, response.accessToken);
    && (response.expiresIn.Some? || exp.Some?)
    && !(exp.Some? && exp.value > now)
    && !(response.expiresIn.Some? && response.expiresIn.value >= 1 && now + response.expiresIn.value <= U64_MAX)
  }

  /** Why a login is refused: in this order, a token that is blank or an id token that is none; two accounts, or no
      account; and an expiry that leaves no time. */
  lemma LoginsAreRefusedFor(lib: Library, response: TokenResponse, now: U64)
    ensures var id, access := AccountIn(lib, response.idToken), AccountIn(lib, response.accessToken);
            var result := Validate(lib, response, now);
            && (result == Err(MalformedTokenSet) <==> LoginMalformed(lib, response))
            && (result == Err(MismatchedAccount) <==>
                  !LoginMalformed(lib, response) && id.Some? && access.Some? && id.value != access.value)
            && (result == Err(MissingAccount) <==> !LoginMalformed(lib, response) && id.None? && access.None?)
            && (result == Err(InvalidExpiry) <==>
                  && !LoginMalformed(lib, response) && (id.Some? || access.Some?)
                  && (id.Some? && access.Some? ==> id == access) && LoginExpired(lib, response, now))
            && result != Err(Serialization)
  {
    BlankIff(response.accessToken);
    BlankIff(response.refreshToken);
    BlankIff(response.idToken);
  }

  // ---- a refresh ----

  /** An accepted refresh stores the access token of the response, its refresh and id tokens or else the old ones, and
      shows what the id token it was given says, or what was shown before. */
  lemma RefreshIsStored(lib: Library, record: Record, response: RefreshResponse, now: U64, next: Record)
    requires ApplyRefresh(lib, record, response, now) == Ok(next)
    ensures Some(next.accessToken) == response.accessToken && next.accountId == record.accountId
    ensures next.schemaVersion == 1
    ensures next.refreshToken
            == if response.refreshToken.Some? then response.refreshToken.value else record.refreshToken
    ensures next.idToken == if response.idToken.Some? then response.idToken.value else record.idToken
    ensures response.idToken.None? ==> next.email == record.email && next.plan == record.plan
    ensures response.idToken.Some? ==>
              var claims := DecodeJwtPayload(lib, response.idToken.value);
              && claims.Some?
              && next.email == SafeClaim(claims.value.email, 254) && next.plan == SafeClaim(claims.value.plan, 64)
    ensures var exp, lifetime := ExpiryIn(lib, next.accessToken), ResponseExpiry(response.expiresIn, now);
            next.expiresAt == if exp.None? then lifetime
                              else if lifetime.None? || exp.value <= lifetime.value then exp else lifetime
  {
  }

  predicate OtherAccount(lib: Library, token: string, account: string) {
    AccountIn(lib, token).Some? && AccountIn(lib, token).value != account
  }

  predicate AccessMalformed(lib: Library, response: RefreshResponse) {
    || response.accessToken.None? || AllWhite(response.accessToken.value)
    || !ValidHeader(lib, response.accessToken.value) || DecodeJwtPayload(lib, response.accessToken.value).None?
  }

  predicate RotationMalformed(response: RefreshResponse) {
    response.refreshToken.Some? && AllWhite(response.refreshToken.value)
  }

  predicate IdentityMalformed(lib: Library, response: RefreshResponse) {
    response.idToken.Some?
    && (AllWhite(response.idToken.value) || DecodeJwtPayload(lib, response.idToken.value).None?)
  }

  /** Why a refresh is refused: a token that is missing, blank or none, an account that is not the stored one, or no
      expiry at all; it never fails for a deadline that has passed. */
  lemma RefreshesAreRefusedFor(lib: Library, record: Record, response: RefreshResponse, now: U64)
    ensures var result := ApplyRefresh(lib, record, response, now);
            && (AccessMalformed(lib, response) ==> result == Err(MalformedTokenSet))
            && (!AccessMalformed(lib, response) ==>
                  var access := response.accessToken.value;
                  && (OtherAccount(lib, access, record.accountId) ==> result == Err(MismatchedAccount))
                  && (!OtherAccount(lib, access, record.accountId) ==>
                        && (RotationMalformed(response) || IdentityMalformed(lib, response) ==>
                              result == Err(MalformedTokenSet))
                        && (!RotationMalformed(response) && !IdentityMalformed(lib, response) ==>
                              if response.idToken.Some? && OtherAccount(lib, response.idToken.value, record.accountId)
                              then result == Err(MismatchedAccount)
                              else if ExpiryIn(lib, access).None? && ResponseExpiry(response.expiresIn, now).None?
                              then result == Err(InvalidExpiry)
                              else result.Ok?)))
  {
    if response.accessToken.Some? {
      BlankIff(response.accessToken.value);
    }
    if response.refreshToken.Some? {
      BlankIff(response.refreshToken.value);
    }
    if response.idToken.Some? {
      BlankIff(response.idToken.value);
    }
  }

  // ---- reading ----

  predicate HeadersSafe(lib: Library, record: Record) {
    ValidHeader(lib, record.accessToken) && ValidHeader(lib, record.accountId)
  }

  /** What each reader makes of stored bytes. The plain one refuses an expired record, the structural one a record whose
      tokens could not be refreshed or do not belong to its account. */
  lemma StoredBytesAreRead(lib: Library, bytes: Bytes, now: U64)
    ensures var record, plain, structural := lib.decode(bytes), Deserialize(lib, bytes, now),
                                             DeserializeStructural(lib, bytes);
            && (record.None? ==> plain == Err(Malformed) && structural == Err(Malformed))
            && (record.Some? && record.value.schemaVersion != 1 ==>
                  plain == Err(UnsupportedVersion) && structural == Err(UnsupportedVersion))
            && (record.Some? && record.value.schemaVersion == 1 ==>
                  && (!HeadersSafe(lib, record.value) ==> plain == Err(Malformed) && structural == Err(Malformed))
                  && (HeadersSafe(lib, record.value) ==>
                        && plain == (if record.value.expiresAt.Some? && record.value.expiresAt.value <= now
                                     then Err(Expired) else Ok(record.value))
                        && structural == (if || AllWhite(record.value.refreshToken) || AllWhite(record.value.idToken)
                                             || DecodeJwtPayload(lib, record.value.idToken).None?
                                             || OtherAccount(lib, record.value.accessToken, record.value.accountId)
                                             || OtherAccount(lib, record.value.idToken, record.value.accountId)
                                          then Err(Malformed) else Ok(record.value))))
  {
    if lib.decode(bytes).Some? {
      BlankIff(lib.decode(bytes).value.refreshToken);
      BlankIff(lib.decode(bytes).value.idToken);
    }
  }

  // ---- white space ----

  lemma {:induction false} TrimStartIs(s: string) returns (before: string)
    ensures s == before + TrimStart(s) && AllWhite(before)
    ensures TrimStart(s) != "" ==> !IsWhitespace(TrimStart(s)[0])
  {
    before := "";
    if s != "" && IsWhitespace(s[0]) {
      var rest := TrimStartIs(s[1..]);
      before := [s[0]] + rest;
      assert s == [s[0]] + s[1..];
    }
  }

  lemma {:induction false} TrimEndIs(s: string) returns (after: string)
    ensures s == TrimEnd(s) + after && AllWhite(after)
    ensures TrimEnd(s) != "" ==> !IsWhitespace(TrimEnd(s)[|TrimEnd(s)| - 1]) && TrimEnd(s)[0] == s[0]
    decreases |s|
  {
    after := "";
    if s != "" && IsWhitespace(s[|s| - 1]) {
      var rest := TrimEndIs(s[..|s| - 1]);
      after := rest + [s[|s| - 1]];
      assert s == s[..|s| - 1] + [s[|s| - 1]];
    }
  }

  /** Trimming takes the white space at both ends away and nothing else. */
  lemma TrimIs(s: string) returns (before: string, after: string)
    ensures s == before + Trim(s) + after && AllWhite(before) && AllWhite(after)
    ensures Trim(s) != "" ==> !IsWhitespace(Trim(s)[0]) && !IsWhitespace(Trim(s)[|Trim(s)| - 1])
  {
    before := TrimStartIs(s);
    after := TrimEndIs(TrimStart(s));
    assert before + (Trim(s) + after) == before + Trim(s) + after;
  }

  lemma TrimKeeps(s: string)
    requires s != "" && !IsWhitespace(s[0]) && !IsWhitespace(s[|s| - 1])
    ensures Trim(s) == s
  {
  }

  lemma BlankIff(s: string)
    ensures Blank(s) <==> AllWhite(s)
  {
    var before, after := TrimIs(s);
    if Blank(s) {
      assert s == before + after;
    } else {
      assert s[|before|] == Trim(s)[0];
    }
  }

  /** White space is these characters. */
  lemma WhiteSpaceIs(c: char)
    ensures IsWhitespace(c) <==>
              c as int in {0x9, 0xa, 0xb, 0xc, 0xd, 0x20, 0x85, 0xa0, 0x1680, 0x2000, 0x2001, 0x2002, 0x2003, 0x2004,
                           0x2005, 0x2006, 0x2007, 0x2008, 0x2009, 0x200a, 0x2028, 0x2029, 0x202f, 0x205f, 0x3000}
  {
  }
}
