/**
 The stored credential record: how a login builds it, how it is read back, and how a refresh replaces it.
 JSON, base64 and the HTTP header grammar are library calls; they enter as the functions of `Library`.
 */
module Credential {
  import opened Wrappers
  import opened Text
  import opened Bytes
  import opened Integers

  const SCHEMA_VERSION := 1
  const REFRESH_WINDOW_SECONDS := 5 * 60

  datatype Record = Record(
    schemaVersion: U8,
    accessToken: string,
    refreshToken: string,
    idToken: string,
    accountId: string,
    expiresAt: Option<U64>,
    email: Option<string>,
    plan: Option<string>)

  datatype TokenResponse = TokenResponse(
    accessToken: string, refreshToken: string, idToken: string, expiresIn: Option<I64>)

  datatype RefreshResponse = RefreshResponse(
    accessToken: Option<string>, refreshToken: Option<string>, idToken: Option<string>, expiresIn: Option<I64>)

  /** The claims the program looks at in a decoded JWT payload, before any trimming or filtering. */
  datatype Claims = Claims(account: Option<string>, exp: Option<U64>, email: Option<string>, plan: Option<string>)

  datatype StoredError = UnsupportedVersion | Malformed | Expired

  datatype CredentialError = MalformedTokenSet | MissingAccount | MismatchedAccount | InvalidExpiry | Serialization

  /** `decode` and `encode` are the record's JSON codec, `payload` decodes the middle segment of a JWT, and
      `headerValue` says whether a string may be used as an HTTP header value. */
  datatype Library = Library(
    decode: Bytes -> Option<Record>,
    encode: Record -> Option<Bytes>,
    payload: string -> Option<Claims>,
    headerValue: string -> bool)

  /** The one hypothesis on the JSON codec: what is encoded decodes back. */
  ghost predicate Lawful(lib: Library) {
    forall record :: lib.encode(record).Some? ==> lib.decode(lib.encode(record).value) == Some(record)
  }

  // ---- small readers ----

  predicate ValidHeader(lib: Library, value: string) {
    value != "" && value == Trim(value) && !HasControl(value) && lib.headerValue(value)
  }

  function SplitDots(s: string): (parts: seq<string>)
    ensures |parts| > 0
  {
    if s == "" then [""]
    else
      var rest := SplitDots(s[1..]);
      if s[0] == '.' then [""] + rest else [[s[0]] + rest[0]] + rest[1..]
  }

  function DecodeJwtPayload(lib: Library, token: string): Option<Claims> {
    var segments := SplitDots(token);
    if |segments| == 3 && segments[0] != "" && segments[1] != "" && segments[2] != ""
    then lib.payload(segments[1])
    else None
  }

  function AccountId(claims: Option<Claims>): (account: Option<string>)
    ensures account.Some? ==> account.value != ""
  {
    match claims
    case Some(Claims(Some(raw), _, _, _)) => if Blank(raw) then None else Some(Trim(raw))
    case _ => None
  }

  function SafeClaim(value: Option<string>, maximumChars: nat): Option<string> {
    match value
    case None => None
    case Some(raw) =>
      var text := Trim(raw);
      if text == "" || |text| > maximumChars || HasControl(text) then None else Some(text)
  }

  function EarliestDeadline(first: Option<U64>, second: Option<U64>): (deadline: Option<U64>)
    ensures deadline.None? <==> first.None? && second.None?
    ensures deadline.Some? ==> deadline == first || deadline == second
    ensures deadline.Some? && first.Some? ==> deadline.value <= first.value
    ensures deadline.Some? && second.Some? ==> deadline.value <= second.value
  {
    match (first, second)
    case (Some(a), Some(b)) => Some(if a <= b then a else b)
    case (Some(a), None) => Some(a)
    case (None, other) => other
  }

  // `now.checked_add(seconds)` for a positive lifetime; a zero or negative lifetime and an overflow give no deadline.
  function ResponseExpiry(expiresIn: Option<I64>, now: U64): (deadline: Option<U64>)
    ensures deadline.Some? ==> now < deadline.value
  {
    if expiresIn.Some? && expiresIn.value > 0 && now + expiresIn.value <= U64_MAX
    then Some(now + expiresIn.value)
    else None
  }

  function ReturnedAccountError(claims: Claims, stored: string): bool {
    AccountId(Some(claims)).Some? && AccountId(Some(claims)).value != stored
  }

  // ---- the operations ----

  function Validate(lib: Library, response: TokenResponse, now: U64): Result<Record, CredentialError> {
    if Blank(response.accessToken) || Blank(response.refreshToken) || Blank(response.idToken) then
      Err(MalformedTokenSet)
    else match DecodeJwtPayload(lib, response.idToken)
      case None => Err(MalformedTokenSet)
      case Some(idClaims) =>
        var accessClaims := DecodeJwtPayload(lib, response.accessToken);
        var idAccount := AccountId(Some(idClaims));
        var accessAccount := AccountId(accessClaims);
        if idAccount.Some? && accessAccount.Some? && idAccount != accessAccount then Err(MismatchedAccount)
        else if idAccount.None? && accessAccount.None? then Err(MissingAccount)
        else
          var account := if idAccount.Some? then idAccount.value else accessAccount.value;
          var tokenExpiry := if accessClaims.Some? then accessClaims.value.exp else None;
          var responseExpiry := ResponseExpiry(response.expiresIn, now);
          var usable := if tokenExpiry.Some? && tokenExpiry.value > now then tokenExpiry else None;
          if (response.expiresIn.Some? || tokenExpiry.Some?) && responseExpiry.None? && usable.None? then
            Err(InvalidExpiry)
          else
            Ok(Record(SCHEMA_VERSION, response.accessToken, response.refreshToken, response.idToken, account,
                      EarliestDeadline(responseExpiry, usable),
                      SafeClaim(idClaims.email, 254), SafeClaim(idClaims.plan, 64)))
  }

  function Deserialize(lib: Library, serialized: Bytes, now: U64): Result<Record, StoredError> {
    match lib.decode(serialized)
    case None => Err(Malformed)
    case Some(record) =>
      if record.schemaVersion != SCHEMA_VERSION then Err(UnsupportedVersion)
      else if !ValidHeader(lib, record.accessToken) || !ValidHeader(lib, record.accountId) then Err(Malformed)
      else if record.expiresAt.Some? && record.expiresAt.value <= now then Err(Expired)
      else Ok(record)
  }

  function DeserializeStructural(lib: Library, serialized: Bytes): Result<Record, StoredError> {
    match lib.decode(serialized)
    case None => Err(Malformed)
    case Some(record) =>
      if record.schemaVersion != SCHEMA_VERSION then Err(UnsupportedVersion)
      else if !ValidHeader(lib, record.accessToken) || !ValidHeader(lib, record.accountId)
              || Blank(record.refreshToken) || Blank(record.idToken) then Err(Malformed)
      else
        var accessAccount := AccountId(DecodeJwtPayload(lib, record.accessToken));
        var idClaims := DecodeJwtPayload(lib, record.idToken);
        if idClaims.None? then Err(Malformed)
        else if accessAccount.Some? && accessAccount.value != record.accountId then Err(Malformed)
        else if AccountId(idClaims).Some? && AccountId(idClaims).value != record.accountId then Err(Malformed)
        else Ok(record)
  }

  function RefreshDue(record: Record, now: U64): (due: bool)
    // the saturating addition of the window never changes the answer
    ensures due <==> (record.expiresAt.Some? ==> record.expiresAt.value - now <= REFRESH_WINDOW_SECONDS)
  {
    var horizon := if now + REFRESH_WINDOW_SECONDS <= U64_MAX then now + REFRESH_WINDOW_SECONDS else U64_MAX;
    record.expiresAt.None? || record.expiresAt.value <= horizon
  }

  function RequiredReturnedToken(token: Option<string>): Result<string, CredentialError> {
    if token.Some? && !Blank(token.value) then Ok(token.value) else Err(MalformedTokenSet)
  }

  function OptionalRotatedToken(token: Option<string>, stored: string): Result<string, CredentialError> {
    if token.None? then Ok(stored) else if Blank(token.value) then Err(MalformedTokenSet) else Ok(token.value)
  }

  /** The id token a refresh leaves, with the email and plan shown for it. */
  function RefreshedIdentity(lib: Library, record: Record, idToken: Option<string>)
    : Result<(string, Option<string>, Option<string>), CredentialError>
  {
    match idToken
    case None => Ok((record.idToken, record.email, record.plan))
    case Some(token) =>
      if Blank(token) then Err(MalformedTokenSet)
      else match DecodeJwtPayload(lib, token)
        case None => Err(MalformedTokenSet)
        case Some(claims) =>
          if ReturnedAccountError(claims, record.accountId) then Err(MismatchedAccount)
          else Ok((token, SafeClaim(claims.email, 254), SafeClaim(claims.plan, 64)))
  }

  function ApplyRefresh(lib: Library, record: Record, response: RefreshResponse, now: U64)
    : Result<Record, CredentialError>
  {
    match RequiredReturnedToken(response.accessToken)
    case Err(error) => Err(error)
    case Ok(accessToken) =>
      if !ValidHeader(lib, accessToken) then Err(MalformedTokenSet)
      else match DecodeJwtPayload(lib, accessToken)
        case None => Err(MalformedTokenSet)
        case Some(accessClaims) =>
          if ReturnedAccountError(accessClaims, record.accountId) then Err(MismatchedAccount)
          else match OptionalRotatedToken(response.refreshToken, record.refreshToken)
            case Err(error) => Err(error)
            case Ok(refreshToken) =>
              match RefreshedIdentity(lib, record, response.idToken)
              case Err(error) => Err(error)
              case Ok((idToken, email, plan)) =>
                var deadline := EarliestDeadline(ResponseExpiry(response.expiresIn, now), accessClaims.exp);
                if deadline.None? then Err(InvalidExpiry)
                else Ok(Record(SCHEMA_VERSION, accessToken, refreshToken, idToken, record.accountId,
                               deadline, email, plan))
  }

  // ---- stored records stay usable ----

  /** A record the renewal path accepts once it is stored: `DeserializeStructural` reads exactly these back. */
  ghost predicate Usable(lib: Library, record: Record) {
    && record.schemaVersion == SCHEMA_VERSION
    && ValidHeader(lib, record.accessToken) && ValidHeader(lib, record.accountId)
    && !Blank(record.refreshToken) && !Blank(record.idToken)
    && DecodeJwtPayload(lib, record.idToken).Some?
    && (forall token <- [record.accessToken, record.idToken] ::
          var account := AccountId(DecodeJwtPayload(lib, token));
          account.Some? ==> account.value == record.accountId)
  }

  lemma StoredIffUsable(lib: Library, record: Record, serialized: Bytes)
    requires Lawful(lib) && lib.encode(record) == Some(serialized)
    ensures DeserializeStructural(lib, serialized).Ok? <==> Usable(lib, record)
    ensures Usable(lib, record) ==> DeserializeStructural(lib, serialized) == Ok(record)
  {
    assert lib.decode(serialized) == Some(record);
    var tokens := [record.accessToken, record.idToken];
    assert tokens[0] == record.accessToken && tokens[1] == record.idToken;
  }

  lemma ReadBackIsUsable(lib: Library, serialized: Bytes)
    requires DeserializeStructural(lib, serialized).Ok?
    ensures Usable(lib, DeserializeStructural(lib, serialized).value)
  {
  }

  /** A fresh login is readable by the renewal path exactly when its two header values are safe. */
  lemma ValidatedIsStoredIff(lib: Library, response: TokenResponse, now: U64, record: Record, serialized: Bytes)
    requires Lawful(lib) && Validate(lib, response, now) == Ok(record) && lib.encode(record) == Some(serialized)
    ensures DeserializeStructural(lib, serialized).Ok?
            <==> ValidHeader(lib, record.accessToken) && ValidHeader(lib, record.accountId)
    ensures DeserializeStructural(lib, serialized).Ok? ==> DeserializeStructural(lib, serialized).value == record
    // and the plain reader agrees: a login just made has not expired
    ensures Deserialize(lib, serialized, now).Ok? <==> DeserializeStructural(lib, serialized).Ok?
  {
    StoredIffUsable(lib, record, serialized);
    assert lib.decode(serialized) == Some(record);
  }

  /** A refresh keeps a usable record usable, keeps its account, and never drops the refresh token. */
  lemma RefreshKeepsUsable(lib: Library, record: Record, response: RefreshResponse, now: U64)
    requires Usable(lib, record) && ApplyRefresh(lib, record, response, now).Ok?
    ensures var next := ApplyRefresh(lib, record, response, now).value;
            && Usable(lib, next)
            && next.accountId == record.accountId
            && next.refreshToken == (if response.refreshToken.Some? then response.refreshToken.value
                                     else record.refreshToken)
            && next.expiresAt.Some?
  {
    var tokens := [record.accessToken, record.idToken];
    assert tokens[0] == record.accessToken && tokens[1] == record.idToken;
  }

  /** The store after a run of refreshes: each one reads the bytes, applies a response and writes the result. */
  ghost function StoreAfter(lib: Library, store: Bytes, run: seq<(RefreshResponse, U64)>): Option<Bytes>
    decreases |run|
  {
    if run == [] then Some(store)
    else match DeserializeStructural(lib, store)
      case Err(_) => None
      case Ok(record) =>
        match ApplyRefresh(lib, record, run[0].0, run[0].1)
        case Err(_) => None
        case Ok(next) => if lib.encode(next).None? then None else StoreAfter(lib, lib.encode(next).value, run[1..])
  }

  lemma {:induction false} RefreshRunKeepsAccount(lib: Library, store: Bytes, run: seq<(RefreshResponse, U64)>)
    requires Lawful(lib) && DeserializeStructural(lib, store).Ok? && StoreAfter(lib, store, run).Some?
    ensures var last := StoreAfter(lib, store, run).value;
            && DeserializeStructural(lib, last).Ok?
            && DeserializeStructural(lib, last).value.accountId == DeserializeStructural(lib, store).value.accountId
    decreases |run|
  {
    if run != [] {
      var record := DeserializeStructural(lib, store).value;
      var next := ApplyRefresh(lib, record, run[0].0, run[0].1).value;
      ReadBackIsUsable(lib, store);
      RefreshKeepsUsable(lib, record, run[0].0, run[0].1);
      StoredIffUsable(lib, next, lib.encode(next).value);
      RefreshRunKeepsAccount(lib, lib.encode(next).value, run[1..]);
    }
  }

  lemma RefreshedDeadline(lib: Library, record: Record, response: RefreshResponse, now: U64)
    requires ApplyRefresh(lib, record, response, now).Ok?
    ensures var next := ApplyRefresh(lib, record, response, now).value;
            && DecodeJwtPayload(lib, next.accessToken).Some?
            && var exp := DecodeJwtPayload(lib, next.accessToken).value.exp;
            && next.expiresAt.Some?
            && (next.expiresAt.value <= now <==> exp.Some? && exp.value <= now)
  {
  }

  /** The deadline of a login is in the future: an `exp` claim that has passed is ignored where the response gives a
      lifetime, and the login is refused where it does not. */
  lemma LoginDeadline(lib: Library, response: TokenResponse, now: U64, record: Record)
    requires Validate(lib, response, now) == Ok(record)
    ensures record.expiresAt.Some? ==> now < record.expiresAt.value
    ensures var claims := DecodeJwtPayload(lib, response.accessToken);
            var exp := if claims.Some? then claims.value.exp else None;
            && (record.expiresAt.None? <==> exp.None? && response.expiresIn.None?)
            && (exp.Some? && exp.value <= now ==>
                  response.expiresIn.Some? && record.expiresAt == Some(now + response.expiresIn.value))
  {
  }

  /** A refresh takes such a claim as its deadline: from the same access token and lifetime a login makes a record that
      has time left and a refresh one that has none. */
  lemma PassedExpiryDiffers(
    lib: Library, login: TokenResponse, made: Record, record: Record, refresh: RefreshResponse, refreshed: Record,
    now: U64)
    requires Validate(lib, login, now) == Ok(made) && ApplyRefresh(lib, record, refresh, now) == Ok(refreshed)
    requires refresh.accessToken == Some(login.accessToken) && refresh.expiresIn == login.expiresIn
    ensures var claims := DecodeJwtPayload(lib, login.accessToken);
            && claims.Some?
            && var exp := claims.value.exp;
            if exp.Some? && exp.value <= now
            then refreshed.expiresAt == exp && made.expiresAt.Some? && made.expiresAt.value > now
            else refreshed.expiresAt == made.expiresAt
  {
    RefreshedDeadline(lib, record, refresh, now);
    LoginDeadline(lib, login, now, made);
  }

  /** So the plain reader accepts a refreshed record at once exactly when the claim is absent or in the future. */
  lemma RefreshedIsReadableIff(lib: Library, record: Record, response: RefreshResponse, now: U64, serialized: Bytes)
    requires Lawful(lib) && Usable(lib, record)
    requires ApplyRefresh(lib, record, response, now).Ok?
    requires lib.encode(ApplyRefresh(lib, record, response, now).value) == Some(serialized)
    ensures var next := ApplyRefresh(lib, record, response, now).value;
            && DecodeJwtPayload(lib, next.accessToken).Some?
            && var exp := DecodeJwtPayload(lib, next.accessToken).value.exp;
            && (Deserialize(lib, serialized, now).Ok? <==> exp.None? || exp.value > now)
            && (Deserialize(lib, serialized, now).Err? ==> Deserialize(lib, serialized, now) == Err(Expired))
  {
    var next := ApplyRefresh(lib, record, response, now).value;
    assert lib.decode(serialized) == Some(next);
    RefreshKeepsUsable(lib, record, response, now);
    RefreshedDeadline(lib, record, response, now);
  }

  // ---- a concrete library, showing that the hypotheses can hold and that the expiry gap is real ----

  const ACCESS := "a" + "." + ("p" + "." + "s")
  const IDENTITY := "a" + "." + ("i" + "." + "s")
  const SAMPLE := Record(SCHEMA_VERSION, ACCESS, "r", IDENTITY, "c", Some(1), None, None)
  const REFRESHED := Record(SCHEMA_VERSION, ACCESS, "t", IDENTITY, "c", Some(5), None, None)

  function SampleLibrary(): Library {
    Library(
      b => if b == [1] then Some(SAMPLE) else if b == [2] then Some(REFRESHED) else None,
      r => if r == SAMPLE then Some([1]) else if r == REFRESHED then Some([2]) else None,
      s => Some(Claims(None, if s == "p" then Some(5) else None, None, None)),
      s => true)
  }

  lemma RefreshCanStoreAnExpiredRecord()
    ensures var lib := SampleLibrary();
            var response := RefreshResponse(Some(ACCESS), Some("t"), None, None);
            && Lawful(lib)
            && Usable(lib, SAMPLE)
            && ApplyRefresh(lib, SAMPLE, response, 100) == Ok(REFRESHED)
            && Deserialize(lib, [2], 100) == Err(Expired)
            && DeserializeStructural(lib, [2]) == Ok(REFRESHED)
  {
    var lib := SampleLibrary();
    SampleTokens();
    assert DecodeJwtPayload(lib, ACCESS) == Some(Claims(None, Some(5), None, None));
    assert DecodeJwtPayload(lib, IDENTITY) == Some(Claims(None, None, None, None));
    assert Usable(lib, SAMPLE);
    assert lib.encode(REFRESHED) == Some([2]);
    StoredIffUsable(lib, REFRESHED, [2]);
  }

  lemma {:induction false} SplitAtDot(a: string, rest: string)
    requires '.' !in a
    ensures SplitDots(a + "." + rest) == [a] + SplitDots(rest)
  {
    if a == "" {
      assert "" + "." + rest == "." + rest && ("." + rest)[1..] == rest;
    } else {
      assert (a + "." + rest)[1..] == a[1..] + "." + rest;
      assert a == [a[0]] + a[1..];
      SplitAtDot(a[1..], rest);
    }
  }

  lemma TwoDots(a: string, b: string, c: string)
    requires '.' !in a && '.' !in b && '.' !in c
    ensures SplitDots(a + "." + (b + "." + c)) == [a, b, c]
  {
    SplitAtDot(a, b + "." + c);
    SplitAtDot(b, c);
    NoDot(c);
  }

  lemma {:induction false} NoDot(a: string)
    requires '.' !in a
    ensures SplitDots(a) == [a]
  {
    if a != "" {
      NoDot(a[1..]);
      assert [a[0]] + a[1..] == a;
    }
  }

  lemma SampleTokens()
    ensures SplitDots(ACCESS) == ["a", "p", "s"] && SplitDots(IDENTITY) == ["a", "i", "s"]
    ensures ValidHeader(SampleLibrary(), ACCESS) && ValidHeader(SampleLibrary(), "c")
    ensures !Blank("r") && !Blank("t") && !Blank(IDENTITY) && !Blank(ACCESS)
  {
    TwoDots("a", "p", "s");
    TwoDots("a", "i", "s");
  }
}
