/**
 * Bearer-token authentication: the JSON Web Key Set cache, the step order of
 * token extraction, the Authorization header rules of the middleware, and
 * reading the authenticated user id back.  The cache is driven sequentially:
 * each call sees the clock reading `now`, and the outcome of the key-set
 * download (and the clock reading when it completes) is an input.  Token
 * parsing and claim validation are parameters.
 */
module Auth {
  import opened Wrappers
  import Uuids
  import Strings
  import Parse
  import opened Model

  /** A downloaded key set; its contents only matter to the token parser. */
  datatype KeySet = KeySet(keys: map<string, string>)

  /** The cached key set, if any, and the clock reading of the download that filled it. */
  datatype Cache = Cache(keySet: Option<KeySet>, lastFetch: Time)

  /** The clock's unit is the nanosecond, as for Go's `time.Duration`. */
  const Hour: int := 3_600_000_000_000
  const CacheDuration: int := 24 * Hour

  /** The zero `time.Time` the last-fetch time starts at, on the same clock. */
  const ZeroTime: Time := 0
  const Empty: Cache := Cache(None, ZeroTime)

  datatype Fetch = Fetched(keySet: KeySet) | FetchFailed(reason: string)

  /** A cache hit: a key set is held and strictly less than 24 hours have elapsed. */
  predicate Fresh(c: Cache, now: Time) {
    c.keySet.Some? && now - c.lastFetch < CacheDuration
  }

  /** The cache after a call, the key set or error returned, and whether a download ran. */
  datatype Lookup = Lookup(cache: Cache, result: Result<KeySet, string>, fetched: bool)

  /** `getJWKS`.  Run sequentially, the check repeated under the write lock sees the same
      cache at a later clock reading, so it fails whenever the first one did
      (`StaleStaysStale`); the two collapse into one test. */
  function GetJWKS(c: Cache, now: Time, fetch: Fetch, fetchedAt: Time): (l: Lookup)
    ensures Fresh(c, now) ==> l == Lookup(c, Ok(c.keySet.value), false)
    ensures !Fresh(c, now) <==> l.fetched
    ensures l.fetched && fetch.FetchFailed? ==>
      l.cache == c && l.result == Err("failed to fetch JWKS: " + fetch.reason)
    ensures l.fetched && fetch.Fetched? ==>
      l.cache == Cache(Some(fetch.keySet), fetchedAt) && l.result == Ok(fetch.keySet)
    ensures l.result.Ok? ==> l.cache.keySet == Some(l.result.value)
  {
    if Fresh(c, now) then Lookup(c, Ok(c.keySet.value), false)
    else match fetch
      case FetchFailed(reason) => Lookup(c, Err("failed to fetch JWKS: " + reason), true)
      case Fetched(ks) => Lookup(Cache(Some(ks), fetchedAt), Ok(ks), true)
  }

  /** Once stale, a cache stays stale as the clock moves on. */
  lemma StaleStaysStale(c: Cache, t1: Time, t2: Time)
    requires t1 <= t2 && !Fresh(c, t1)
    ensures !Fresh(c, t2)
  {
  }

  /** After a successful download, every call strictly within 24 hours of it is a hit that
      returns the downloaded set; at exactly 24 hours a download is attempted again. */
  lemma FetchThenHit(c: Cache, now: Time, ks: KeySet, fetchedAt: Time, later: Time, f: Fetch, t: Time)
    requires !Fresh(c, now)
    ensures var c1 := GetJWKS(c, now, Fetched(ks), fetchedAt).cache;
      && (fetchedAt <= later < fetchedAt + CacheDuration ==> GetJWKS(c1, later, f, t) == Lookup(c1, Ok(ks), false))
      && GetJWKS(c1, fetchedAt + CacheDuration, f, t).fetched
  {
  }

  /** An empty cache always downloads, however recent its last-fetch time. */
  lemma EmptyAlwaysFetches(c: Cache, now: Time, f: Fetch, t: Time)
    requires c.keySet.None?
    ensures GetJWKS(c, now, f, t).fetched
  {
  }

  /** One call of a run: the clock when it starts, and what a download would give and when. */
  datatype Call = Call(now: Time, fetch: Fetch, fetchedAt: Time)

  /** Calls in sequence, each seeing the cache the previous one left; the lookups in order. */
  function Run(c: Cache, calls: seq<Call>): (r: (Cache, seq<Lookup>))
    ensures |r.1| == |calls|
    ensures |calls| == 0 ==> r.0 == c
    ensures |calls| > 0 ==> r.1[0] == GetJWKS(c, calls[0].now, calls[0].fetch, calls[0].fetchedAt)
    ensures |calls| > 0 ==> r.0 == r.1[|calls| - 1].cache
    ensures forall i :: 0 < i < |calls| ==>
      r.1[i] == GetJWKS(r.1[i - 1].cache, calls[i].now, calls[i].fetch, calls[i].fetchedAt)
    decreases |calls|
  {
    if |calls| == 0 then (c, [])
    else
      var l := GetJWKS(c, calls[0].now, calls[0].fetch, calls[0].fetchedAt);
      var rest := Run(l.cache, calls[1..]);
      (rest.0, [l] + rest.1)
  }

  /** A fresh cache answers a whole run of calls within its window: no download happens, every
      call returns the cached set, and the cache is left as it was. */
  lemma {:induction false} RunWithinWindow(c: Cache, calls: seq<Call>)
    requires c.keySet.Some?
    requires forall i :: 0 <= i < |calls| ==> c.lastFetch <= calls[i].now < c.lastFetch + CacheDuration
    ensures Run(c, calls).0 == c
    ensures forall i :: 0 <= i < |calls| ==>
      !Run(c, calls).1[i].fetched && Run(c, calls).1[i].result == Ok(c.keySet.value)
  {
    if |calls| > 0 {
      assert Fresh(c, calls[0].now);
      RunWithinWindow(c, calls[1..]);
      forall i | 0 <= i < |calls|
        ensures !Run(c, calls).1[i].fetched && Run(c, calls).1[i].result == Ok(c.keySet.value)
      {
        if i > 0 {
          assert Run(c, calls).1[i] == Run(c, calls[1..]).1[i - 1];
        }
      }
    }
  }

  /** Until a download succeeds the cache is exactly the initial one: failures never touch it. */
  lemma {:induction false} FailuresKeepEmpty(calls: seq<Call>)
    requires forall i :: 0 <= i < |calls| ==> calls[i].fetch.FetchFailed?
    ensures Run(Empty, calls).0 == Empty
    ensures forall i :: 0 <= i < |calls| ==> Run(Empty, calls).1[i].result.Err?
  {
    if |calls| > 0 {
      FailuresKeepEmpty(calls[1..]);
      forall i | 0 <= i < |calls|
        ensures Run(Empty, calls).1[i].result.Err?
      {
        if i > 0 {
          assert Run(Empty, calls).1[i] == Run(Empty, calls[1..]).1[i - 1];
        }
      }
    }
  }

  /** A parsed token; only its subject claim is read. */
  datatype Token = Token(sub: Option<string>)

  /** The JWT library: parsing and signature checking against a key set, and claim
      validation at a clock reading, which reports why it failed. */
  datatype Verifier = Verifier(parse: (string, KeySet) -> Option<Token>, validate: (Token, Time) -> Option<string>)

  datatype TokenData = TokenData(userId: string)

  datatype Extracted = Extracted(cache: Cache, result: Result<TokenData, string>)

  /** `extractTokenData`: key set, then parse, then claim validation, then the subject.  The
      cache update of a successful download stays even when a later step fails. */
  function ExtractTokenData(c: Cache, accessToken: string, now: Time, fetch: Fetch, fetchedAt: Time, v: Verifier)
    : (x: Extracted)
    ensures x.cache == GetJWKS(c, now, fetch, fetchedAt).cache
    ensures var l := GetJWKS(c, now, fetch, fetchedAt);
      l.result.Err? ==> x.result == Err(l.result.error)
    ensures var l := GetJWKS(c, now, fetch, fetchedAt);
      l.result.Ok? && v.parse(accessToken, l.result.value).None? ==> x.result == Err("invalid access token")
    ensures var l := GetJWKS(c, now, fetch, fetchedAt);
      l.result.Ok? && v.parse(accessToken, l.result.value).Some? ==>
        var token := v.parse(accessToken, l.result.value).value;
        && (v.validate(token, now).Some? ==>
              x.result == Err("token validation failed: " + v.validate(token, now).value))
        && (v.validate(token, now).None? && token.sub.None? ==> x.result == Err("user ID not found in token"))
        && (v.validate(token, now).None? && token.sub.Some? ==> x.result == Ok(TokenData(token.sub.value)))
    ensures x.result.Ok? ==>
      var ks := GetJWKS(c, now, fetch, fetchedAt).result.value;
      && v.parse(accessToken, ks).Some?
      && v.validate(v.parse(accessToken, ks).value, now).None?
      && v.parse(accessToken, ks).value.sub == Some(x.result.value.userId)
  {
    var l := GetJWKS(c, now, fetch, fetchedAt);
    match l.result
    case Err(e) => Extracted(l.cache, Err(e))
    case Ok(ks) =>
      match v.parse(accessToken, ks)
      case None => Extracted(l.cache, Err("invalid access token"))
      case Some(token) =>
        match v.validate(token, now)
        case Some(reason) => Extracted(l.cache, Err("token validation failed: " + reason))
        case None =>
          match token.sub
          case None => Extracted(l.cache, Err("user ID not found in token"))
          case Some(sub) => Extracted(l.cache, Ok(TokenData(sub)))
  }

  /** What the middleware does with a request: refuse it with 401 "Unauthorized", or pass it
      on with the token data in its context. */
  datatype Decision = Unauthorized | Proceed(tokenData: TokenData)

  datatype Gate = Gate(cache: Cache, decision: Decision)

  const BearerPrefix: string := "Bearer "

  /** `AuthMiddleware` on one request with the given Authorization header ("" when absent). */
  function AuthMiddleware(header: string, c: Cache, now: Time, fetch: Fetch, fetchedAt: Time, v: Verifier)
    : (g: Gate)
    ensures header == "" ==> g == Gate(c, Unauthorized)
    ensures Strings.TrimPrefix(header, BearerPrefix) == "" ==> g == Gate(c, Unauthorized)
    ensures Strings.TrimPrefix(header, BearerPrefix) != "" ==>
      var x := ExtractTokenData(c, Strings.TrimPrefix(header, BearerPrefix), now, fetch, fetchedAt, v);
      && g.cache == x.cache
      && (g.decision.Proceed? <==> x.result.Ok?)
      && (x.result.Ok? ==> g.decision.tokenData == x.result.value)
  {
    if header == "" then Gate(c, Unauthorized)
    else
      var accessToken := Strings.TrimPrefix(header, BearerPrefix);
      if accessToken == "" then Gate(c, Unauthorized)
      else
        var x := ExtractTokenData(c, accessToken, now, fetch, fetchedAt, v);
        match x.result
        case Err(_) => Gate(x.cache, Unauthorized)
        case Ok(data) => Gate(x.cache, Proceed(data))
  }

  /** The "Bearer " prefix is optional: a header without it is taken whole as the token, just
      as if the prefix had been there. */
  lemma BearerOptional(token: string, c: Cache, now: Time, fetch: Fetch, fetchedAt: Time, v: Verifier)
    requires token != "" && !(BearerPrefix <= token)
    ensures AuthMiddleware(token, c, now, fetch, fetchedAt, v)
         == AuthMiddleware(BearerPrefix + token, c, now, fetch, fetchedAt, v)
  {
    assert Strings.TrimPrefix(BearerPrefix + token, BearerPrefix) == token;
  }

  /** Only one prefix is removed: "Bearer Bearer t" presents the token "Bearer t". */
  lemma OnePrefixRemoved(token: string)
    ensures Strings.TrimPrefix(BearerPrefix + BearerPrefix + token, BearerPrefix) == BearerPrefix + token
  {
    assert BearerPrefix <= BearerPrefix + BearerPrefix + token;
  }

  /** A request is let through only with a verified token carrying a subject, and the context
      then holds exactly that subject. */
  lemma ProceedOnlyWithSubject(header: string, c: Cache, now: Time, fetch: Fetch, fetchedAt: Time, v: Verifier)
    requires AuthMiddleware(header, c, now, fetch, fetchedAt, v).decision.Proceed?
    ensures var token := Strings.TrimPrefix(header, BearerPrefix);
      var l := GetJWKS(c, now, fetch, fetchedAt);
      && header != "" && token != ""
      && l.result.Ok?
      && v.parse(token, l.result.value).Some?
      && v.validate(v.parse(token, l.result.value).value, now).None?
      && v.parse(token, l.result.value).value.sub
           == Some(AuthMiddleware(header, c, now, fetch, fetchedAt, v).decision.tokenData.userId)
  {
  }

  /** `GetUserID`: the token data's user id as a UUID path-style parameter named "UserID". */
  function GetUserID(data: Option<TokenData>): (r: Result<Uuids.Uuid, string>)
    ensures data.None? ==> r == Err("token data not found in context")
    ensures data.Some? && data.value.userId == "" ==> r == Err("path parameter UserID is required")
    ensures data.Some? && r.Ok? ==> Uuids.Parse(data.value.userId) == Some(r.value)
    ensures data.Some? && Uuids.Parse(data.value.userId).None? ==> r.Err?
    ensures data.Some? ==> (r.Ok? <==> data.value.userId != "" && Uuids.Parse(data.value.userId).Some?)
    ensures data.Some? ==> r == Parse.ParseUUID(data.value.userId, "UserID")
  {
    match data
    case None => Err("token data not found in context")
    case Some(d) =>
      assert "path parameter " + "UserID" + " is required" == "path parameter UserID is required";
      Parse.ParseUUID(d.userId, "UserID")
  }

  /** A subject that is the printed form of a UUID reads back as that UUID. */
  lemma GetUserIDString(u: Uuids.Uuid)
    ensures GetUserID(Some(TokenData(Uuids.String(u)))) == Ok(u)
  {
    Uuids.ParseString(u);
  }
}
