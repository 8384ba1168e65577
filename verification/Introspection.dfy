/**
 Token introspection (RFC 7662) with and without the result cache.  A call locks
 the cache twice, to look up and, after asking the server, to store; runs are
 arbitrary interleavings of these steps.  Each step carries what the server says
 at that moment, so runs cover servers that revoke.  The network, JSON and
 SHA-256 are foreign.
 */
module Introspection {
  import opened Base
  import opened ClaimsCache
  import Ttl = TtlCache

  datatype Config = Config(issuer: string, audience: string, clockSkew: int)

  datatype Json = Text(text: string) | Null | Other

  /** A decoded 200 response; `scopes` is its scope member split into fields, `members` its raw JSON members. */
  datatype Response = Response(
    active: bool, iss: string, aud: seq<string>, exp: int, iat: int, sub: string, email: string,
    scopes: seq<string>, jkt: string, members: map<string, Json>)

  datatype Answer = Unreachable | Replied(response: Response)

  datatype Error = MissingToken | InvalidToken | ExpiredToken | IntrospectionUnavailable

  datatype Result = Ok(claims: Claims) | Err(error: Error)

  const EXTRACTED := {
    "active", "scope", "sub", "iss", "aud", "exp", "iat", "nbf", "email", "cnf", "token_type",
    "client_id", "username", "jti", "error", "error_description"}

  // ---- The verdict on one response ----

  /** A JSON null decodes into a string as the empty one. */
  function AsText(j: Json): Option<string> {
    match j
    case Text(text) => Some(text)
    case Null => Some("")
    case Other => None
  }

  function RawOf(members: map<string, Json>): map<string, string> {
    map k | k in members && k !in EXTRACTED && AsText(members[k]).Some? :: AsText(members[k]).value
  }

  function UnixTime(sec: int): Option<int> {
    if sec > 0 then Some(sec * SECOND) else None
  }

  function ClaimsFrom(r: Response): Claims {
    Claims(Scalars(r.sub, r.email, r.iss, r.jkt, UnixTime(r.exp), UnixTime(r.iat)),
           r.aud, r.scopes, Some(RawOf(r.members)))
  }

  function Judge(cfg: Config, answer: Answer, now: int): Result {
    match answer
    case Unreachable => Err(IntrospectionUnavailable)
    case Replied(r) =>
      if !r.active then Err(InvalidToken)
      else if r.iss != cfg.issuer then Err(InvalidToken)
      else if cfg.audience !in r.aud then Err(InvalidToken)
      else if r.exp > 0 && now > r.exp * SECOND + cfg.clockSkew then Err(ExpiredToken)
      else Ok(ClaimsFrom(r))
  }

  /** `Validate` without a cache. */
  function Uncached(cfg: Config, bearer: string, answer: Answer, now: int): Result {
    if bearer == "" then Err(MissingToken) else Judge(cfg, answer, now)
  }

  /** Exactly the remaining members that are strings, null as an empty one. */
  ghost predicate RawFrom(raw: map<string, string>, members: map<string, Json>) {
    && (forall k :: k in raw <==> k in members && !members[k].Other? && k !in {
          "active", "scope", "sub", "iss", "aud", "exp", "iat", "nbf", "email", "cnf", "token_type",
          "client_id", "username", "jti", "error", "error_description"})
    && (forall k <- raw :: k in members && match members[k] case Text(t) => raw[k] == t case _ => raw[k] == "")
  }

  /** The claims are the response's, member by member; a time that is not positive is absent. */
  ghost predicate ClaimsMatch(c: Claims, r: Response) {
    && c.scalars.issuer == r.iss && c.audience == r.aud && c.scalars.subject == r.sub && c.scalars.email == r.email
    && c.scopes == r.scopes && c.scalars.confirmation == r.jkt
    && c.scalars.expiresAt == (if r.exp > 0 then Some(r.exp * SECOND) else None)
    && c.scalars.issuedAt == (if r.iat > 0 then Some(r.iat * SECOND) else None)
    && c.raw.Some? && RawFrom(c.raw.value, r.members)
  }

  /**
   Claims come out exactly for an active token of our issuer and audience that
   is not past its expiry plus skew, and are the response's, member by member;
   otherwise the error says whether the server failed or the token has expired.
   */
  lemma AcceptedExactly(cfg: Config, answer: Answer, now: int)
    ensures answer.Unreachable? ==> Judge(cfg, answer, now) == Err(IntrospectionUnavailable)
    ensures answer.Replied? ==>
            var r := answer.response;
            if r.active && r.iss == cfg.issuer && cfg.audience in r.aud then
              if r.exp > 0 && now > r.exp * SECOND + cfg.clockSkew then Judge(cfg, answer, now) == Err(ExpiredToken)
              else Judge(cfg, answer, now).Ok?
            else Judge(cfg, answer, now) == Err(InvalidToken)
    ensures Judge(cfg, answer, now).Ok? ==>
            ClaimsMatch(Judge(cfg, answer, now).claims, answer.response)
  {
  }

  // ---- Validate with the cache: two locked steps per call ----

  datatype Setup = Setup(cfg: Config, leeway: int, digest: string -> string)

  ghost predicate Injective(digest: string -> string) {
    forall a, b :: digest(a) == digest(b) ==> a == b
  }

  /**
   `Look` starts a call; its `answer` and `now` are what the server and the clock
   would say if they were asked instead.  `Finish` is a later step of the call
   that looked at step `look` and missed, with the server's reply.
   */
  datatype Event =
    | Look(bearer: string, cacheNow: int, answer: Answer, now: int)
    | Finish(look: nat, answer: Answer, now: int)

  ghost predicate Linked(run: seq<Event>) {
    forall i :: 0 <= i < |run| && run[i].Finish? ==>
      run[i].look < i && run[run[i].look].Look? && run[run[i].look].bearer != ""
  }

  function BearerAt(run: seq<Event>, i: nat): string
    requires i < |run|
  {
    if run[i].Look? then run[i].bearer
    else if run[i].look < |run| && run[run[i].look].Look? then run[run[i].look].bearer
    else ""
  }

  /** An empty bearer is refused before the cache is consulted. */
  function Looks(s: Setup, bearer: string, cacheNow: int): Ttl.Event<Claims> {
    if bearer == "" then Ttl.Idle else Ttl.Lookup(s.digest(bearer), cacheNow)
  }

  /** Only an accepted answer that expires is stored. */
  predicate Remembers(cfg: Config, answer: Answer, now: int) {
    Judge(cfg, answer, now).Ok? && answer.response.exp > 0
  }

  function Finishes(s: Setup, bearer: string, answer: Answer, now: int): Ttl.Event<Claims> {
    if Remembers(s.cfg, answer, now) then Ttl.Store(s.digest(bearer), Judge(s.cfg, answer, now).claims) else Ttl.Idle
  }

  function TraceOf(s: Setup, run: seq<Event>): (trace: seq<Ttl.Event<Claims>>)
    ensures |trace| == |run|
  {
    seq(|run|, i requires 0 <= i < |run| =>
      if run[i].Look? then Looks(s, run[i].bearer, run[i].cacheNow)
      else Finishes(s, BearerAt(run, i), run[i].answer, run[i].now))
  }

  function ViewAt(s: Setup, run: seq<Event>, i: nat): View
    requires i <= |run|
  {
    Ttl.After(ExpiryOf, TraceOf(s, run)[..i], s.leeway)
  }

  predicate HitAt(s: Setup, run: seq<Event>, i: nat)
    requires i < |run|
  {
    run[i].Look? && run[i].bearer != "" && Hit(ViewAt(s, run, i), s.digest(run[i].bearer), run[i].cacheNow, s.leeway)
  }

  /** What the call returns at step `i`; None when it goes on to ask the server. */
  function AnswerAt(s: Setup, run: seq<Event>, i: nat): Option<Result>
    requires i < |run|
  {
    if run[i].Finish? then Some(Judge(s.cfg, run[i].answer, run[i].now))
    else if run[i].bearer == "" then Some(Err(MissingToken))
    else if HitAt(s, run, i) then Some(Ok(ViewAt(s, run, i)[s.digest(run[i].bearer)]))
    else None
  }

  /** What a validator without a cache returns at that moment. */
  function UncachedAt(s: Setup, run: seq<Event>, i: nat): Result
    requires i < |run|
  {
    Uncached(s.cfg, BearerAt(run, i), run[i].answer, run[i].now)
  }

  // ---- Agreement ----

  /** Step `j` stored the server's verdict on `bearer`, and no later one before `n` did. */
  ghost predicate LatestRemembered(s: Setup, run: seq<Event>, n: nat, j: nat, bearer: string) {
    && j < n <= |run| && Remembered(s, run, j, bearer)
    && forall k: nat :: j < k < n ==> !Remembered(s, run, k, bearer)
  }

  /** Step `j` accepted the server's answer on `bearer`, and that has an expiry. */
  ghost predicate Remembered(s: Setup, run: seq<Event>, j: nat, bearer: string) {
    && j < |run| && run[j].Finish? && BearerAt(run, j) == bearer
    && run[j].answer.Replied? && run[j].answer.response.exp > 0 && AnswerAt(s, run, j).value.Ok?
  }

  /** The verdict stored at step `j` has not lapsed for a lookup at `cacheNow`. */
  predicate Lasts(s: Setup, run: seq<Event>, j: nat, cacheNow: int)
    requires j < |run| && run[j].answer.Replied?
  {
    cacheNow < run[j].answer.response.exp * SECOND - s.leeway
  }

  lemma RememberedIsStore(s: Setup, run: seq<Event>, j: nat, bearer: string)
    requires Injective(s.digest)
    ensures Remembered(s, run, j, bearer) <==> Ttl.Stores(TraceOf(s, run), j, s.digest(bearer))
  {
  }

  lemma LatestRememberedIsLatestStore(s: Setup, run: seq<Event>, n: nat, j: nat, bearer: string)
    requires Injective(s.digest) && n <= |run|
    ensures LatestRemembered(s, run, n, j, bearer) <==> Ttl.LatestStore(TraceOf(s, run), n, j, s.digest(bearer))
  {
    forall k: nat ensures Remembered(s, run, k, bearer) <==> Ttl.Stores(TraceOf(s, run), k, s.digest(bearer)) {
      RememberedIsStore(s, run, k, bearer);
    }
  }

  /**
   Whatever the server does and however calls overlap, a hit returns the latest
   verdict stored for the same token, and only before its expiry - leeway.
   */
  lemma StalenessIsBounded(s: Setup, run: seq<Event>, i: nat) returns (j: nat)
    requires i < |run| && Linked(run) && Injective(s.digest) && HitAt(s, run, i)
    ensures LatestRemembered(s, run, i, j, run[i].bearer) && Lasts(s, run, j, run[i].cacheNow)
    ensures AnswerAt(s, run, i) == AnswerAt(s, run, j) == Some(UncachedAt(s, run, j))
  {
    var bearer := run[i].bearer;
    j := Ttl.EntryIsLatestStore(ExpiryOf, TraceOf(s, run), i, s.digest(bearer), s.leeway);
    LatestRememberedIsLatestStore(s, run, i, j, bearer);
  }

  /**
   From the cache or not, and however calls overlap, claims are returned only as
   the server gave them for this very token, active and for our issuer and
   audience; no error text is ever among them.
   */
  lemma ClaimsAreForUs(s: Setup, run: seq<Event>, i: nat) returns (j: nat)
    requires i < |run| && Linked(run) && Injective(s.digest)
    requires AnswerAt(s, run, i).Some? && AnswerAt(s, run, i).value.Ok?
    ensures j <= i && run[j].Finish? && BearerAt(run, j) == BearerAt(run, i) && run[j].answer.Replied?
    ensures var r := run[j].answer.response;
            && r.active && r.iss == s.cfg.issuer && s.cfg.audience in r.aud
            && ClaimsMatch(AnswerAt(s, run, i).value.claims, r)
  {
    j := i;
    if run[i].Look? {
      j := StalenessIsBounded(s, run, i);
    }
    AcceptedExactly(s.cfg, run[j].answer, run[j].now);
  }

  /** A token itself is never a key: every key is the digest of a token that the server was asked about. */
  lemma KeysAreDigests(s: Setup, run: seq<Event>, n: nat, key: string) returns (j: nat)
    requires n <= |run| && key in ViewAt(s, run, n)
    ensures j < n && run[j].Finish? && key == s.digest(BearerAt(run, j))
  {
    j := Ttl.EntryIsLatestStore(ExpiryOf, TraceOf(s, run), n, key, s.leeway);
  }

  /** The cache's clock never runs backwards from one lookup to a later one. */
  ghost predicate ClockOrdered(run: seq<Event>) {
    forall i, j :: 0 <= i < j < |run| && run[i].Look? && run[j].Look? ==> run[i].cacheNow <= run[j].cacheNow
  }

  /** On a nondecreasing cache clock a call is answered from the cache exactly while the latest stored verdict lasts. */
  lemma HitExactly(s: Setup, run: seq<Event>, i: nat)
    requires i < |run| && run[i].Look? && run[i].bearer != "" && Linked(run) && Injective(s.digest) && ClockOrdered(run)
    ensures HitAt(s, run, i) <==>
            exists j: nat :: LatestRemembered(s, run, i, j, run[i].bearer) && Lasts(s, run, j, run[i].cacheNow)
  {
    var trace, key := TraceOf(s, run), s.digest(run[i].bearer);
    Ttl.HitIsLatestStore(ExpiryOf, trace, i, key, run[i].cacheNow, s.leeway);
    forall j: nat ensures LatestRemembered(s, run, i, j, run[i].bearer) <==> Ttl.LatestStore(trace, i, j, key) {
      LatestRememberedIsLatestStore(s, run, i, j, run[i].bearer);
    }
  }

  /**
   A revoked token is still accepted at step `i` of any run exactly while the
   latest verdict stored for it lasts; otherwise the call asks and is refused.
   */
  lemma RevocationIsDelayedExactly(s: Setup, run: seq<Event>, i: nat)
    requires i < |run| && run[i].Look? && run[i].bearer != "" && Linked(run) && Injective(s.digest) && ClockOrdered(run)
    requires run[i].answer.Replied? && !run[i].answer.response.active
    ensures AnswerAt(s, run, i) == None ||
            (AnswerAt(s, run, i).value.Ok? && AnswerAt(s, run, i) != Some(UncachedAt(s, run, i)))
    ensures AnswerAt(s, run, i).Some? <==>
            exists j: nat :: LatestRemembered(s, run, i, j, run[i].bearer) && Lasts(s, run, j, run[i].cacheNow)
  {
    HitExactly(s, run, i);
  }

  /** A witness: a token accepted once, then revoked. */
  lemma RevocationIsDelayed(s: Setup, bearer: string, good: Answer, revoked: Answer, t: int, later: int)
    requires Injective(s.digest) && bearer != "" && t <= later
    requires Remembers(s.cfg, good, t) && revoked.Replied? && !revoked.response.active
    ensures var run := [Look(bearer, t, good, t), Finish(0, good, t), Look(bearer, later, revoked, later)];
            AnswerAt(s, run, 2) == Some(Judge(s.cfg, good, t)) <==> later < good.response.exp * SECOND - s.leeway
  {
    var run := [Look(bearer, t, good, t), Finish(0, good, t), Look(bearer, later, revoked, later)];
    RevocationIsDelayedExactly(s, run, 2);
    assert LatestRemembered(s, run, 2, 1, bearer) && forall j: nat :: LatestRemembered(s, run, 2, j, bearer) ==> j == 1;
    if HitAt(s, run, 2) {
      var j := StalenessIsBounded(s, run, 2);
    }
  }

  /** The server keeps to its answer about each token. */
  ghost predicate Steady(run: seq<Event>, server: string -> Answer) {
    forall i :: 0 <= i < |run| ==> run[i].answer == server(BearerAt(run, i))
  }

  /**
   With a steady server, however calls overlap, every call returns what it would
   return without a cache, provided the clock readings of a lookup and of the
   expiry check it stands in for are no further apart than leeway + skew; in
   particular when they are one reading and neither margin is negative.
   */
  lemma CacheIsTransparent(s: Setup, run: seq<Event>, server: string -> Answer, i: nat)
    requires i < |run| && Linked(run) && Injective(s.digest) && Steady(run, server)
    requires run[i].Look? ==> run[i].now <= run[i].cacheNow + s.leeway + s.cfg.clockSkew
    ensures AnswerAt(s, run, i).Some? ==> AnswerAt(s, run, i).value == UncachedAt(s, run, i)
    ensures BearerAt(run, i) == "" ==> AnswerAt(s, run, i) == Some(Err(MissingToken))
  {
    if HitAt(s, run, i) {
      var j := StalenessIsBounded(s, run, i);
      assert run[j].answer == run[i].answer;
    }
  }

  // ---- The validator itself, over the heap ----

  method AudienceContains(auds: seq<string>, want: string) returns (found: bool)
    ensures found <==> want in auds
  {
    for i := 0 to |auds|
      invariant want !in auds[..i]
    {
      if auds[i] == want {
        return true;
      }
    }
    assert auds[..|auds|] == auds;
    return false;
  }

  method FillRaw(members: map<string, Json>) returns (raw: map<string, string>)
    ensures raw == RawOf(members)
  {
    raw := map[];
    var pending := members.Keys;
    while pending != {}
      invariant pending <= members.Keys
      invariant raw == map k | k in RawOf(members) && k !in pending :: RawOf(members)[k]
      decreases pending
    {
      var k :| k in pending;
      pending := pending - {k};
      if k in EXTRACTED {
        continue;
      }
      var text := AsText(members[k]);
      if text.Some? {
        raw := raw[k := text.value];
      }
    }
  }

  method MakeClaims(r: Response) returns (claims: ClaimsRef)
    ensures fresh(claims.Parts()) && claims.Value() == ClaimsFrom(r)
  {
    var audience := MakeSlice(r.aud);
    var scopes := MakeSlice(r.scopes);
    var entries := FillRaw(r.members);
    var raw := new RawMap(entries);
    var scalars := Scalars(r.sub, r.email, r.iss, r.jkt, UnixTime(r.exp), UnixTime(r.iat));
    claims := new ClaimsRef(scalars, audience, scopes, raw);
  }

  ghost function ResultOf(claims: ClaimsRef?, error: Error): Result
    reads claims, if claims == null then {} else claims.Parts()
  {
    if claims == null then Err(error) else Ok(claims.Value())
  }

  method Judged(cfg: Config, answer: Answer, now: int) returns (claims: ClaimsRef?, error: Error)
    ensures claims != null ==> fresh(claims.Parts())
    ensures ResultOf(claims, error) == Judge(cfg, answer, now)
  {
    claims, error := null, InvalidToken;
    if answer.Unreachable? {
      error := IntrospectionUnavailable;
      return;
    }
    var r := answer.response;
    if !r.active || r.iss != cfg.issuer {
      return;
    }
    var ours := AudienceContains(r.aud, cfg.audience);
    if !ours {
      return;
    }
    if r.exp > 0 && now > r.exp * SECOND + cfg.clockSkew {
      error := ExpiredToken;
      return;
    }
    claims := MakeClaims(r);
  }

  /** The second locked step: judge the server's reply, and store an accepted one that expires. */
  method FinishCall(s: Setup, cache: MemoryCache, bearer: string, answer: Answer, now: int)
    returns (claims: ClaimsRef?, error: Error)
    requires cache.Valid()
    modifies cache
    ensures cache.Valid() && fresh(cache.repr - old(cache.repr))
    ensures cache.view == Ttl.Step(ExpiryOf, old(cache.view), Finishes(s, bearer, answer, now), cache.leeway)
    ensures claims != null ==> fresh(claims.Parts()) && claims.Parts() !! cache.repr
    ensures ResultOf(claims, error) == Judge(s.cfg, answer, now)
  {
    claims, error := Judged(s.cfg, answer, now);
    if claims != null && answer.response.exp > 0 {
      ghost var parts := claims.Parts();
      cache.Set(s.digest(bearer), claims);
      assert claims.Parts() == parts;
    }
  }

  /** The first locked step: `done` when the call is answered without the server. */
  method StartCall(s: Setup, cache: MemoryCache, bearer: string, cacheNow: int)
    returns (done: bool, claims: ClaimsRef?, error: Error)
    requires cache.Valid() && cache.leeway == s.leeway
    modifies cache
    ensures cache.Valid() && cache.repr == old(cache.repr)
    ensures cache.view == Ttl.Step(ExpiryOf, old(cache.view), Looks(s, bearer, cacheNow), s.leeway)
    ensures done <==> bearer == "" || Hit(old(cache.view), s.digest(bearer), cacheNow, s.leeway)
    ensures claims != null ==> fresh(claims.Parts())
    ensures done ==> ResultOf(claims, error) ==
                     if bearer == "" then Err(MissingToken) else Ok(old(cache.view)[s.digest(bearer)])
  {
    claims, error := null, MissingToken;
    if bearer == "" {
      return true, null, MissingToken;
    }
    claims := cache.Get(s.digest(bearer), cacheNow);
    done := claims != null;
  }

  /** One call by itself: the two steps with the server's reply in between. */
  method Validate(s: Setup, cache: MemoryCache, bearer: string, cacheNow: int, answer: Answer, now: int)
    returns (claims: ClaimsRef?, error: Error)
    requires cache.Valid() && cache.leeway == s.leeway
    modifies cache
    ensures cache.Valid() && fresh(cache.repr - old(cache.repr))
    ensures var looked := Ttl.Step(ExpiryOf, old(cache.view), Looks(s, bearer, cacheNow), s.leeway);
            var hit := bearer != "" && Hit(old(cache.view), s.digest(bearer), cacheNow, s.leeway);
            && cache.view == (if bearer == "" || hit then looked
                              else Ttl.Step(ExpiryOf, looked, Finishes(s, bearer, answer, now), s.leeway))
            && ResultOf(claims, error) ==
               if hit then Ok(old(cache.view)[s.digest(bearer)]) else Uncached(s.cfg, bearer, answer, now)
    ensures claims != null ==> fresh(claims.Parts()) && claims.Parts() !! cache.repr
  {
    var done;
    done, claims, error := StartCall(s, cache, bearer, cacheNow);
    if !done {
      claims, error := FinishCall(s, cache, bearer, answer, now);
    }
  }
}
