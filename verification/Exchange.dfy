/**
 Token exchange (RFC 8693) and the two-leg identity-assertion flow.

 A token endpoint is an arbitrary function from a form and a nonce to what
 becomes of the attempt; the first attempt carries no nonce and the retry does,
 so this covers every pair of server replies.
 */
module Exchange {
  import opened Base
  import opened TokenKey
  import Scopes
  import Ttl = TtlCache

  const URN := "urn:ietf:params:oauth:token-type:"
  const ACCESS_TOKEN := URN + "access_token"
  const ID_JAG := URN + "id-jag"
  const USE_NONCE := "use_dpop_nonce"

  /** `expiresAt` is None for a token that came without a lifetime. */
  datatype Token = Token(accessToken: string, issuedTokenType: string, tokenType: string,
                         expiresAt: Option<int>, scopes: seq<string>)

  /** The parameters of one POST; empty means omitted. */
  datatype Form =
    | TokenExchange(subjectToken: string, subjectTokenType: string, requestedTokenType: string,
                    audience: string, resource: string, scope: string, actorToken: string)
    | JwtBearer(assertion: string, scope: string)

  /** A decoded reply; `scopes` is its scope member split into fields. */
  datatype Body = Body(accessToken: string, issuedTokenType: string, tokenType: string,
                       expiresIn: int, scopes: seq<string>, error: string)

  /** The first case covers a request that could not be built or authenticated, so was never sent. */
  datatype Reply = NotSent | NetworkError | Answer(status: int, body: Option<Body>, nonce: string)

  type Endpoint = (Form, string) -> Reply

  datatype Post = Post(form: Form, nonce: string)

  datatype Error = BadRequest | Rejected(code: string) | Unavailable

  datatype Result = Ok(token: Token) | Err(error: Error)

  /** Clock readings: by the cache on Get, and when a token's lifetime is added up. */
  datatype Clock = Clock(getNow: int, tokenNow: int)

  // ---- do: one request and at most one nonce retry ----

  const TWO_63 := 0x8000_0000_0000_0000
  const MAX_SECONDS := 9_223_372_036

  /** Two's-complement wrap-around of Go's int64 durations. */
  function Wrap64(x: int): int {
    (x + TWO_63) % (2 * TWO_63) - TWO_63
  }

  function TokenOf(b: Body, now: int): Token {
    Token(b.accessToken, b.issuedTokenType, b.tokenType,
          if b.expiresIn > 0 then Some(now + Wrap64(b.expiresIn * SECOND)) else None,
          b.scopes)
  }

  /** A lifetime is added up exactly as long as it fits; the first second past that lies in the past. */
  lemma LifetimesFitExactly(seconds: nat)
    ensures Wrap64(seconds * SECOND) == seconds * SECOND <==> seconds <= MAX_SECONDS
    ensures seconds == MAX_SECONDS + 1 ==> Wrap64(seconds * SECOND) < 0
  {
  }

  predicate Succeeds(r: Reply) {
    r.Answer? && r.status == 200 && r.body.Some? && r.body.value.accessToken != ""
  }

  /** The server asks for a nonce and supplies one, below 500 and with a readable body. */
  predicate DemandsNonce(r: Reply) {
    r.Answer? && r.status < 500 && r.body.Some? && !Succeeds(r) && r.body.value.error == USE_NONCE && r.nonce != ""
  }

  /** How a reply that is not retried is reported. */
  function Final(r: Reply, now: int): Result {
    if Succeeds(r) then Ok(TokenOf(r.body.value, now))
    else if r.Answer? && r.status < 500 && r.body.Some? then Err(Rejected(r.body.value.error))
    else Err(Unavailable)
  }

  function Sent(form: Form, nonce: string, r: Reply): seq<Post> {
    if r.NotSent? then [] else [Post(form, nonce)]
  }

  /** The reply that decides the outcome: the second when the first demands a nonce. */
  function Deciding(endpoint: Endpoint, form: Form): Reply {
    var first := endpoint(form, "");
    if DemandsNonce(first) then endpoint(form, first.nonce) else first
  }

  function Posts(endpoint: Endpoint, form: Form): seq<Post> {
    var first := endpoint(form, "");
    Sent(form, "", first) + if DemandsNonce(first) then Sent(form, first.nonce, endpoint(form, first.nonce)) else []
  }

  /** The retry loop; the second attempt always returns, so the loop never runs off its end. */
  method Do(endpoint: Endpoint, form: Form, now: int) returns (result: Result, posts: seq<Post>)
    ensures result == Final(Deciding(endpoint, form), now)
    ensures posts == Posts(endpoint, form)
  {
    posts := [];
    var nonce := "";
    var attempt := 0;
    while attempt < 2
      invariant 0 <= attempt < 2
      invariant attempt == 0 ==> nonce == "" && posts == []
      invariant attempt == 1 ==>
        var first := endpoint(form, "");
        DemandsNonce(first) && nonce == first.nonce && posts == Sent(form, "", first)
      decreases 2 - attempt
    {
      var reply := endpoint(form, nonce);
      if reply.NotSent? {
        return Err(Unavailable), posts;
      }
      posts := posts + [Post(form, nonce)];
      if reply.NetworkError? {
        return Err(Unavailable), posts;
      }
      if reply.status >= 500 {
        return Err(Unavailable), posts;
      }
      if reply.body.None? {
        return Err(Unavailable), posts;
      }
      var body := reply.body.value;
      if reply.status == 200 && body.accessToken != "" {
        return Ok(TokenOf(body, now)), posts;
      }
      if body.error == USE_NONCE && reply.nonce != "" && attempt == 0 {
        nonce, attempt := reply.nonce, attempt + 1;
        continue;
      }
      return Err(Rejected(body.error)), posts;
    }
    assert false;   // the fall-through return is unreachable
    return Err(Rejected(USE_NONCE)), posts;
  }

  /** A 200 with a readable body and an access token in it. */
  predicate Grants(r: Reply, b: Body) {
    r.Answer? && r.status == 200 && r.body == Some(b) && b.accessToken != ""
  }

  /** A readable reply below 500 without a token: the server said no. */
  predicate Rejects(r: Reply, b: Body) {
    r.Answer? && r.status < 500 && r.body == Some(b) && !Grants(r, b)
  }

  /** The token says what the body says; a lifetime counts from `now`. */
  predicate Verbatim(t: Token, b: Body, now: int) {
    && t.accessToken == b.accessToken && t.issuedTokenType == b.issuedTokenType && t.tokenType == b.tokenType
    && t.scopes == b.scopes && (t.expiresAt.Some? <==> b.expiresIn > 0)
    && (0 < b.expiresIn <= 9_223_372_036 ==> t.expiresAt.value == now + b.expiresIn * SECOND)
  }

  /** A verdict is a verbatim token, a rejection with the server's code or an outage, and exactly one of them. */
  lemma VerdictIsExact(r: Reply, now: int)
    ensures Final(r, now).Ok? <==> exists b :: Grants(r, b)
    ensures forall b | Grants(r, b) :: Verbatim(Final(r, now).token, b, now)
    ensures forall code :: Final(r, now) == Err(Rejected(code)) <==> exists b :: Rejects(r, b) && b.error == code
    ensures Final(r, now) == Err(Unavailable) <==> forall b :: !Grants(r, b) && !Rejects(r, b)
  {
    if r.Answer? && r.body.Some? {
      assert Grants(r, r.body.value) || Rejects(r, r.body.value) || r.status >= 500;
    }
  }

  /** The reply asks for a nonce and brings one. */
  ghost predicate AsksForNonce(r: Reply) {
    r.Answer? && r.nonce != "" && exists b :: Rejects(r, b) && b.error == "use_dpop_nonce"
  }

  /**
   What an endpoint sees: the form without a nonce and, exactly if the reply asks
   for one and brings it, the same form with that nonce; the last reply decides.
   */
  lemma RetriedExactly(endpoint: Endpoint, form: Form)
    ensures var first := endpoint(form, "");
            var second := endpoint(form, if first.Answer? then first.nonce else "");
            if AsksForNonce(first) then
              Deciding(endpoint, form) == second &&
              Posts(endpoint, form) == [Post(form, "")] + if second.NotSent? then [] else [Post(form, first.nonce)]
            else
              Deciding(endpoint, form) == first &&
              Posts(endpoint, form) == if first.NotSent? then [] else [Post(form, "")]
  {
    var first := endpoint(form, "");
    if first.Answer? && first.body.Some? {
      assert Rejects(first, first.body.value) <==> first.status < 500 && !Succeeds(first);
    }
  }

  method RedeemAssertion(endpoint: Endpoint, assertion: string, scope: seq<string>, now: int)
    returns (result: Result, posts: seq<Post>)
    ensures assertion == "" ==> result == Err(BadRequest) && posts == []
    ensures assertion != "" ==>
              var form := JwtBearer(assertion, Scopes.Join(scope, " "));
              result == Final(Deciding(endpoint, form), now) && posts == Posts(endpoint, form)
  {
    if assertion == "" {
      return Err(BadRequest), [];
    }
    result, posts := Do(endpoint, JwtBearer(assertion, Scopes.Join(scope, " ")), now);
  }

  // ---- The token cache ----

  type Items = map<string, Token>

  function ExpiryOf(t: Token): Option<int> {
    t.expiresAt
  }

  predicate Hit(items: Items, key: string, now: int, leeway: int) {
    Ttl.Hit(ExpiryOf, items, key, now, leeway)
  }

  /** A lookup drops the entry it finds stale. */
  function Looked(items: Items, key: string, now: int, leeway: int): Items {
    Ttl.Looked(ExpiryOf, items, key, now, leeway)
  }

  // ---- Exchange ----

  datatype Request = Request(subjectToken: string, id: Identity, resource: string, actorToken: string)

  datatype Outcome = Granted | Denied | Errored

  datatype Event = Event(outcome: Outcome, reason: string, subject: string, audience: string, scopes: seq<string>)

  /** Everything one call does: the cache it leaves, its answer, what it sent and what it recorded. */
  datatype Effect = Effect(items: Items, result: Result, posts: seq<Post>, event: Option<Event>)

  function FormOf(req: Request): (form: Form)
    ensures form.TokenExchange? && form.subjectToken == req.subjectToken
    ensures form.subjectTokenType == if req.id.subjectTokenType == "" then ACCESS_TOKEN else req.id.subjectTokenType
    ensures form.audience == req.id.audience && form.requestedTokenType == req.id.requestedTokenType
    ensures form.resource == req.resource && form.actorToken == req.actorToken
    ensures (forall w <- req.id.scope :: Scopes.Word(w)) ==> Scopes.Split(form.scope) == req.id.scope
  {
    assert (forall w <- req.id.scope :: Scopes.Word(w)) ==>
             Scopes.Split(Scopes.Join(req.id.scope, " ")) == req.id.scope by {
      if forall w <- req.id.scope :: Scopes.Word(w) {
        Scopes.SplitInvertsJoin(req.id.scope);
      }
    }
    TokenExchange(req.subjectToken,
                  if req.id.subjectTokenType == "" then ACCESS_TOKEN else req.id.subjectTokenType,
                  req.id.requestedTokenType, req.id.audience, req.resource,
                  Scopes.Join(req.id.scope, " "), req.actorToken)
  }

  function EventFor(result: Result, reason: string, subject: string, audience: string, requested: seq<string>): Event {
    match result
    case Ok(token) => Event(Granted, reason, subject, audience, token.scopes)
    case Err(Rejected(_)) => Event(Denied, "exchange_rejected", subject, audience, requested)
    case Err(_) => Event(Errored, "exchange_unavailable", subject, audience, requested)
  }

  /** The first locked step of a call, if it uses the cache at all. */
  function Looks(req: Request, getNow: int): Ttl.Event<Token> {
    if req.subjectToken == "" || req.id.subject == "" then Ttl.Idle else Ttl.Lookup(CacheKey(req.id), getNow)
  }

  /** The second one: only a token that expires is stored. */
  function Finishes(key: string, cached: bool, result: Result): Ttl.Event<Token> {
    if cached && result.Ok? && result.token.expiresAt.Some? then Ttl.Store(key, result.token) else Ttl.Idle
  }

  function ResultOf(req: Request, endpoint: Endpoint, tokenNow: int): Result {
    Final(Deciding(endpoint, FormOf(req)), tokenNow)
  }

  predicate ServedFromCache(leeway: int, items: Items, req: Request, clock: Clock) {
    req.subjectToken != "" && req.id.subject != "" && Hit(items, CacheKey(req.id), clock.getNow, leeway)
  }

  /** One call by itself: look up, and on a miss ask the server and store. */
  function ExchangeEffect(leeway: int, items: Items, req: Request, endpoint: Endpoint, clock: Clock): Effect {
    var key, cached := CacheKey(req.id), req.id.subject != "";
    var looked := Ttl.Step(ExpiryOf, items, Looks(req, clock.getNow), leeway);
    if req.subjectToken == "" then Effect(items, Err(BadRequest), [], None)
    else if ServedFromCache(leeway, items, req, clock) then
      var result := Ok(items[key]);
      Effect(looked, result, [], Some(EventFor(result, "", req.id.subject, req.id.audience, req.id.scope)))
    else
      var result := ResultOf(req, endpoint, clock.tokenNow);
      Effect(Ttl.Step(ExpiryOf, looked, Finishes(key, cached, result), leeway), result, Posts(endpoint, FormOf(req)),
             Some(EventFor(result, "", req.id.subject, req.id.audience, req.id.scope)))
  }

  // ---- Provide: the two-leg flow ----

  datatype Provider = Provider(audience: string, resource: string, subjectTokenType: string,
                               scope: seq<string>, caching: bool, leeway: int)

  datatype Leg = IdP | ResourceAS

  datatype LegPost = LegPost(leg: Leg, post: Post)

  datatype Acquisition = Acquisition(items: Items, result: Result, posts: seq<LegPost>, event: Option<Event>)

  const CROSS_APP := "cross_app_access"

  function OnLeg(leg: Leg, posts: seq<Post>): (tagged: seq<LegPost>)
    ensures |tagged| == |posts|
  {
    seq(|posts|, i requires 0 <= i < |posts| => LegPost(leg, posts[i]))
  }

  function ProvideKey(p: Provider, subject: string): string {
    CacheKey(Identity(subject, p.audience, "", "", p.scope))
  }

  function MintForm(p: Provider, assertion: string): Form {
    FormOf(Request(assertion, Identity("", p.audience, p.subjectTokenType, ID_JAG, p.scope), p.resource, ""))
  }

  function RedeemForm(p: Provider, idJag: string): Form {
    JwtBearer(idJag, Scopes.Join(p.scope, " "))
  }

  /** The two endpoints as the provider meets them, and its clock readings. */
  datatype Environment = Environment(idp: Endpoint, resourceAS: Endpoint, mintNow: int, clock: Clock)

  /** Both legs, without the cache: mint at the IdP, and only on success redeem at the Resource AS. */
  function Legs(p: Provider, assertion: string, env: Environment): (Result, seq<LegPost>) {
    var mint := MintForm(p, assertion);
    var mintPosts := OnLeg(IdP, Posts(env.idp, mint));
    match Final(Deciding(env.idp, mint), env.mintNow)
    case Err(e) => (Err(e), mintPosts)
    case Ok(idJag) =>
      var redeem := RedeemForm(p, idJag.accessToken);
      (Final(Deciding(env.resourceAS, redeem), env.clock.tokenNow),
       mintPosts + OnLeg(ResourceAS, Posts(env.resourceAS, redeem)))
  }

  predicate CachesFor(p: Provider, subject: string) {
    p.caching && subject != ""
  }

  function Seeks(p: Provider, assertion: string, subject: string, getNow: int): Ttl.Event<Token> {
    if assertion == "" || !CachesFor(p, subject) then Ttl.Idle else Ttl.Lookup(ProvideKey(p, subject), getNow)
  }

  function ProvideEffect(p: Provider, items: Items, assertion: string, subject: string, env: Environment): Acquisition {
    var key, cached := ProvideKey(p, subject), CachesFor(p, subject);
    var looked := Ttl.Step(ExpiryOf, items, Seeks(p, assertion, subject, env.clock.getNow), p.leeway);
    if assertion == "" then Acquisition(items, Err(BadRequest), [], None)
    else if cached && Hit(items, key, env.clock.getNow, p.leeway) then
      var result := Ok(items[key]);
      Acquisition(looked, result, [], Some(EventFor(result, CROSS_APP, subject, p.audience, p.scope)))
    else
      var (result, posts) := Legs(p, assertion, env);
      Acquisition(Ttl.Step(ExpiryOf, looked, Finishes(key, cached, result), p.leeway),
                  result, posts, Some(EventFor(result, CROSS_APP, subject, p.audience, p.scope)))
  }

  /** The posts of one acquisition: up to two to the IdP, then up to two to the Resource AS. */
  ghost predicate TwoLegged(posts: seq<LegPost>, k: nat) {
    && k <= |posts| && k <= 2 && |posts| - k <= 2
    && (forall i :: 0 <= i < k ==> posts[i].leg == IdP)
    && (forall i :: k <= i < |posts| ==> posts[i].leg == ResourceAS)
  }

  /** A request for an ID-JAG: the caller's assertion, for the configured audience, resource and scopes. */
  predicate AsksForIdJag(p: Provider, assertion: string, form: Form) {
    && form.TokenExchange? && form.subjectToken == assertion
    && form.subjectTokenType == (if p.subjectTokenType == "" then "urn:ietf:params:oauth:token-type:access_token"
                                  else p.subjectTokenType)
    && form.requestedTokenType == "urn:ietf:params:oauth:token-type:id-jag"
    && form.audience == p.audience && form.resource == p.resource && form.actorToken == ""
    && form.scope == Scopes.Join(p.scope, " ")
  }

  /** The IdP granted such a request, with `idJag` as its token. */
  ghost predicate Minted(p: Provider, assertion: string, env: Environment, idJag: string) {
    exists form: Form, nonce: string, b: Body ::
      AsksForIdJag(p, assertion, form) && Grants(env.idp(form, nonce), b) && b.accessToken == idJag
  }

  /** Redeems a token that the IdP granted on such a request. */
  ghost predicate Redeems(p: Provider, assertion: string, env: Environment, form: Form) {
    && form.JwtBearer? && form.scope == Scopes.Join(p.scope, " ") && form.assertion != ""
    && Minted(p, assertion, env, form.assertion)
  }

  lemma TaggedPosts(leg: Leg, endpoint: Endpoint, form: Form)
    ensures var posts := OnLeg(leg, Posts(endpoint, form));
            |posts| <= 2 && forall lp <- posts :: lp.leg == leg && lp.post.form == form
  {
    RetriedExactly(endpoint, form);
  }

  lemma LegsAreShaped(p: Provider, assertion: string, env: Environment)
    ensures var posts, k := Legs(p, assertion, env).1, |Posts(env.idp, MintForm(p, assertion))|;
            && TwoLegged(posts, k)
            && (forall i :: 0 <= i < k ==> posts[i].post.form == MintForm(p, assertion))
            && (forall i :: k <= i < |posts| ==> Redeems(p, assertion, env, posts[i].post.form))
  {
    var mint := MintForm(p, assertion);
    TaggedPosts(IdP, env.idp, mint);
    if Final(Deciding(env.idp, mint), env.mintNow).Ok? {
      var idJag := MintedByIdP(p, assertion, env);
      TaggedPosts(ResourceAS, env.resourceAS, RedeemForm(p, idJag));
    }
  }

  /**
   For every server behaviour: at most two posts to the IdP, each asking for an
   ID-JAG for the caller's assertion, then at most two to the Resource AS, each
   redeeming a token that the IdP granted on such a request.
   */
  lemma LegsAreOrdered(p: Provider, items: Items, assertion: string, subject: string, env: Environment)
    ensures var posts := ProvideEffect(p, items, assertion, subject, env).posts;
            && (exists k: nat :: TwoLegged(posts, k))
            && (forall lp <- posts | lp.leg == IdP :: AsksForIdJag(p, assertion, lp.post.form))
            && (forall lp <- posts | lp.leg == ResourceAS :: Redeems(p, assertion, env, lp.post.form))
  {
    var posts := ProvideEffect(p, items, assertion, subject, env).posts;
    if posts == [] {
      assert TwoLegged(posts, 0);
    } else {
      LegsAreShaped(p, assertion, env);
      MintFormAsks(p, assertion);
    }
  }

  lemma MintFormAsks(p: Provider, assertion: string)
    ensures AsksForIdJag(p, assertion, MintForm(p, assertion))
  {
    assert ACCESS_TOKEN == "urn:ietf:params:oauth:token-type:access_token";
    assert ID_JAG == "urn:ietf:params:oauth:token-type:id-jag";
  }

  lemma MintedByIdP(p: Provider, assertion: string, env: Environment) returns (idJag: string)
    requires Final(Deciding(env.idp, MintForm(p, assertion)), env.mintNow).Ok?
    ensures idJag == Final(Deciding(env.idp, MintForm(p, assertion)), env.mintNow).token.accessToken != ""
    ensures Minted(p, assertion, env, idJag)
  {
    var mint := MintForm(p, assertion);
    var reply := Deciding(env.idp, mint);
    RetriedExactly(env.idp, mint);
    VerdictIsExact(reply, env.mintNow);
    idJag := Final(reply, env.mintNow).token.accessToken;
    var nonce := if AsksForNonce(env.idp(mint, "")) then env.idp(mint, "").nonce else "";
    assert env.idp(mint, nonce) == reply && Grants(env.idp(mint, nonce), reply.body.value);
    MintFormAsks(p, assertion);
  }

  /** A token that is not from the cache is what the Resource AS granted for such an ID-JAG, verbatim. */
  lemma TokenIsRedeemed(p: Provider, items: Items, assertion: string, subject: string, env: Environment)
    requires assertion != ""
    requires !(CachesFor(p, subject) && Hit(items, ProvideKey(p, subject), env.clock.getNow, p.leeway))
    ensures var result := ProvideEffect(p, items, assertion, subject, env).result;
            result.Ok? ==> exists form: Form, nonce: string, b: Body ::
              && form.JwtBearer? && Minted(p, assertion, env, form.assertion)
              && Grants(env.resourceAS(form, nonce), b) && Verbatim(result.token, b, env.clock.tokenNow)
  {
    var result := ProvideEffect(p, items, assertion, subject, env).result;
    if result.Ok? {
      var idJag := MintedByIdP(p, assertion, env);
      var redeem := RedeemForm(p, idJag);
      var reply := Deciding(env.resourceAS, redeem);
      RetriedExactly(env.resourceAS, redeem);
      VerdictIsExact(reply, env.clock.tokenNow);
      var first := env.resourceAS(redeem, "");
      var nonce := if AsksForNonce(first) then first.nonce else "";
      assert env.resourceAS(redeem, nonce) == reply && Grants(env.resourceAS(redeem, nonce), reply.body.value);
    }
  }

  /** What the sink is told: granted with the token's scopes, or why it failed with the requested ones. */
  predicate Tells(e: Event, result: Result, reason: string, subject: string, audience: string, requested: seq<string>) {
    && e.subject == subject && e.audience == audience
    && e.scopes == (if result.Ok? then result.token.scopes else requested)
    && (e.outcome == Granted <==> result.Ok?) && (e.outcome == Denied <==> result.Err? && result.error.Rejected?)
    && e.reason == (if result.Ok? then reason
                    else if result.error.Rejected? then "exchange_rejected" else "exchange_unavailable")
  }

  /**
   Exactly one event per acquisition with an assertion, matching its result.  A
   failure writes nothing to the cache, and a success at most its own expiring
   token under its own key.
   */
  lemma EventsMatchResults(p: Provider, items: Items, assertion: string, subject: string, env: Environment)
    ensures var a := ProvideEffect(p, items, assertion, subject, env);
            if assertion == "" then a == Acquisition(items, Err(BadRequest), [], None)
            else
              && a.result != Err(BadRequest)
              && a.event.Some? && Tells(a.event.value, a.result, "cross_app_access", subject, p.audience, p.scope)
              && (forall key <- a.items :: (key in items && a.items[key] == items[key]) ||
                    (p.caching && subject != "" && key == ProvideKey(p, subject) &&
                     a.result == Ok(a.items[key]) && a.items[key].expiresAt.Some?))
  {
  }

  /** The same for a token exchange; a hit posts nothing, and only a request with a subject uses the cache. */
  lemma ExchangeEventsMatch(leeway: int, items: Items, req: Request, endpoint: Endpoint, clock: Clock)
    ensures var e := ExchangeEffect(leeway, items, req, endpoint, clock);
            if req.subjectToken == "" then e == Effect(items, Err(BadRequest), [], None)
            else
              && e.event.Some? && Tells(e.event.value, e.result, "", req.id.subject, req.id.audience, req.id.scope)
              && (e.posts != [] ==> forall post <- e.posts :: post.form == FormOf(req))
              && (req.id.subject == "" ==> e.items == items)
              && (forall key <- e.items :: (key in items && e.items[key] == items[key]) ||
                    (key == CacheKey(req.id) && e.result == Ok(e.items[key]) && e.items[key].expiresAt.Some?))
  {
    RetriedExactly(endpoint, FormOf(req));
  }

  /** A token that is not from the cache is what the server granted on the request's form, verbatim. */
  lemma TokenIsIssued(leeway: int, items: Items, req: Request, endpoint: Endpoint, clock: Clock)
    requires !ServedFromCache(leeway, items, req, clock)
    ensures var result := ExchangeEffect(leeway, items, req, endpoint, clock).result;
            result.Ok? ==> exists nonce: string, b: Body ::
              Grants(endpoint(FormOf(req), nonce), b) && Verbatim(result.token, b, clock.tokenNow)
  {
    var form := FormOf(req);
    var reply := Deciding(endpoint, form);
    RetriedExactly(endpoint, form);
    VerdictIsExact(reply, clock.tokenNow);
    if ExchangeEffect(leeway, items, req, endpoint, clock).result.Ok? {
      var nonce := if AsksForNonce(endpoint(form, "")) then endpoint(form, "").nonce else "";
      assert endpoint(form, nonce) == reply && Grants(endpoint(form, nonce), reply.body.value);
    }
  }

  /** Providers that share a cache and have bar-free names share entries exactly for one subject, audience and scope. */
  lemma ProvidersShareExactly(p: Provider, subject: string, q: Provider, other: string)
    requires BarFree(subject) && BarFree(p.audience) && BarFree(other) && BarFree(q.audience)
    ensures ProvideKey(p, subject) == ProvideKey(q, other) <==>
            && subject == other && p.audience == q.audience
            && Scopes.Join(Sort(p.scope), " ") == Scopes.Join(Sort(q.scope), " ")
  {
    FieldsReadBack(Identity(subject, p.audience, "", "", p.scope), Identity(other, q.audience, "", "", q.scope));
  }
}
