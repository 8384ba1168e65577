/**
 Token exchange and acquisition over the heap cache.  Each returns the very token
 object that it stored, so its caller and the cache share it.
 */
module Exchanger {
  import opened Base
  import opened TokenKey
  import opened Exchange
  import opened TokenCache
  import Ttl = TtlCache

  function ResultFrom(tok: TokenRef?, error: Error): Result
    reads tok, if tok == null then null else tok.scopes
  {
    if tok == null then Err(error) else Ok(tok.Value())
  }

  /** Entries are old ones or the token returned, and that one if it is to be stored. */
  twostate predicate SharesOnly(cache: MemoryCache, key: string, stores: bool, new tok: TokenRef?)
    reads cache
  {
    && (forall k <- cache.items ::
          cache.items[k] == tok || (k in old(cache.items) && cache.items[k] == old(cache.items)[k]))
    && (stores ==> key in cache.items && cache.items[key] == tok)
  }

  /** The first locked step of a call that uses the cache: a hit is a copy. */
  method LookUp(cache: MemoryCache, key: string, now: int) returns (tok: TokenRef?)
    modifies cache
    ensures cache.View() == Looked(old(cache.View()), key, now, cache.leeway)
    ensures tok != null <==> Hit(old(cache.View()), key, now, cache.leeway)
    ensures tok != null ==> fresh(tok.Parts()) && tok.Value() == old(cache.View())[key]
    ensures SharesOnly(cache, key, false, null)
  {
    tok := cache.Get(key, now);
  }

  /** The second one: the token returned is, when it is stored, the entry itself. */
  method Keep(cache: MemoryCache, key: string, cached: bool, result: Result) returns (tok: TokenRef?, error: Error)
    modifies cache
    ensures cache.View() == Ttl.Step(ExpiryOf, old(cache.View()), Finishes(key, cached, result), cache.leeway)
    ensures ResultFrom(tok, error) == result && (tok != null ==> fresh(tok.Parts()))
    ensures SharesOnly(cache, key, Finishes(key, cached, result).Store?, tok)
  {
    if result.Err? {
      return null, result.error;
    }
    error := BadRequest;
    tok := Make(result.token);
    if cached && result.token.expiresAt.Some? {
      cache.Set(key, tok);
    }
  }

  method ExchangeToken(cache: MemoryCache, req: Request, endpoint: Endpoint, clock: Clock)
    returns (tok: TokenRef?, error: Error, posts: seq<Post>, event: Option<Event>)
    modifies cache
    ensures Effect(cache.View(), ResultFrom(tok, error), posts, event) ==
            ExchangeEffect(cache.leeway, old(cache.View()), req, endpoint, clock)
    ensures tok != null ==> fresh(tok.Parts())
    ensures SharesOnly(cache, CacheKey(req.id), Stores(old(cache.View()), cache.leeway, req, endpoint, clock), tok)
  {
    tok, error, posts, event := null, BadRequest, [], None;
    if req.subjectToken == "" {
      return;
    }
    var key := CacheKey(req.id);
    if req.id.subject != "" {
      tok := LookUp(cache, key, clock.getNow);
      if tok != null {
        event := Some(EventFor(Ok(tok.Value()), "", req.id.subject, req.id.audience, req.id.scope));
        return;
      }
    }
    var result;
    result, posts := Do(endpoint, FormOf(req), clock.tokenNow);
    tok, error := Keep(cache, key, req.id.subject != "", result);
    event := Some(EventFor(result, "", req.id.subject, req.id.audience, req.id.scope));
  }

  /** The call asks the server and gets a token to store. */
  predicate Stores(items: Items, leeway: int, req: Request, endpoint: Endpoint, clock: Clock) {
    && req.subjectToken != "" && !ServedFromCache(leeway, items, req, clock)
    && Finishes(CacheKey(req.id), req.id.subject != "", ResultOf(req, endpoint, clock.tokenNow)).Store?
  }

  /**
   So the first caller stays connected to the entry: what it writes into the
   token it was given is what the next caller of the same request is handed.
   */
  method FirstCallerReachesNext(cache: MemoryCache, req: Request, endpoint: Endpoint, clock: Clock,
                                changed: string, later: Clock)
    returns (first: TokenRef?, next: TokenRef?)
    requires req.subjectToken != "" && req.id.subject != "" && !cache.Holds(CacheKey(req.id), clock.getNow)
    requires var result := ResultOf(req, endpoint, clock.tokenNow);
             result.Ok? && Ttl.Usable(result.token.expiresAt, later.getNow, cache.leeway)
    modifies cache
    ensures first != null && next != null && next != first && next.scalars.accessToken == changed
  {
    var error, posts, event;
    first, error, posts, event := ExchangeToken(cache, req, endpoint, clock);
    first.scalars := first.scalars.(accessToken := changed);
    next, error, posts, event := ExchangeToken(cache, req, endpoint, later);
  }

  class DownstreamProvider {
    const cfg: Provider
    const cache: MemoryCache
    var sent: seq<LegPost>
    var audit: seq<Event>

    ghost predicate Valid() {
      cache.leeway == cfg.leeway
    }

    constructor (cfg: Provider)
      ensures Valid() && this.cfg == cfg && fresh(cache) && cache.items == map[]
      ensures sent == [] && audit == []
    {
      this.cfg := cfg;
      cache := new MemoryCache(cfg.leeway);
      sent, audit := [], [];
    }

    /** `sent` is what went over the wire, `audit` what the sink recorded. */
    method Provide(assertion: string, subject: string, env: Environment) returns (tok: TokenRef?, error: Error)
      requires Valid()
      modifies this, cache
      ensures var a := ProvideEffect(cfg, old(cache.View()), assertion, subject, env);
              && ResultFrom(tok, error) == a.result && cache.View() == a.items && sent == old(sent) + a.posts
              && audit == old(audit) + if a.event.Some? then [a.event.value] else []
      ensures tok != null ==> fresh(tok.Parts())
      ensures SharesOnly(cache, ProvideKey(cfg, subject), StoresFor(old(cache.View()), assertion, subject, env), tok)
    {
      if assertion == "" {
        return null, BadRequest;
      }
      var result;
      tok, error, result := Acquire(assertion, subject, env);
      Record(result, subject);
    }

    method Acquire(assertion: string, subject: string, env: Environment)
      returns (tok: TokenRef?, error: Error, result: Result)
      requires Valid() && assertion != ""
      modifies this`sent, cache
      ensures var a := ProvideEffect(cfg, old(cache.View()), assertion, subject, env);
              && result == ResultFrom(tok, error) == a.result && cache.View() == a.items && sent == old(sent) + a.posts
              && a.event == Some(EventFor(result, CROSS_APP, subject, cfg.audience, cfg.scope))
      ensures tok != null ==> fresh(tok.Parts())
      ensures SharesOnly(cache, ProvideKey(cfg, subject), StoresFor(old(cache.View()), assertion, subject, env), tok)
    {
      error := BadRequest;
      var key, cached := ProvideKey(cfg, subject), CachesFor(cfg, subject);
      if cached {
        tok := LookUp(cache, key, env.clock.getNow);
        if tok != null {
          result := Ok(tok.Value());
          return;
        }
      }
      result := RunLegs(assertion, env);
      tok, error := Keep(cache, key, cached, result);
    }

    predicate StoresFor(items: Items, assertion: string, subject: string, env: Environment) {
      && assertion != "" && CachesFor(cfg, subject)
      && !Hit(items, ProvideKey(cfg, subject), env.clock.getNow, cfg.leeway)
      && Finishes(ProvideKey(cfg, subject), true, Legs(cfg, assertion, env).0).Store?
    }

    method RunLegs(assertion: string, env: Environment) returns (result: Result)
      modifies this`sent
      ensures result == Legs(cfg, assertion, env).0 && sent == old(sent) + Legs(cfg, assertion, env).1
    {
      var posts;
      result, posts := Do(env.idp, MintForm(cfg, assertion), env.mintNow);
      sent := sent + OnLeg(IdP, posts);
      if result.Err? {
        return;
      }
      result, posts := RedeemAssertion(env.resourceAS, result.token.accessToken, cfg.scope, env.clock.tokenNow);
      sent := sent + OnLeg(ResourceAS, posts);
    }

    method Record(result: Result, subject: string)
      modifies this`audit
      ensures audit == old(audit) + [EventFor(result, CROSS_APP, subject, cfg.audience, cfg.scope)]
    {
      audit := audit + [EventFor(result, CROSS_APP, subject, cfg.audience, cfg.scope)];
    }
  }
}
